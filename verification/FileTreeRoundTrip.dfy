/**
 * Reading back a file tree that was built from a list of files: the entries come back in path order, whatever order
 * they were added in, even when one path is a prefix of another; of files added under one path the last one stays.
 */
module FileTreeRoundTrip {
  import opened Options
  import opened Ordering
  import opened FileTree

  // ---- The reference: a list of files kept in path order -------------------------------------------------------

  /** Puts a file where its path belongs, in place of a file with the same path. */
  function Insert(es: seq<Entry>, e: Entry): seq<Entry> {
    if es == [] then [e]
    else if es[0].path == e.path then [e] + es[1..]
    else if PathLess(e.path, es[0].path) then [e] + es
    else [es[0]] + Insert(es[1..], e)
  }

  function StoredEntry(e: Entry): Entry {
    Entry(e.path, Stored(e.info))
  }

  function InPathOrder(files: seq<Entry>): seq<Entry> {
    if files == [] then [] else Insert(InPathOrder(files[..|files| - 1]), StoredEntry(files[|files| - 1]))
  }

  /** Every path of `es` comes before `path`. */
  ghost predicate AllBefore(es: seq<Entry>, path: seq<string>) {
    forall k :: 0 <= k < |es| ==> PathLess(es[k].path, path)
  }

  ghost predicate AllAfter(path: seq<string>, es: seq<Entry>) {
    forall k :: 0 <= k < |es| ==> PathLess(path, es[k].path)
  }

  lemma InsertFirst(es: seq<Entry>, e: Entry)
    requires AllAfter(e.path, es)
    ensures Insert(es, e) == [e] + es
  {
    PathLessIrreflexive(e.path);
  }

  lemma {:induction false} InsertRight(left: seq<Entry>, right: seq<Entry>, e: Entry)
    requires AllBefore(left, e.path)
    ensures Insert(left + right, e) == left + Insert(right, e)
  {
    if left == [] {
      assert left + right == right;
    } else {
      PathLessAsymmetric(left[0].path, e.path);
      assert (left + right)[1..] == left[1..] + right;
      InsertRight(left[1..], right, e);
      assert left == [left[0]] + left[1..];
    }
  }

  lemma {:induction false} InsertLeft(left: seq<Entry>, right: seq<Entry>, e: Entry)
    requires AllAfter(e.path, right)
    ensures Insert(left + right, e) == Insert(left, e) + right
  {
    if left == [] {
      assert left + right == right;
      InsertFirst(right, e);
    } else {
      assert (left + right)[1..] == left[1..] + right;
      InsertLeft(left[1..], right, e);
    }
  }

  // ---- Trees that can be read ----------------------------------------------------------------------------------

  /** Keys ascend on every level, every value is a dictionary, and the ones under empty keys are files. */
  ghost predicate IsTree(d: Dict)
    decreases d
  {
    d.Cons? ==>
      && Sorted(d)
      && IsTree(d.rest)
      && d.value.BDict?
      && (if d.key == "" then ParseInfo(d.value).Ok? else IsTree(d.value.entries))
  }

  lemma {:induction false} TreesCanBeRead(d: Dict, path: seq<string>)
    requires IsTree(d)
    ensures Walk(d, path).Ok?
    decreases d
  {
    if d.Cons? {
      TreesCanBeRead(d.rest, path);
      if d.key != "" {
        TreesCanBeRead(d.value.entries, path + [d.key]);
      }
    }
  }

  /** The path lies below `path`, through a component that comes after `key`. */
  predicate Beyond(path: seq<string>, key: string, p: seq<string>) {
    |path| < |p| && path == p[..|path|] && Less(key, p[|path|])
  }

  ghost predicate AllBelow(path: seq<string>, es: seq<Entry>) {
    forall k :: 0 <= k < |es| ==> path <= es[k].path
  }

  ghost predicate AllBeyond(path: seq<string>, key: string, es: seq<Entry>) {
    forall k :: 0 <= k < |es| ==> Beyond(path, key, es[k].path)
  }

  lemma {:induction false} WalkStaysBelow(d: Dict, path: seq<string>)
    requires IsTree(d)
    ensures Walk(d, path).Ok? && AllBelow(path, Walk(d, path).value)
    decreases d
  {
    TreesCanBeRead(d, path);
    if d.Cons? {
      WalkStaysBelow(d.rest, path);
      if d.key != "" {
        WalkStaysBelow(d.value.entries, path + [d.key]);
        BelowWeaken(path, d.key, Walk(d.value.entries, path + [d.key]).value);
      }
    }
  }

  lemma BelowWeaken(path: seq<string>, key: string, es: seq<Entry>)
    requires AllBelow(path + [key], es)
    ensures AllBelow(path, es)
  {
    forall k | 0 <= k < |es| ensures path <= es[k].path {
      assert path + [key] <= es[k].path;
      assert path <= path + [key];
    }
  }

  lemma BelowIsBeyond(path: seq<string>, key: string, next: string, es: seq<Entry>)
    requires AllBelow(path + [next], es) && Less(key, next)
    ensures AllBeyond(path, key, es)
  {
    forall k | 0 <= k < |es| ensures Beyond(path, key, es[k].path) {
      var p := es[k].path;
      assert path + [next] <= p;
      assert p[|path|] == (path + [next])[|path|];
      assert p[..|path|] == (path + [next])[..|path|] == path;
    }
  }

  /** With all keys after `key`, everything read lies beyond it. */
  lemma {:induction false} WalkGoesBeyond(d: Dict, path: seq<string>, key: string)
    requires IsTree(d) && (d.Cons? ==> Less(key, d.key))
    ensures Walk(d, path).Ok? && AllBeyond(path, key, Walk(d, path).value)
    decreases d
  {
    TreesCanBeRead(d, path);
    if d.Cons? {
      if d.rest.Cons? {
        LessTransitive(key, d.key, d.rest.key);
      }
      WalkGoesBeyond(d.rest, path, key);
      WalkStaysBelow(d.value.entries, path + [d.key]);
      BelowIsBeyond(path, key, d.key, Walk(d.value.entries, path + [d.key]).value);
    }
  }

  /** The path of a file that is kept under `key` in the dictionary at `path`. */
  ghost predicate AtKey(path: seq<string>, key: string, p: seq<string>) {
    if key == "" then p == path else path + [key] <= p
  }

  lemma PathAtKey(path: seq<string>, key: string, p: seq<string>)
    requires AtKey(path, key, p)
    ensures path <= p && (if key == "" then |p| == |path| else |p| > |path| && p[|path|] == key)
  {
    if key != "" {
      assert p[|path|] == (path + [key])[|path|];
      assert path <= path + [key];
    }
  }

  /** Below one dictionary the first component decides. */
  lemma ComponentDecides(path: seq<string>, p: seq<string>, q: seq<string>)
    requires path <= p && path <= q && |path| < |q|
    requires |path| == |p| || Less(p[|path|], q[|path|])
    ensures PathLess(p, q)
  {
    var n := |path|;
    assert p == path + p[n..] && q == path + q[n..];
    PathLessPrefix(path, p[n..], q[n..]);
  }

  lemma BeyondIsAfter(path: seq<string>, key: string, p: seq<string>, es: seq<Entry>)
    requires AtKey(path, key, p) && AllBeyond(path, key, es)
    ensures AllAfter(p, es)
  {
    PathAtKey(path, key, p);
    forall k | 0 <= k < |es| ensures PathLess(p, es[k].path) {
      assert Beyond(path, key, es[k].path);
      ComponentDecides(path, p, es[k].path);
    }
  }

  lemma KeyIsBefore(d: Dict, path: seq<string>, key: string, p: seq<string>)
    requires IsTree(d) && d.Cons? && Less(d.key, key) && AtKey(path, key, p)
    ensures WalkKey(d.key, d.value, path).Ok? && AllBefore(WalkKey(d.key, d.value, path).value, p)
  {
    PathAtKey(path, key, p);
    if d.key == "" {
      ComponentDecides(path, path, p);
    } else {
      var below := path + [d.key];
      WalkStaysBelow(d.value.entries, below);
      var es := Walk(d.value.entries, below).value;
      forall k | 0 <= k < |es| ensures PathLess(es[k].path, p) {
        PathAtKey(path, d.key, es[k].path);
        ComponentDecides(path, es[k].path, p);
      }
    }
  }

  /** The files that are under `key` already. */
  ghost function Existing(d: Dict, key: string, path: seq<string>): seq<Entry> {
    match Find(d, key)
    case None => []
    case Some(value) => if WalkKey(key, value, path).Ok? then WalkKey(key, value, path).value else []
  }

  /** A change below one key that puts one file in order puts it in order in the whole dictionary. */
  lemma {:induction false} AssignInOrder(d: Dict, key: string, value: BValue, path: seq<string>, e: Entry)
    requires IsTree(d) && AtKey(path, key, e.path)
    requires WalkKey(key, value, path) == Ok(Insert(Existing(d, key, path), e))
    ensures Walk(d, path).Ok?
    ensures Walk(InsertOrAssign(d, key, value), path) == Ok(Insert(Walk(d, path).value, e))
    decreases d
  {
    hide PathLess, Insert;
    TreesCanBeRead(d, path);
    if d.Nil? {
      assert Insert([], e) + [] == Insert([], e);
    } else if key == d.key {
      AssignSame(d, key, value, path, e);
    } else if Less(key, d.key) {
      AssignBefore(d, key, value, path, e);
    } else {
      AssignInOrder(d.rest, key, value, path, e);
      AssignLater(d, key, value, path, e);
    }
  }

  lemma AssignSame(d: Dict, key: string, value: BValue, path: seq<string>, e: Entry)
    requires IsTree(d) && d.Cons? && d.key == key && AtKey(path, key, e.path)
    requires WalkKey(key, value, path) == Ok(Insert(Existing(d, key, path), e))
    ensures Walk(d, path).Ok?
    ensures Walk(InsertOrAssign(d, key, value), path) == Ok(Insert(Walk(d, path).value, e))
  {
    TreesCanBeRead(d, path);
    WalkGoesBeyond(d.rest, path, key);
    var rest := Walk(d.rest, path).value;
    hide PathLess, Insert, AtKey, AllBeyond, AllAfter;
    BeyondIsAfter(path, key, e.path, rest);
    InsertLeft(WalkKey(key, d.value, path).value, rest, e);
  }

  lemma AssignBefore(d: Dict, key: string, value: BValue, path: seq<string>, e: Entry)
    requires IsTree(d) && d.Cons? && Less(key, d.key) && AtKey(path, key, e.path)
    requires WalkKey(key, value, path) == Ok(Insert(Existing(d, key, path), e))
    ensures Walk(d, path).Ok?
    ensures Walk(InsertOrAssign(d, key, value), path) == Ok(Insert(Walk(d, path).value, e))
  {
    SortedBelow(d, key);
    LessAsymmetric(key, d.key);
    WalkGoesBeyond(d, path, key);
    assert Insert([], e) == [e];
    hide PathLess, Insert, AtKey, AllBeyond, AllAfter;
    BeyondIsAfter(path, key, e.path, Walk(d, path).value);
    InsertFirst(Walk(d, path).value, e);
  }

  lemma AssignLater(d: Dict, key: string, value: BValue, path: seq<string>, e: Entry)
    requires IsTree(d) && d.Cons? && key != d.key && !Less(key, d.key) && AtKey(path, key, e.path)
    requires Walk(d.rest, path).Ok?
    requires Walk(InsertOrAssign(d.rest, key, value), path) == Ok(Insert(Walk(d.rest, path).value, e))
    ensures Walk(d, path).Ok?
    ensures Walk(InsertOrAssign(d, key, value), path) == Ok(Insert(Walk(d, path).value, e))
  {
    LessTotal(key, d.key);
    TreesCanBeRead(d, path);
    hide PathLess, Insert, AtKey, AllBefore;
    KeyIsBefore(d, path, key, e.path);
    InsertRight(WalkKey(d.key, d.value, path).value, Walk(d.rest, path).value, e);
  }

  // ---- Adding one file -----------------------------------------------------------------------------------------

  ghost predicate FitsKey(key: string, value: BValue) {
    value.BDict? && if key == "" then ParseInfo(value).Ok? else IsTree(value.entries)
  }

  lemma {:induction false} AssignKeepsTree(d: Dict, key: string, value: BValue)
    requires IsTree(d) && FitsKey(key, value)
    ensures IsTree(InsertOrAssign(d, key, value))
    decreases d
  {
    assert Sorted(d);
    InsertFinds(d, key, value, key);
    hide ParseInfo;
    if d.Cons? && key != d.key && !Less(key, d.key) {
      AssignKeepsTree(d.rest, key, value);
    }
  }

  /** What is found in a tree is a dictionary: the builder never meets anything else. */
  lemma {:induction false} FoundIsTree(d: Dict, key: string)
    requires IsTree(d)
    ensures Find(d, key).Some? ==> FitsKey(key, Find(d, key).value)
    decreases d
  {
    if d.Cons? && d.key != key {
      FoundIsTree(d.rest, key);
    }
  }

  lemma AddHere(d: Dict, path: seq<string>, info: Info)
    requires IsTree(d) && ValidInfo(info) && !IsSymlink(info)
    ensures IsTree(InsertFile(d, [], info))
    ensures Walk(d, path).Ok?
    ensures Walk(InsertFile(d, [], info), path) == Ok(Insert(Walk(d, path).value, Entry(path, Stored(info))))
  {
    FoundIsTree(d, "");
    InfoRoundTrip(info);
    FormatFinds(info);
    var e := Entry(path, Stored(info));
    assert Insert(Existing(d, "", path), e) == [e] by {
      var there := Existing(d, "", path);
      assert there == [] || (|there| == 1 && there[0].path == path);
      assert there == [] || there[1..] == [];
    }
    hide FormatInfo, ParseInfo, IsTree, Walk, Find, InsertOrAssign;
    AssignKeepsTree(d, "", FormatInfo(info));
    AssignInOrder(d, "", FormatInfo(info), path, e);
  }

  /** Adding a file to the tree puts it in order among the files that are read back. */
  lemma {:induction false} AddInOrder(d: Dict, path: seq<string>, p: seq<string>, info: Info)
    requires IsTree(d) && ValidInfo(info) && !IsSymlink(info) && "" !in p
    ensures IsTree(InsertFile(d, p, info))
    ensures Walk(d, path).Ok?
    ensures Walk(InsertFile(d, p, info), path) == Ok(Insert(Walk(d, path).value, Entry(path + p, Stored(info))))
    decreases |p|
  {
    if p == [] {
      assert path + p == path;
      AddHere(d, path, info);
    } else {
      var key := p[0];
      var child := Child(d, key);
      FoundIsTree(d, key);
      assert IsTree(Nil) && Walk(Nil, path + [key]) == Ok([]);
      AddInOrder(child, path + [key], p[1..], info);
      assert path + [key] + p[1..] == path + p;
      AddBelow(d, path, p, info, BDict(InsertFile(child, p[1..], info)));
    }
  }

  lemma AddBelow(d: Dict, path: seq<string>, p: seq<string>, info: Info, value: BValue)
    requires IsTree(d) && p != [] && p[0] != "" && value.BDict? && IsTree(value.entries)
    requires Walk(Child(d, p[0]), path + [p[0]]).Ok?
    requires Walk(value.entries, path + [p[0]])
             == Ok(Insert(Walk(Child(d, p[0]), path + [p[0]]).value, Entry(path + p, Stored(info))))
    ensures IsTree(InsertOrAssign(d, p[0], value))
    ensures Walk(d, path).Ok?
    ensures Walk(InsertOrAssign(d, p[0], value), path) == Ok(Insert(Walk(d, path).value, Entry(path + p, Stored(info))))
  {
    FoundIsTree(d, p[0]);
    assert Walk(Nil, path + [p[0]]) == Ok([]);
    assert path + [p[0]] <= path + p;
    hide IsTree, Walk, Insert, InsertOrAssign, Find;
    AssignKeepsTree(d, p[0], value);
    AssignInOrder(d, p[0], value, path, Entry(path + p, Stored(info)));
  }

  // ---- Whole lists ---------------------------------------------------------------------------------------------

  /**
   * The round trip: building the tree of any list of files and walking it gives the files in path order. The walk is
   * the one of `WalkWithStack`, which equals `Walk`.
   */
  lemma {:induction false} TreeRoundTrip(files: seq<Entry>)
    requires ValidEntries(files)
    ensures IsTree(BuildTree(files))
    ensures Walk(BuildTree(files), []) == Ok(InPathOrder(files))
  {
    if files != [] {
      var n := |files| - 1;
      var last := files[n];
      TreeRoundTrip(files[..n]);
      assert [] + last.path == last.path;
      AddInOrder(BuildTree(files[..n]), [], last.path, last.info);
    }
  }

  ghost predicate StrictlySorted(es: seq<Entry>) {
    forall i, j :: 0 <= i < j < |es| ==> PathLess(es[i].path, es[j].path)
  }

  /** The file added last under a path, as it is stored. */
  function Latest(files: seq<Entry>, path: seq<string>): Option<Info> {
    if files == [] then None
    else if files[|files| - 1].path == path then Some(Stored(files[|files| - 1].info))
    else Latest(files[..|files| - 1], path)
  }

  lemma {:induction false} InsertKeepsOrder(es: seq<Entry>, e: Entry)
    requires StrictlySorted(es)
    ensures StrictlySorted(Insert(es, e))
    ensures forall x :: x in Insert(es, e) <==> x == e || (x in es && x.path != e.path)
  {
    if es == [] {
    } else if es[0].path == e.path {
      forall k | 1 <= k < |es| ensures es[k].path != e.path {
        PathLessAsymmetric(es[0].path, es[k].path);
      }
    } else if PathLess(e.path, es[0].path) {
      forall k | 0 <= k < |es| ensures PathLess(e.path, es[k].path) && es[k].path != e.path {
        if k > 0 {
          PathLessTransitive(e.path, es[0].path, es[k].path);
        }
        PathLessAsymmetric(e.path, es[k].path);
      }
    } else {
      PathLessTotal(es[0].path, e.path);
      InsertKeepsOrder(es[1..], e);
    }
  }

  /** Paths come back strictly ascending, and each with what was stored last under it. */
  lemma {:induction false} PathOrder(files: seq<Entry>)
    ensures StrictlySorted(InPathOrder(files))
    ensures forall e :: e in InPathOrder(files) <==> Latest(files, e.path) == Some(e.info)
  {
    if files != [] {
      PathOrder(files[..|files| - 1]);
      InsertKeepsOrder(InPathOrder(files[..|files| - 1]), StoredEntry(files[|files| - 1]));
    }
  }

  ghost predicate DistinctPaths(files: seq<Entry>) {
    forall i, j :: 0 <= i < j < |files| ==> files[i].path != files[j].path
  }

  lemma {:induction false} LatestOfDistinct(files: seq<Entry>, k: nat)
    requires DistinctPaths(files) && k < |files|
    ensures Latest(files, files[k].path) == Some(Stored(files[k].info))
  {
    if k < |files| - 1 {
      LatestOfDistinct(files[..|files| - 1], k);
    }
  }

  /** No file is lost when paths are distinct, and nothing else comes back. */
  lemma DistinctFilesSurvive(files: seq<Entry>)
    requires ValidEntries(files) && DistinctPaths(files)
    ensures Walk(BuildTree(files), []).Ok?
    ensures forall k :: 0 <= k < |files| ==> StoredEntry(files[k]) in Walk(BuildTree(files), []).value
    ensures |Walk(BuildTree(files), []).value| == |files|
  {
    TreeRoundTrip(files);
    PathOrder(files);
    forall k | 0 <= k < |files| ensures StoredEntry(files[k]) in InPathOrder(files) {
      LatestOfDistinct(files, k);
    }
    DistinctLength(files);
  }

  lemma {:induction false} DistinctLength(files: seq<Entry>)
    requires DistinctPaths(files)
    ensures |InPathOrder(files)| == |files|
  {
    if files != [] {
      var n := |files| - 1;
      DistinctLength(files[..n]);
      PathOrder(files[..n]);
      forall e | e in InPathOrder(files[..n]) ensures e.path != files[n].path {
        LatestIsThere(files[..n], e.path);
      }
      InsertNew(InPathOrder(files[..n]), StoredEntry(files[n]));
    }
  }

  lemma {:induction false} LatestIsThere(files: seq<Entry>, path: seq<string>)
    requires Latest(files, path).Some?
    ensures exists k :: 0 <= k < |files| && files[k].path == path
  {
    if files[|files| - 1].path != path {
      LatestIsThere(files[..|files| - 1], path);
    }
  }

  lemma {:induction false} InsertNew(es: seq<Entry>, e: Entry)
    requires forall x :: x in es ==> x.path != e.path
    ensures |Insert(es, e)| == |es| + 1
  {
    if es != [] {
      InsertNew(es[1..], e);
    }
  }
}
