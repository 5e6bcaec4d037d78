/** What reading gives for any file tree, well formed or not (src/metafile_parsing.cpp:539-593). */
module FileTreeReading {
  import opened Options
  import opened Ordering
  import opened FileTree
  import opened FileTreeRoundTrip

  /** Keys ascend in every dictionary, as they do in a std::map. */
  ghost predicate SortedTree(d: Dict)
    decreases d
  {
    d.Cons? ==> Sorted(d) && (d.value.BDict? ==> SortedTree(d.value.entries)) && SortedTree(d.rest)
  }

  /** The value found by going down one component after the other. */
  ghost function Lookup(d: Dict, path: seq<string>): Option<BValue>
    requires path != []
    decreases |path|
  {
    match Find(d, path[0])
    case None => None
    case Some(value) =>
      if |path| == 1 then Some(value) else if value.BDict? then Lookup(value.entries, path[1..]) else None
  }

  /** A value the reader accepts: a dictionary, and under the empty key that of a file. */
  ghost predicate Acceptable(key: string, value: BValue) {
    value.BDict? && (key == "" ==> ParseInfo(value).Ok?)
  }

  /** A place the reader comes to: what is below an empty key belongs to a file. */
  ghost predicate Visited(d: Dict, path: seq<string>) {
    path != [] && "" !in path[..|path| - 1] && Lookup(d, path).Some?
  }

  ghost predicate Readable(d: Dict) {
    forall path :: Visited(d, path) ==> Acceptable(path[|path| - 1], Lookup(d, path).value)
  }

  /** The tree has this file: its dictionary is under the empty key below its path. */
  ghost predicate HasFile(d: Dict, path: seq<string>, info: Info) {
    Visited(d, path + [""]) && ParseInfo(Lookup(d, path + [""]).value) == Ok(info)
  }

  // ---- One key after the other ---------------------------------------------------------------------------------

  lemma LookupFirst(d: Dict, path: seq<string>)
    requires Sorted(d) && d.Cons? && path != []
    ensures Lookup(d, path) ==
            if path[0] != d.key then Lookup(d.rest, path)
            else if |path| == 1 then Some(d.value)
            else if d.value.BDict? then Lookup(d.value.entries, path[1..])
            else None
    ensures path[0] == d.key ==> Lookup(d.rest, path) == None
  {
    SortedBelow(d.rest, d.key);
  }

  lemma VisitedFirst(d: Dict, path: seq<string>)
    requires Sorted(d) && d.Cons? && path != []
    ensures Visited(d, path) <==>
            Visited(d.rest, path)
            || (path[0] == d.key
                && (|path| == 1 || (d.key != "" && d.value.BDict? && Visited(d.value.entries, path[1..]))))
  {
    LookupFirst(d, path);
    hide Lookup, Find;
    if |path| > 1 {
      assert path[..|path| - 1] == [path[0]] + path[1..][..|path[1..]| - 1];
    }
  }

  lemma ReadableFirst(d: Dict)
    requires Sorted(d) && d.Cons?
    ensures Readable(d) <==>
            Acceptable(d.key, d.value) && (d.key != "" ==> Readable(d.value.entries)) && Readable(d.rest)
  {
    hide Visited, Lookup, ParseInfo;
    if Readable(d) {
      VisitedFirst(d, [d.key]);
      LookupFirst(d, [d.key]);
      BelowReadable(d);
      RestReadable(d);
    }
    if Acceptable(d.key, d.value) && (d.key != "" ==> Readable(d.value.entries)) && Readable(d.rest) {
      AllReadable(d);
    }
  }

  lemma BelowReadable(d: Dict)
    requires Sorted(d) && d.Cons? && Readable(d)
    ensures d.key != "" && d.value.BDict? ==> Readable(d.value.entries)
  {
    hide Acceptable, Lookup;
    if d.key != "" && d.value.BDict? {
      forall path | Visited(d.value.entries, path)
        ensures Acceptable(path[|path| - 1], Lookup(d.value.entries, path).value)
      {
        var whole := [d.key] + path;
        assert whole[1..] == path && whole[|whole| - 1] == path[|path| - 1];
        VisitedFirst(d, whole);
        LookupFirst(d, whole);
      }
    }
  }

  lemma RestReadable(d: Dict)
    requires Sorted(d) && d.Cons? && Readable(d)
    ensures Readable(d.rest)
  {
    hide Acceptable, Lookup;
    forall path | Visited(d.rest, path)
      ensures Acceptable(path[|path| - 1], Lookup(d.rest, path).value)
    {
      VisitedFirst(d, path);
      LookupFirst(d, path);
    }
  }

  lemma AllReadable(d: Dict)
    requires Sorted(d) && d.Cons? && Acceptable(d.key, d.value) && Readable(d.rest)
    requires d.key != "" ==> Readable(d.value.entries)
    ensures Readable(d)
  {
    hide Acceptable, Lookup;
    forall path | Visited(d, path)
      ensures Acceptable(path[|path| - 1], Lookup(d, path).value)
    {
      VisitedFirst(d, path);
      LookupFirst(d, path);
    }
  }

  lemma HasFileFirst(d: Dict, path: seq<string>, info: Info)
    requires Sorted(d) && d.Cons? && Acceptable(d.key, d.value)
    ensures HasFile(d, path, info) <==>
            HasFile(d.rest, path, info)
            || (if d.key == "" then path == [] && ParseInfo(d.value) == Ok(info)
                else path != [] && path[0] == d.key && HasFile(d.value.entries, path[1..], info))
  {
    hide Lookup, ParseInfo, Sorted, Visited;
    var whole := path + [""];
    VisitedFirst(d, whole);
    LookupFirst(d, whole);
    NotVisited(d.rest, whole);
    if path == [] {
      assert whole == [""];
    } else {
      assert whole[0] == path[0] && whole[1..] == path[1..] + [""];
    }
  }

  lemma NotVisited(d: Dict, path: seq<string>)
    ensures Visited(d, path) ==> path != [] && Lookup(d, path) != None
  {
  }

  // ---- The whole tree ------------------------------------------------------------------------------------------

  /** The reader's entries at `path`: the files of the dictionary, each below that path. */
  ghost predicate Delivers(es: seq<Entry>, d: Dict, path: seq<string>) {
    forall e :: e in es <==> path <= e.path && HasFile(d, e.path[|path|..], e.info)
  }

  lemma {:induction false} WalkExactly(d: Dict, path: seq<string>)
    requires SortedTree(d)
    ensures Walk(d, path).Ok? <==> Readable(d)
    ensures Walk(d, path).Ok? ==> Delivers(Walk(d, path).value, d, path)
    decreases d
  {
    hide Readable, Acceptable, HasFile, Delivers, ParseInfo;
    match d
    case Nil => NothingThere(path);
    case Cons(key, value, rest) =>
      WalkExactly(rest, path);
      if key != "" && value.BDict? {
        WalkExactly(value.entries, path + [key]);
      }
      ReadableFirst(d);
      KeyAccepted(key, value);
      if Readable(d) {
        DeliversFirst(d, path);
      }
  }

  lemma KeyAccepted(key: string, value: BValue)
    ensures Acceptable(key, value) ==> value.BDict? && (key == "" ==> ParseInfo(value).Ok?)
    ensures !Acceptable(key, value) ==> !value.BDict? || (key == "" && ParseInfo(value).Error?)
  {
  }

  lemma NothingThere(path: seq<string>)
    ensures Readable(Nil) && Delivers([], Nil, path)
  {
  }

  lemma DeliversFirst(d: Dict, path: seq<string>)
    requires d.Cons? && Sorted(d) && Acceptable(d.key, d.value)
    requires Walk(d, path).Ok? && Walk(d.rest, path).Ok? && Delivers(Walk(d.rest, path).value, d.rest, path)
    requires d.key != "" ==>
               var below := Walk(d.value.entries, path + [d.key]);
               below.Ok? && Delivers(below.value, d.value.entries, path + [d.key])
    ensures Delivers(Walk(d, path).value, d, path)
  {
    var first, rest := WalkKey(d.key, d.value, path).value, Walk(d.rest, path).value;
    forall e: Entry
      ensures e in first + rest <==> path <= e.path && HasFile(d, e.path[|path|..], e.info)
    {
      FirstDelivers(d, path, e);
      hide HasFile, Walk, WalkKey, ParseInfo, Acceptable;
      if path <= e.path {
        HasFileFirst(d, e.path[|path|..], e.info);
      }
    }
  }

  lemma FirstDelivers(d: Dict, path: seq<string>, e: Entry)
    requires d.Cons? && Acceptable(d.key, d.value)
    requires d.key != "" ==>
               var below := Walk(d.value.entries, path + [d.key]);
               below.Ok? && Delivers(below.value, d.value.entries, path + [d.key])
    ensures WalkKey(d.key, d.value, path).Ok?
    ensures e in WalkKey(d.key, d.value, path).value <==>
            path <= e.path
            && var p := e.path[|path|..];
               if d.key == "" then p == [] && ParseInfo(d.value) == Ok(e.info)
               else p != [] && p[0] == d.key && HasFile(d.value.entries, p[1..], e.info)
  {
    hide HasFile, Walk, ParseInfo;
    if d.key != "" {
      var below := path + [d.key];
      if path <= e.path && |e.path| > |path| && e.path[|path|] == d.key {
        assert e.path[..|below|] == below && e.path[|path|..][1..] == e.path[|below|..];
      }
      if below <= e.path {
        assert path <= below && e.path[|path|] == below[|path|] == d.key;
        assert e.path[|path|..][1..] == e.path[|below|..];
      }
    } else if path <= e.path && e.path[|path|..] == [] {
      assert e.path == path;
    }
  }

  /** What can be read is a tree, and its files come in path order. */
  lemma {:induction false} ReadableIsTree(d: Dict)
    requires SortedTree(d) && Readable(d)
    ensures IsTree(d)
    decreases d
  {
    hide Readable, Acceptable, ParseInfo;
    if d.Cons? {
      ReadableFirst(d);
      KeyAccepted(d.key, d.value);
      ReadableIsTree(d.rest);
      if d.key != "" {
        ReadableIsTree(d.value.entries);
      }
    }
  }

  lemma {:induction false} WalkInOrder(d: Dict, path: seq<string>)
    requires IsTree(d)
    ensures Walk(d, path).Ok? && StrictlySorted(Walk(d, path).value)
    decreases d
  {
    if d.Cons? {
      WalkInOrder(d.rest, path);
      WalkGoesBeyond(d.rest, path, d.key);
      var below, rest := path + [d.key], Walk(d.rest, path).value;
      if d.key == "" {
        BeyondIsAfter(path, "", path, rest);
      } else {
        WalkInOrder(d.value.entries, below);
        WalkStaysBelow(d.value.entries, below);
        var es := Walk(d.value.entries, below).value;
        forall e | e in es ensures AllAfter(e.path, rest) {
          BeyondIsAfter(path, d.key, e.path, rest);
        }
      }
    }
  }

  /**
   * Reading any tree of sorted dictionaries: it fails exactly when a place it comes to holds no dictionary, or, under
   * an empty key, not that of a file. Otherwise the entries are exactly the files of the tree, each once, in path
   * order.
   */
  lemma ReadExactly(tree: Dict)
    requires SortedTree(tree)
    ensures Walk(tree, []).Ok? <==> Readable(tree)
    ensures Walk(tree, []).Ok? ==>
              && (forall e :: e in Walk(tree, []).value <==> HasFile(tree, e.path, e.info))
              && StrictlySorted(Walk(tree, []).value)
  {
    WalkExactly(tree, []);
    hide Walk, HasFile, Readable, StrictlySorted;
    if Readable(tree) {
      ReadableIsTree(tree);
      WalkInOrder(tree, []);
      forall e ensures e in Walk(tree, []).value <==> HasFile(tree, e.path, e.info) {
        assert e.path[0..] == e.path;
      }
    }
  }
}
