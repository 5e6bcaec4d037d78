/**
 * The v2 file tree: nested dictionaries built by src/metafile_serialization.cpp:92-135 and read back by the explicit
 * stack of src/metafile_parsing.cpp:539-593.
 */
module FileTree {
  import opened Options
  import opened Ordering

  // ---- Values ------------------------------------------------------------------------------------------------

  datatype BValue = BInteger(n: int) | BString(s: string) | BDict(entries: Dict)

  /** A dictionary in iteration order. */
  datatype Dict = Nil | Cons(key: string, value: BValue, rest: Dict)

  datatype Result<T> = Ok(value: T) | Error

  function Find(d: Dict, key: string): Option<BValue> {
    match d
    case Nil => None
    case Cons(k, v, rest) => if k == key then Some(v) else Find(rest, key)
  }

  function InsertOrAssign(d: Dict, key: string, value: BValue): Dict {
    match d
    case Nil => Cons(key, value, Nil)
    case Cons(k, v, rest) =>
      if key == k then Cons(k, value, rest)
      else if Less(key, k) then Cons(key, value, d)
      else Cons(k, v, InsertOrAssign(rest, key, value))
  }

  /** Keys ascend, so each occurs once. */
  ghost predicate Sorted(d: Dict) {
    d.Cons? ==> Sorted(d.rest) && (d.rest.Cons? ==> Less(d.key, d.rest.key))
  }

  lemma {:induction false} SortedBelow(d: Dict, key: string)
    requires Sorted(d) && (d.Cons? ==> Less(key, d.key))
    ensures Find(d, key) == None
  {
    if d.Cons? {
      LessAsymmetric(key, d.key);
      if d.rest.Cons? {
        LessTransitive(key, d.key, d.rest.key);
      }
      SortedBelow(d.rest, key);
    }
  }

  /** `insert_or_assign` changes one key and keeps the order. */
  lemma {:induction false} InsertFinds(d: Dict, key: string, value: BValue, other: string)
    requires Sorted(d)
    ensures Sorted(InsertOrAssign(d, key, value))
    ensures Find(InsertOrAssign(d, key, value), other) == if other == key then Some(value) else Find(d, other)
    ensures InsertOrAssign(d, key, value).key == key || (d.Cons? && InsertOrAssign(d, key, value).key == d.key)
  {
    if d.Cons? && key != d.key {
      LessTotal(key, d.key);
      if Less(key, d.key) {
        SortedBelow(d, key);
      } else {
        InsertFinds(d.rest, key, value, other);
      }
    }
  }

  // ---- File entries ------------------------------------------------------------------------------------------

  datatype Attributes = Attributes(symlink: bool, executable: bool, hidden: bool, padding: bool)

  function PushIf(s: string, flag: bool, c: char): string {
    if flag then s + [c] else s
  }

  function AttributesToString(a: Attributes): string {
    PushIf(PushIf(PushIf(PushIf("", a.executable, 'x'), a.symlink, 'l'), a.hidden, 'h'), a.padding, 'p')
  }

  function WithLetter(a: Attributes, c: char): Result<Attributes> {
    match c
    case 'l' => Ok(a.(symlink := true))
    case 'x' => Ok(a.(executable := true))
    case 'h' => Ok(a.(hidden := true))
    case 'p' => Ok(a.(padding := true))
    case _ => Error
  }

  /** The letters in order; an unknown letter is an error. */
  function MakeAttributes(s: string): Result<Attributes> {
    if s == [] then Ok(Attributes(false, false, false, false))
    else match MakeAttributes(s[..|s| - 1])
         case Error => Error
         case Ok(a) => WithLetter(a, s[|s| - 1])
  }

  lemma MakePushed(s: string, flag: bool, c: char)
    requires MakeAttributes(s).Ok?
    ensures MakeAttributes(PushIf(s, flag, c)) ==
            if flag then WithLetter(MakeAttributes(s).value, c) else MakeAttributes(s)
  {
    assert (s + [c])[..|s|] == s;
  }

  lemma AttributesRoundTrip(a: Attributes)
    ensures MakeAttributes(AttributesToString(a)) == Ok(a)
  {
    assert MakeAttributes("") == Ok(Attributes(false, false, false, false));
    hide MakeAttributes, PushIf;
    var x := PushIf("", a.executable, 'x');
    var l := PushIf(x, a.symlink, 'l');
    var h := PushIf(l, a.hidden, 'h');
    MakePushed("", a.executable, 'x');
    MakePushed(x, a.symlink, 'l');
    MakePushed(l, a.hidden, 'h');
    MakePushed(h, a.padding, 'p');
  }

  /** Each attribute is one letter, and nothing else is written. */
  lemma AttributeLetters(a: Attributes)
    ensures var s := AttributesToString(a);
            && ('x' in s <==> a.executable) && ('l' in s <==> a.symlink) && ('h' in s <==> a.hidden)
            && ('p' in s <==> a.padding) && (forall c :: c in s ==> c in "xlhp")
            && forall i, j :: 0 <= i < j < |s| ==> s[i] != s[j]
  {
  }

  /** Letters are read in any order and number; one that is no attribute is the only error. */
  lemma {:induction false} LettersRead(s: string)
    ensures MakeAttributes(s).Ok? <==> forall c :: c in s ==> c in "xlhp"
    ensures MakeAttributes(s).Ok? ==>
              MakeAttributes(s).value == Attributes('l' in s, 'x' in s, 'h' in s, 'p' in s)
  {
    if s != [] {
      var init, last := s[..|s| - 1], s[|s| - 1];
      LettersRead(init);
      assert s == init + [last] && last in s;
      LetterRead(last);
      hide WithLetter;
      if MakeAttributes(s).Ok? {
        forall c | c in s ensures c in "xlhp" {
          assert c in init || c == last;
        }
      }
    }
  }

  lemma LetterRead(c: char)
    ensures forall a :: WithLetter(a, c) ==
              if c in "xlhp"
              then Ok(Attributes(a.symlink || c == 'l', a.executable || c == 'x', a.hidden || c == 'h',
                                 a.padding || c == 'p'))
              else Error
  {
  }

  /** What a file of a v2 storage carries besides its path. */
  datatype Info = Info(length: nat, attributes: Option<Attributes>, piecesRoot: Option<string>)

  datatype Entry = Entry(path: seq<string>, info: Info)

  const DIGEST_SIZE: nat := 32
  const TWO_TO_THE_64: nat := 0x1_0000_0000_0000_0000

  /** Sizes are 64 bit, a pieces root is 32 bytes, and every non-empty file has been hashed. */
  ghost predicate ValidInfo(info: Info) {
    && info.length < TWO_TO_THE_64
    && (info.length != 0 ==> info.piecesRoot.Some?)
    && (info.piecesRoot.Some? ==> |info.piecesRoot.value| == DIGEST_SIZE)
  }

  /** The dictionary of a file; an empty file has no pieces root in it. */
  function FormatInfo(info: Info): BValue
    requires info.length != 0 ==> info.piecesRoot.Some?
  {
    var d0 :=
      if info.attributes.Some? then InsertOrAssign(Nil, "attr", BString(AttributesToString(info.attributes.value)))
      else Nil;
    var d1 := InsertOrAssign(d0, "length", BInteger(info.length));
    BDict(if info.length != 0 then InsertOrAssign(d1, "pieces root", BString(info.piecesRoot.value)) else d1)
  }

  function ParseRoot(root: Option<BValue>, length: nat): Result<Option<string>> {
    match root
    case None => if length > 0 then Error else Ok(None)
    case Some(BString(s)) => if |s| == DIGEST_SIZE then Ok(Some(s)) else Error
    case _ => Error
  }

  /** An entry marked as a symbolic link needs a target, which a dictionary without one cannot give. */
  function ParseAttributes(attr: Option<BValue>): Result<Option<Attributes>> {
    match attr
    case None => Ok(None)
    case Some(BString(s)) =>
      (match MakeAttributes(s)
       case Error => Error
       case Ok(a) => if a.symlink then Error else Ok(Some(a)))
    case _ => Error
  }

  function ParseFields(length: Option<BValue>, root: Option<BValue>, attr: Option<BValue>): Result<Info> {
    if length.None? || !length.value.BInteger? then Error
    else
      var size := length.value.n % TWO_TO_THE_64;
      match (ParseRoot(root, size), ParseAttributes(attr))
      case (Ok(r), Ok(a)) => Ok(Info(size, a, r))
      case _ => Error
  }

  /** `parse_file_entry_v2` */
  function ParseInfo(value: BValue): Result<Info> {
    if !value.BDict? then Error
    else ParseFields(Find(value.entries, "length"), Find(value.entries, "pieces root"), Find(value.entries, "attr"))
  }

  ghost predicate ReadableRoot(root: Option<BValue>, size: nat) {
    if root.None? then size == 0 else root.value.BString? && |root.value.s| == DIGEST_SIZE
  }

  ghost predicate ReadableLetters(attr: Option<BValue>) {
    attr.Some? ==> attr.value.BString? && forall c :: c in attr.value.s ==> c in "xhp"
  }

  /**
   * When a file dictionary is read: it has an integer length, a pieces root of 32 bytes or, for size 0, none, and at
   * most the letters of attributes other than that of a symbolic link. The size is the length modulo 2^64.
   */
  lemma ParseInfoExactly(d: Dict)
    ensures var length, root, attr := Find(d, "length"), Find(d, "pieces root"), Find(d, "attr");
            && (ParseInfo(BDict(d)).Ok? <==>
                  && length.Some? && length.value.BInteger?
                  && ReadableRoot(root, length.value.n % TWO_TO_THE_64) && ReadableLetters(attr))
            && (ParseInfo(BDict(d)).Ok? ==>
                  var info := ParseInfo(BDict(d)).value;
                  && info.length == length.value.n % TWO_TO_THE_64
                  && (info.piecesRoot == if root.None? then None else Some(root.value.s))
                  && (info.attributes.Some? <==> attr.Some?)
                  && (attr.Some? ==>
                        var s := attr.value.s;
                        info.attributes.value == Attributes(false, 'x' in s, 'h' in s, 'p' in s)))
  {
    var attr := Find(d, "attr");
    hide Find, MakeAttributes;
    if attr.Some? && attr.value.BString? {
      LettersRead(attr.value.s);
    }
  }

  /** What survives: everything but the pieces root of an empty file. */
  function Stored(info: Info): Info {
    if info.length == 0 then info.(piecesRoot := None) else info
  }

  ghost predicate IsSymlink(info: Info) {
    info.attributes.Some? && info.attributes.value.symlink
  }

  /** The three fields of a file dictionary are what was put in. */
  lemma FormatFinds(info: Info)
    requires info.length != 0 ==> info.piecesRoot.Some?
    ensures FormatInfo(info).BDict?
    ensures Find(FormatInfo(info).entries, "length") == Some(BInteger(info.length))
    ensures Find(FormatInfo(info).entries, "pieces root") ==
            if info.length == 0 then None else Some(BString(info.piecesRoot.value))
    ensures Find(FormatInfo(info).entries, "attr") ==
            if info.attributes.None? then None else Some(BString(AttributesToString(info.attributes.value)))
  {
    assert Sorted(Nil);
    assert forall k: string :: Find(Nil, k) == None;
    var a := if info.attributes.Some? then BString(AttributesToString(info.attributes.value)) else BInteger(0);
    hide InsertOrAssign, Find, Sorted, AttributesToString;
    var d0 := if info.attributes.Some? then InsertOrAssign(Nil, "attr", a) else Nil;
    InsertFinds(Nil, "attr", a, "attr");
    forall k: string ensures Find(d0, k) == if info.attributes.Some? && k == "attr" then Some(a) else None {
      InsertFinds(Nil, "attr", a, k);
    }
    var d1 := InsertOrAssign(d0, "length", BInteger(info.length));
    InsertFinds(d0, "length", BInteger(info.length), "length");
    forall k: string ensures Find(d1, k) == if k == "length" then Some(BInteger(info.length)) else Find(d0, k) {
      InsertFinds(d0, "length", BInteger(info.length), k);
    }
    if info.length != 0 {
      forall k: string
        ensures Find(FormatInfo(info).entries, k)
             == if k == "pieces root" then Some(BString(info.piecesRoot.value)) else Find(d1, k)
      {
        InsertFinds(d1, "pieces root", BString(info.piecesRoot.value), k);
      }
    }
  }

  /** A file dictionary reads back as the file it was made of, unless the file is a symbolic link. */
  lemma InfoRoundTrip(info: Info)
    requires ValidInfo(info)
    ensures ParseInfo(FormatInfo(info)) == if IsSymlink(info) then Error else Ok(Stored(info))
  {
    FormatFinds(info);
    hide FormatInfo, AttributesToString, MakeAttributes, Find;
    if info.attributes.Some? {
      AttributesRoundTrip(info.attributes.value);
    }
  }

  // ---- Building the tree ---------------------------------------------------------------------------------------

  /** The dictionary below a component, which is created when there is none. */
  function Child(d: Dict, component: string): Dict {
    match Find(d, component)
    case Some(BDict(entries)) => entries
    case _ => Nil
  }

  /** Walks down the components, creating dictionaries, and stores the file under the empty key. */
  function InsertFile(d: Dict, path: seq<string>, info: Info): Dict
    requires info.length != 0 ==> info.piecesRoot.Some?
    decreases |path|
  {
    if path == [] then InsertOrAssign(d, "", FormatInfo(info))
    else InsertOrAssign(d, path[0], BDict(InsertFile(Child(d, path[0]), path[1..], info)))
  }

  /** The components of a relative path are non-empty, and a file without a symbolic-link mark can be read back. */
  ghost predicate ValidEntry(e: Entry) {
    ValidInfo(e.info) && !IsSymlink(e.info) && "" !in e.path
  }

  ghost predicate ValidEntries(files: seq<Entry>) {
    forall k :: 0 <= k < |files| ==> ValidEntry(files[k])
  }

  function BuildTree(files: seq<Entry>): Dict
    requires forall k :: 0 <= k < |files| ==> files[k].info.length != 0 ==> files[k].info.piecesRoot.Some?
  {
    if files == [] then Nil
    else InsertFile(BuildTree(files[..|files| - 1]), files[|files| - 1].path, files[|files| - 1].info)
  }

  // ---- Reading the tree ----------------------------------------------------------------------------------------

  function Append<T>(a: Result<seq<T>>, b: Result<seq<T>>): Result<seq<T>> {
    if a.Ok? && b.Ok? then Ok(a.value + b.value) else Error
  }

  /** The files below one key of the dictionary at `path`. */
  function WalkKey(key: string, value: BValue, path: seq<string>): Result<seq<Entry>>
    decreases value, 1
  {
    if !value.BDict? then Error
    else if key == "" then
      (match ParseInfo(value)
       case Error => Error
       case Ok(info) => Ok([Entry(path, info)]))
    else Walk(value.entries, path + [key])
  }

  /** The recursive depth-first traversal. */
  function Walk(d: Dict, path: seq<string>): Result<seq<Entry>>
    decreases d, 0
  {
    match d
    case Nil => Ok([])
    case Cons(key, value, rest) => Append(WalkKey(key, value, path), Walk(rest, path))
  }

  // ---- The explicit stack --------------------------------------------------------------------------------------

  /** Nodes not visited yet. */
  ghost function Size(d: Dict): nat
    decreases d
  {
    match d
    case Nil => 0
    case Cons(_, value, rest) => 1 + (if value.BDict? then 1 + Size(value.entries) else 0) + Size(rest)
  }

  ghost function Weight(frames: seq<Dict>): nat {
    if frames == [] then 0 else Weight(frames[..|frames| - 1]) + 1 + Size(frames[|frames| - 1])
  }

  /** What the frames still have to deliver, the top one first; components[..k + 1] names the dictionary of frame k. */
  ghost function Pending(frames: seq<Dict>, components: seq<string>): Result<seq<Entry>>
    requires |frames| == |components|
    decreases |frames|
  {
    if frames == [] then Ok([])
    else
      var k := |frames| - 1;
      Append(Walk(frames[k], components[1..]), Pending(frames[..k], components[..k]))
  }

  lemma AppendAssociative<T>(a: Result<seq<T>>, b: Result<seq<T>>, c: Result<seq<T>>)
    ensures Append(Append(a, b), c) == Append(a, Append(b, c))
  {
    if a.Ok? && b.Ok? && c.Ok? {
      assert (a.value + b.value) + c.value == a.value + (b.value + c.value);
    }
  }

  lemma PendingTop(frames: seq<Dict>, components: seq<string>, top: Dict, name: string)
    requires |frames| == |components|
    ensures Pending(frames + [top], components + [name]) ==
            Append(Walk(top, (components + [name])[1..]), Pending(frames, components))
    ensures Weight(frames + [top]) == Weight(frames) + 1 + Size(top)
  {
    assert (frames + [top])[..|frames|] == frames && (components + [name])[..|frames|] == components;
  }

  /** Taking one entry off the top frame leaves the same work: first what is below its key, then the rest. */
  lemma PendingKey(frames: seq<Dict>, components: seq<string>, top: Dict, name: string)
    requires |frames| == |components| && top.Cons?
    ensures Pending(frames + [top], components + [name]) ==
            Append(WalkKey(top.key, top.value, (components + [name])[1..]),
                   Pending(frames + [top.rest], components + [name]))
  {
    PendingTop(frames, components, top, name);
    PendingTop(frames, components, top.rest, name);
    var path := (components + [name])[1..];
    AppendAssociative(WalkKey(top.key, top.value, path), Walk(top.rest, path), Pending(frames, components));
  }

  /** The stack has as many frames as components, and delivered plus pending files are the recursive traversal. */
  ghost predicate OnTrack(tree: Dict, frames: seq<Dict>, components: seq<string>, out: seq<Entry>) {
    |frames| == |components| && Append(Ok(out), Pending(frames, components)) == Walk(tree, [])
  }

  lemma StartOnTrack(tree: Dict)
    ensures OnTrack(tree, [tree], ["/"], [])
  {
    PendingTop([], [], tree, "/");
    assert [] + [tree] == [tree] && [] + ["/"] == ["/"] && ["/"][1..] == [];
    assert Pending([], []) == Ok([]);
    if Walk(tree, []).Ok? {
      assert [] + (Walk(tree, []).value + []) == Walk(tree, []).value;
    }
  }

  lemma PopOnTrack(tree: Dict, frames: seq<Dict>, components: seq<string>, out: seq<Entry>)
    requires OnTrack(tree, frames, components, out) && frames != [] && frames[|frames| - 1] == Nil
    ensures OnTrack(tree, frames[..|frames| - 1], components[..|frames| - 1], out)
    ensures Weight(frames[..|frames| - 1]) < Weight(frames)
  {
    var pending := Pending(frames[..|frames| - 1], components[..|frames| - 1]);
    if pending.Ok? {
      assert [] + pending.value == pending.value;
    }
  }

  /** The state after the top frame moved past its first key. */
  lemma AdvanceOnTrack(tree: Dict, frames: seq<Dict>, components: seq<string>, out: seq<Entry>)
    requires OnTrack(tree, frames, components, out) && frames != [] && frames[|frames| - 1].Cons?
    ensures var k := |frames| - 1;
            var next := frames[..k] + [frames[k].rest];
            && Append(Append(Ok(out), WalkKey(frames[k].key, frames[k].value, components[1..])),
                      Pending(next, components))
               == Walk(tree, [])
            && Weight(frames) == Weight(next) + 1
               + if frames[k].value.BDict? then 1 + Size(frames[k].value.entries) else 0
  {
    var k := |frames| - 1;
    var top := frames[k];
    assert frames == frames[..k] + [top] && components == components[..k] + [components[k]];
    PendingKey(frames[..k], components[..k], top, components[k]);
    PendingTop(frames[..k], components[..k], top, components[k]);
    PendingTop(frames[..k], components[..k], top.rest, components[k]);
    AppendAssociative(Ok(out), WalkKey(top.key, top.value, components[1..]),
                      Pending(frames[..k] + [top.rest], components));
  }

  lemma PushOnTrack(tree: Dict, frames: seq<Dict>, components: seq<string>, out: seq<Entry>, key: string, entries: Dict)
    requires |frames| == |components| > 0 && key != ""
    requires Append(Append(Ok(out), WalkKey(key, BDict(entries), components[1..])), Pending(frames, components))
               == Walk(tree, [])
    ensures OnTrack(tree, frames + [entries], components + [key], out)
    ensures Weight(frames + [entries]) == Weight(frames) + 1 + Size(entries)
  {
    PendingTop(frames, components, entries, key);
    assert (components + [key])[1..] == components[1..] + [key];
    AppendAssociative(Ok(out), WalkKey(key, BDict(entries), components[1..]), Pending(frames, components));
  }

  /** `parse_file_tree_v2`: the stack machine is the recursive traversal, on every tree and with the same failures. */
  method WalkWithStack(tree: Dict) returns (result: Result<seq<Entry>>)
    ensures result == Walk(tree, [])
  {
    hide Pending, Weight, Walk, Size, ParseInfo;
    var frames := [tree];
    var components := ["/"];
    var out: seq<Entry> := [];
    StartOnTrack(tree);
    while frames != []
      invariant OnTrack(tree, frames, components, out)
      decreases Weight(frames)
    {
      var k := |frames| - 1;
      var top := frames[k];
      if top.Cons? {
        AdvanceOnTrack(tree, frames, components, out);
        frames := frames[..k] + [top.rest];
        if !top.value.BDict? {
          return Error;
        }
        if top.key == "" {
          var info := ParseInfo(top.value);
          if info.Error? {
            return Error;
          }
          out := out + [Entry(components[1..], info.value)];
        } else {
          PushOnTrack(tree, frames, components, out, top.key, top.value.entries);
          frames := frames + [top.value.entries];
          components := components + [top.key];
        }
      } else {
        PopOnTrack(tree, frames, components, out);
        frames, components := frames[..k], components[..k];
      }
    }
    NothingPending(tree, frames, components, out);
    return Ok(out);
  }

  lemma NothingPending(tree: Dict, frames: seq<Dict>, components: seq<string>, out: seq<Entry>)
    requires OnTrack(tree, frames, components, out) && frames == []
    ensures Walk(tree, []) == Ok(out)
  {
    assert out + [] == out;
  }
}
