/**
 * The files of a hybrid metafile: a v1 list with padding files and a v2 tree without them, written side by side
 * (src/metafile_serialization.cpp:165-235) and joined again when read (src/metafile_parsing.cpp:608-630).
 */
module HybridFiles {
  import opened Options
  import opened FileTree
  import opened FileTreeRoundTrip

  predicate IsPadding(e: Entry) {
    e.info.attributes.Some? && e.info.attributes.value.padding
  }

  /** The files the tree is built of. */
  function Regular(files: seq<Entry>): seq<Entry> {
    if files == [] then []
    else Regular(files[..|files| - 1]) + if IsPadding(files[|files| - 1]) then [] else [files[|files| - 1]]
  }

  /** What the v1 list says of a file: everything but its pieces root. */
  function V1Entry(e: Entry): Entry {
    Entry(e.path, e.info.(piecesRoot := None))
  }

  function V1List(files: seq<Entry>): seq<Entry> {
    seq(|files|, i requires 0 <= i < |files| => V1Entry(files[i]))
  }

  function FindPath(list: seq<Entry>, path: seq<string>): (k: nat)
    ensures k <= |list| && (k < |list| ==> list[k].path == path)
    ensures forall i :: 0 <= i < k ==> list[i].path != path
    ensures k == |list| ==> forall e :: e in list ==> e.path != path
  {
    if list == [] || list[0].path == path then 0 else 1 + FindPath(list[1..], path)
  }

  /** Gives the listed file its root; an empty file has none, and None is a path the list does not have. */
  function Attach(list: seq<Entry>, e: Entry): Option<seq<Entry>> {
    var k := FindPath(list, e.path);
    if e.info.length == 0 then Some(list)
    else if k == |list| then None
    else Some(list[k := Entry(list[k].path, list[k].info.(piecesRoot := e.info.piecesRoot))])
  }

  function AttachAll(list: seq<Entry>, es: seq<Entry>): Option<seq<Entry>> {
    if es == [] then Some(list)
    else match AttachAll(list, es[..|es| - 1])
         case None => None
         case Some(before) => Attach(before, es[|es| - 1])
  }

  /** What reading gives for a list and a tree. */
  function Joined(list: seq<Entry>, tree: Dict): Result<seq<Entry>> {
    match Walk(tree, [])
    case Error => Error
    case Ok(es) => (match AttachAll(list, es) case None => Error case Some(r) => Ok(r))
  }

  lemma {:induction false} AttachFails(list: seq<Entry>, es: seq<Entry>, n: nat)
    requires n <= |es| && AttachAll(list, es[..n]).None?
    ensures AttachAll(list, es).None?
    decreases |es|
  {
    if n < |es| {
      assert es[..|es| - 1][..n] == es[..n];
      AttachFails(list, es[..|es| - 1], n);
    } else {
      assert es[..n] == es;
    }
  }

  /** The listed file that a tree entry is for: the first with its path. An empty entry is for none. */
  ghost predicate IsFor(e: Entry, list: seq<Entry>, i: nat) {
    && e.info.length != 0 && i < |list| && list[i].path == e.path
    && forall j: nat :: j < i ==> list[j].path != e.path
  }

  /** A list after some entries: each file as it was but for its root, which is that of the last entry for it. */
  ghost predicate Attached(list: seq<Entry>, es: seq<Entry>, after: seq<Entry>, i: nat)
    requires i < |list| == |after|
  {
    && after[i].path == list[i].path
    && after[i].info.length == list[i].info.length && after[i].info.attributes == list[i].info.attributes
    && (if forall k: nat :: k < |es| ==> !IsFor(es[k], list, i) then after[i] == list[i]
        else exists k: nat :: LastFor(list, es, i, k) && after[i].info.piecesRoot == es[k].info.piecesRoot)
  }

  ghost predicate LastFor(list: seq<Entry>, es: seq<Entry>, i: nat, k: nat) {
    k < |es| && IsFor(es[k], list, i) && forall l: nat :: k < l < |es| ==> !IsFor(es[l], list, i)
  }

  ghost predicate Listed(list: seq<Entry>, e: Entry) {
    e.info.length == 0 || exists f :: f in list && f.path == e.path
  }

  /**
   * Attaching fails exactly when an entry that is not empty has a path that is not listed. Otherwise only roots change:
   * each listed file gets that of the last entry for it, and keeps its path, length and attributes.
   */
  lemma {:induction false} AttachedExactly(list: seq<Entry>, es: seq<Entry>)
    ensures AttachAll(list, es).Some? <==> forall e :: e in es ==> Listed(list, e)
    ensures AttachAll(list, es).Some? ==>
              var after := AttachAll(list, es).value;
              |after| == |list| && forall i: nat :: i < |list| ==> Attached(list, es, after, i)
  {
    if es != [] {
      var n := |es| - 1;
      hide Attach, Attached, Listed;
      AttachedExactly(list, es[..n]);
      assert es == es[..n] + [es[n]];
      if AttachAll(list, es[..n]).Some? {
        AttachedNext(list, es[..n], AttachAll(list, es[..n]).value, es[n]);
      }
    }
  }

  lemma AttachedNext(list: seq<Entry>, es: seq<Entry>, before: seq<Entry>, e: Entry)
    requires |before| == |list| && forall i: nat :: i < |list| ==> Attached(list, es, before, i)
    ensures Attach(before, e).Some? <==> Listed(list, e)
    ensures Attach(before, e).Some? ==>
              var after := Attach(before, e).value;
              |after| == |list| && forall i: nat :: i < |list| ==> Attached(list, es + [e], after, i)
  {
    SamePlace(list, es, before, e);
    hide Listed, FindPath;
    if Attach(before, e).Some? {
      var after := Attach(before, e).value;
      forall i: nat | i < |list|
        ensures Attached(list, es + [e], after, i)
      {
        assert Attached(list, es, before, i);
        AttachedAt(list, es, e, before, after, i);
      }
    }
  }

  lemma SamePlace(list: seq<Entry>, es: seq<Entry>, before: seq<Entry>, e: Entry)
    requires |before| == |list| && forall i: nat :: i < |list| ==> Attached(list, es, before, i)
    ensures Attach(before, e).Some? <==> Listed(list, e)
    ensures FindPath(before, e.path) == FindPath(list, e.path)
  {
    var k := FindPath(before, e.path);
    forall i: nat | i < |list| ensures before[i].path == list[i].path {
      assert Attached(list, es, before, i);
    }
    if k < |list| {
      assert list[k] in list;
    }
  }

  lemma AttachedAt(list: seq<Entry>, es: seq<Entry>, e: Entry, before: seq<Entry>, after: seq<Entry>, i: nat)
    requires i < |list| == |before| == |after| && Attached(list, es, before, i)
    requires after[i].path == before[i].path
    requires after[i].info == if IsFor(e, list, i) then before[i].info.(piecesRoot := e.info.piecesRoot)
             else before[i].info
    ensures Attached(list, es + [e], after, i)
  {
    var all := es + [e];
    assert forall k: nat :: k < |es| ==> all[k] == es[k];
    hide IsFor;
    if IsFor(e, list, i) {
      assert all[|es|] == e && LastFor(list, all, i, |es|);
    } else if !(forall k: nat :: k < |es| ==> !IsFor(es[k], list, i)) {
      var k: nat :| LastFor(list, es, i, k) && before[i].info.piecesRoot == es[k].info.piecesRoot;
      assert LastFor(list, all, i, k);
    } else {
      assert all[|es|] == e;
    }
  }

  /** `parse_file_list_and_tree_hybrid`, given the v1 list */
  method ParseFileListAndTree(list: seq<Entry>, tree: Dict) returns (files: Result<seq<Entry>>)
    ensures files == Joined(list, tree)
  {
    var entries := WalkWithStack(tree);
    if entries.Error? {
      return Error;
    }
    var es := entries.value;
    var out := list;
    for i := 0 to |es|
      invariant AttachAll(list, es[..i]) == Some(out)
    {
      assert es[..i + 1][..i] == es[..i];
      var it := FindPath(out, es[i].path);
      if es[i].info.length > 0 {
        if it == |out| {
          AttachFails(list, es, i + 1);
          return Error;
        }
        out := out[it := Entry(out[it].path, out[it].info.(piecesRoot := es[i].info.piecesRoot))];
      }
    }
    assert es[..|es|] == es;
    return Ok(out);
  }

  // ---- The round trip ------------------------------------------------------------------------------------------

  /** No other file, padding included, has the path of a regular file. */
  ghost predicate OwnPaths(files: seq<Entry>) {
    forall i, j :: 0 <= i < |files| && 0 <= j < |files| && i != j && !IsPadding(files[i]) ==>
      files[i].path != files[j].path
  }

  /** A file as it comes back: regular files as the tree stores them, padding files as the list has them. */
  function ReadBack(e: Entry): Entry {
    if IsPadding(e) then V1Entry(e) else StoredEntry(e)
  }

  function AllReadBack(files: seq<Entry>): seq<Entry> {
    seq(|files|, i requires 0 <= i < |files| => ReadBack(files[i]))
  }

  /** The listed file once the entries of `seen` are attached. */
  ghost function SoFar(e: Entry, seen: seq<Entry>): Entry {
    if !IsPadding(e) && StoredEntry(e) in seen then StoredEntry(e) else V1Entry(e)
  }

  ghost predicate Holds(list: seq<Entry>, files: seq<Entry>, seen: seq<Entry>) {
    |list| == |files| && forall i :: 0 <= i < |files| ==> list[i] == SoFar(files[i], seen)
  }

  ghost predicate FromFiles(es: seq<Entry>, files: seq<Entry>) {
    forall e :: e in es ==> FromFile(e, files)
  }

  ghost predicate FromFile(e: Entry, files: seq<Entry>) {
    exists i :: 0 <= i < |files| && !IsPadding(files[i]) && e == StoredEntry(files[i])
  }

  lemma AttachNext(list: seq<Entry>, files: seq<Entry>, seen: seq<Entry>, e: Entry)
    requires OwnPaths(files) && Holds(list, files, seen) && FromFile(e, files)
    ensures Attach(list, e).Some? && Holds(Attach(list, e).value, files, seen + [e])
  {
    var i :| 0 <= i < |files| && !IsPadding(files[i]) && e == StoredEntry(files[i]);
    var k := FindPath(list, e.path);
    assert list[i].path == e.path;
    assert k == i by {
      assert k < |list| && list[k].path == files[k].path;
    }
    hide FindPath;
    var after := Attach(list, e).value;
    forall j | 0 <= j < |files| ensures after[j] == SoFar(files[j], seen + [e]) {
      if j != i {
        assert files[i].path != files[j].path;
      }
    }
  }

  lemma {:induction false} AttachedAll(files: seq<Entry>, es: seq<Entry>)
    requires OwnPaths(files) && FromFiles(es, files)
    ensures AttachAll(V1List(files), es).Some? && Holds(AttachAll(V1List(files), es).value, files, es)
  {
    if es != [] {
      var n := |es| - 1;
      hide OwnPaths, Holds, Attach, FromFile;
      forall e | e in es[..n] ensures FromFile(e, files) {
        assert e in es;
      }
      AttachedAll(files, es[..n]);
      assert es[n] in es;
      AttachNext(AttachAll(V1List(files), es[..n]).value, files, es[..n], es[n]);
      assert es[..n] + [es[n]] == es;
    }
  }

  lemma {:induction false} RegularAt(files: seq<Entry>, i: nat) returns (k: nat)
    requires i < |files| && !IsPadding(files[i])
    ensures k < |Regular(files)| && Regular(files)[k] == files[i]
  {
    var n := |files| - 1;
    if i < n {
      k := RegularAt(files[..n], i);
    } else {
      k := |Regular(files[..n])|;
    }
  }

  /** Every regular file of the list, from its place in the original one. */
  lemma {:induction false} RegularFrom(files: seq<Entry>, k: nat) returns (i: nat)
    requires k < |Regular(files)|
    ensures i < |files| && !IsPadding(files[i]) && files[i] == Regular(files)[k]
    decreases |files|
  {
    var n := |files| - 1;
    if k < |Regular(files[..n])| {
      i := RegularFrom(files[..n], k);
    } else {
      i := n;
    }
  }

  lemma {:induction false} RegularDistinct(files: seq<Entry>)
    requires OwnPaths(files)
    ensures DistinctPaths(Regular(files))
  {
    if files != [] {
      var n := |files| - 1;
      RegularDistinct(files[..n]);
      var rest := Regular(files[..n]);
      forall k | 0 <= k < |rest| ensures !IsPadding(files[n]) ==> rest[k].path != files[n].path {
        var i := RegularFrom(files[..n], k);
      }
    }
  }

  /** What the tree gives is the regular files, each as it is stored. */
  lemma TreeEntries(files: seq<Entry>, es: seq<Entry>)
    requires ValidEntries(Regular(files)) && OwnPaths(files) && Walk(BuildTree(Regular(files)), []) == Ok(es)
    ensures FromFiles(es, files)
    ensures forall i :: 0 <= i < |files| && !IsPadding(files[i]) ==> StoredEntry(files[i]) in es
  {
    var regular := Regular(files);
    TreeRoundTrip(regular);
    PathOrder(regular);
    RegularDistinct(files);
    hide Regular, InPathOrder, Walk, BuildTree, OwnPaths;
    forall e | e in es ensures FromFile(e, files) {
      LatestIsThere(regular, e.path);
      var k :| 0 <= k < |regular| && regular[k].path == e.path;
      LatestOfDistinct(regular, k);
      var i := RegularFrom(files, k);
    }
    forall i | 0 <= i < |files| && !IsPadding(files[i]) ensures StoredEntry(files[i]) in es {
      var k := RegularAt(files, i);
      LatestOfDistinct(regular, k);
    }
  }

  /**
   * A hybrid storage comes back in its own order: each regular file with its pieces root, each padding file as the v1
   * list has it.
   */
  lemma HybridRoundTrip(files: seq<Entry>)
    requires ValidEntries(Regular(files)) && OwnPaths(files)
    ensures Joined(V1List(files), BuildTree(Regular(files))) == Ok(AllReadBack(files))
  {
    TreeRoundTrip(Regular(files));
    var es := Walk(BuildTree(Regular(files)), []).value;
    hide Walk, BuildTree, Regular, OwnPaths, InPathOrder, AttachAll, V1List, AllReadBack, Holds;
    TreeEntries(files, es);
    AttachedAll(files, es);
    AllAttached(AttachAll(V1List(files), es).value, files, es);
  }

  lemma AllAttached(list: seq<Entry>, files: seq<Entry>, es: seq<Entry>)
    requires Holds(list, files, es) && forall i :: 0 <= i < |files| && !IsPadding(files[i]) ==>
               StoredEntry(files[i]) in es
    ensures list == AllReadBack(files)
  {
    forall i | 0 <= i < |files| ensures list[i] == ReadBack(files[i]) {
    }
  }
}
