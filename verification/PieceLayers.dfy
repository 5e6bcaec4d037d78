/**
 * The hash strings of a metafile: the v1 `pieces` string and the v2 `piece layers` dictionary, which is keyed by pieces
 * root (src/metafile_serialization.cpp:347-360, src/metafile_parsing.cpp:634-711).
 */
module PieceLayers {
  import opened Digests
  import opened FileHashes
  import opened Options
  import PieceVerifier
  import PieceWriter

  type Hash = seq<byte>

  const SHA1_SIZE: nat := 20
  const SHA256_SIZE: nat := 32

  ghost predicate Sized(hashes: seq<Hash>, size: nat) {
    forall k :: 0 <= k < |hashes| ==> |hashes[k]| == size
  }

  // ---- Strings of hashes ---------------------------------------------------------------------------------------

  function Join(hashes: seq<Hash>): seq<byte> {
    if hashes == [] then [] else Join(hashes[..|hashes| - 1]) + hashes[|hashes| - 1]
  }

  lemma {:induction false} JoinedAt(hashes: seq<Hash>, size: nat, k: nat)
    requires Sized(hashes, size) && k < |hashes|
    ensures |Join(hashes)| == |hashes| * size
    ensures (k + 1) * size <= |Join(hashes)| && Join(hashes)[k * size..(k + 1) * size] == hashes[k]
  {
    var n := |hashes| - 1;
    if n > 0 {
      JoinedAt(hashes[..n], size, if k < n then k else 0);
    }
    InsideFirst(k, n, size);
  }

  lemma InsideFirst(k: nat, n: nat, size: nat)
    requires k <= n
    ensures (k + 1) * size == k * size + size && (n + 1) * size == n * size + size
    ensures k < n ==> (k + 1) * size <= n * size
    ensures k * size <= n * size
  {
    if k < n {
      assert (n - (k + 1)) * size >= 0;
    }
  }

  lemma JoinedLength(hashes: seq<Hash>, size: nat)
    requires Sized(hashes, size)
    ensures |Join(hashes)| == |hashes| * size
  {
    if hashes != [] {
      JoinedAt(hashes, size, 0);
    }
  }

  /** `make_v1_pieces_string` and `make_v2_piece_layers_string` */
  method JoinHashes(hashes: seq<Hash>) returns (s: seq<byte>)
    ensures s == Join(hashes)
  {
    s := [];
    for i := 0 to |hashes|
      invariant s == Join(hashes[..i])
    {
      assert hashes[..i + 1][..i] == hashes[..i];
      s := s + hashes[i];
    }
    assert hashes[..|hashes|] == hashes;
  }

  /** The hashes a string is cut into; None when the last one is too short. */
  ghost predicate Cut(s: seq<byte>, size: nat, hashes: seq<Hash>)
    requires size > 0
  {
    |s| == |hashes| * size && forall k :: 0 <= k < |hashes| ==> CutAt(s, size, hashes[k], k)
  }

  ghost predicate CutAt(s: seq<byte>, size: nat, hash: Hash, k: nat) {
    k * size + size <= |s| && s[k * size..k * size + size] == hash
  }

  lemma CutIsJoin(hashes: seq<Hash>, size: nat, read: seq<Hash>)
    requires size > 0 && Sized(hashes, size)
    ensures Cut(Join(hashes), size, read) <==> read == hashes
  {
    JoinedLength(hashes, size);
    if Cut(Join(hashes), size, read) {
      SameCount(|read|, |hashes|, size);
      forall k | 0 <= k < |hashes| ensures read[k] == hashes[k] {
        assert CutAt(Join(hashes), size, read[k], k);
        JoinedAt(hashes, size, k);
      }
    }
    if read == hashes {
      forall k | 0 <= k < |hashes| ensures CutAt(Join(hashes), size, read[k], k) {
        JoinedAt(hashes, size, k);
      }
    }
  }

  lemma SameCount(a: nat, b: nat, size: nat)
    requires size > 0 && a * size == b * size
    ensures a == b
  {
    if a < b {
      InsideFirst(a, b, size);
    } else {
      InsideFirst(b, a, size);
    }
  }

  /** The loop of `parse_piece_layers_v2`: a remainder shorter than a hash is an error. */
  method SplitLayer(s: seq<byte>) returns (hashes: Option<seq<Hash>>)
    ensures hashes.Some? <==> |s| % SHA256_SIZE == 0
    ensures hashes.Some? ==> Cut(s, SHA256_SIZE, hashes.value)
  {
    var out: seq<Hash> := [];
    var idx := 0;
    while idx < |s|
      invariant idx == |out| * SHA256_SIZE <= |s|
      invariant forall k :: 0 <= k < |out| ==> CutAt(s, SHA256_SIZE, out[k], k)
      decreases |s| - idx
    {
      if idx + SHA256_SIZE > |s| {
        return None;
      }
      assert CutAt(s, SHA256_SIZE, s[idx..idx + SHA256_SIZE], |out|);
      out := out + [s[idx..idx + SHA256_SIZE]];
      idx := idx + SHA256_SIZE;
    }
    return Some(out);
  }

  /** `parse_pieces_v1`: whole hashes only, at most as many as the storage has pieces, else a contract fails. */
  method ParsePieces(s: seq<byte>, pieceCount: nat) returns (pieces: Option<seq<Option<Hash>>>)
    ensures pieces.Some? <==> |s| / SHA1_SIZE <= pieceCount
    ensures pieces.Some? ==>
              |pieces.value| == pieceCount
              && forall k :: 0 <= k < pieceCount ==> PieceHashAt(s, pieces.value[k], k)
  {
    var count := |s| / SHA1_SIZE;
    var out: seq<Option<Hash>> := seq(pieceCount, _ => None);
    for idx := 0 to count
      invariant |out| == pieceCount && idx <= pieceCount
      invariant forall k :: 0 <= k < pieceCount ==> if k < idx then PieceHashAt(s, out[k], k) else out[k] == None
    {
      if idx >= pieceCount {
        return None;
      }
      assert SHA1_SIZE * idx + SHA1_SIZE <= |s|;
      out := out[idx := Some(s[SHA1_SIZE * idx..SHA1_SIZE * idx + SHA1_SIZE])];
    }
    return Some(out);
  }

  ghost predicate PieceHashAt(s: seq<byte>, piece: Option<Hash>, k: nat) {
    if k < |s| / SHA1_SIZE then piece.Some? && CutAt(s, SHA1_SIZE, piece.value, k) else piece == None
  }

  /** The pieces string round trip. */
  lemma PiecesRoundTrip(hashes: seq<Hash>, read: seq<Option<Hash>>)
    requires Sized(hashes, SHA1_SIZE) && |read| == |hashes|
    requires forall k :: 0 <= k < |read| ==> PieceHashAt(Join(hashes), read[k], k)
    ensures forall k :: 0 <= k < |hashes| ==> read[k] == Some(hashes[k])
  {
    JoinedLength(hashes, SHA1_SIZE);
    forall k | 0 <= k < |hashes| ensures read[k] == Some(hashes[k]) {
      JoinedAt(hashes, SHA1_SIZE, k);
      assert PieceHashAt(Join(hashes), read[k], k);
    }
  }

  // ---- The piece layers dictionary -----------------------------------------------------------------------------

  datatype HashedFile = HashedFile(size: nat, padding: bool, root: Hash, layer: seq<Hash>)

  /** Hashes have their size, and exactly the files larger than a piece have a layer. */
  ghost predicate Complete(files: seq<HashedFile>, pieceSize: nat) {
    forall k :: 0 <= k < |files| ==>
      && Sized(files[k].layer, SHA256_SIZE) && |files[k].root| == SHA256_SIZE
      && (files[k].layer != [] <==> files[k].size > pieceSize)
  }

  function LayersOf(files: seq<HashedFile>, pieceSize: nat): map<Hash, seq<byte>> {
    if files == [] then map[]
    else
      var f := files[|files| - 1];
      var rest := LayersOf(files[..|files| - 1], pieceSize);
      if f.size > pieceSize then rest[f.root := Join(f.layer)] else rest
  }

  method WriteLayers(files: seq<HashedFile>, pieceSize: nat) returns (layers: map<Hash, seq<byte>>)
    ensures layers == LayersOf(files, pieceSize)
  {
    layers := map[];
    for i := 0 to |files|
      invariant layers == LayersOf(files[..i], pieceSize)
    {
      assert files[..i + 1][..i] == files[..i];
      if files[i].size > pieceSize {
        var s := JoinHashes(files[i].layer);
        layers := layers[files[i].root := s];
      }
    }
    assert files[..|files|] == files;
  }

  /** Files of at least a piece are looked up by their root, others keep no layer. */
  ghost predicate ReadAs(layers: map<Hash, seq<byte>>, f: HashedFile, pieceSize: nat, layer: seq<Hash>) {
    if f.size < pieceSize || f.padding || f.root !in layers then layer == []
    else Cut(layers[f.root], SHA256_SIZE, layer)
  }

  /** The layer string that is read for a file does not end with a whole hash. */
  ghost predicate IsTorn(layers: map<Hash, seq<byte>>, f: HashedFile, pieceSize: nat) {
    LookedUp(f, pieceSize) && f.root in layers && |layers[f.root]| % SHA256_SIZE != 0
  }

  /** `parse_piece_layers_v2`; None when a layer string is not a whole number of hashes. */
  method ReadLayers(layers: map<Hash, seq<byte>>, files: seq<HashedFile>, pieceSize: nat)
    returns (read: Option<seq<seq<Hash>>>)
    ensures read.Some? ==>
              |read.value| == |files|
              && forall k :: 0 <= k < |files| ==> ReadAs(layers, files[k], pieceSize, read.value[k])
    ensures read.None? <==> exists k :: 0 <= k < |files| && IsTorn(layers, files[k], pieceSize)
  {
    var out: seq<seq<Hash>> := [];
    for i := 0 to |files|
      invariant |out| == i && forall k :: 0 <= k < i ==> ReadAs(layers, files[k], pieceSize, out[k])
      invariant forall k :: 0 <= k < i ==> !IsTorn(layers, files[k], pieceSize)
    {
      var f := files[i];
      if f.size < pieceSize || f.padding || f.root !in layers {
        out := out + [[]];
      } else {
        var layer := SplitLayer(layers[f.root]);
        assert layer.None? <==> IsTorn(layers, f, pieceSize);
        if layer.None? {
          return None;
        }
        out := out + [layer.value];
      }
    }
    return Some(out);
  }

  /** Files that are looked up under one root have one layer. */
  ghost predicate RootsTellLayers(files: seq<HashedFile>, pieceSize: nat) {
    forall i, j :: 0 <= i < |files| && 0 <= j < |files| && SharedKey(files[i], files[j], pieceSize) ==>
      files[i].layer == files[j].layer
  }

  /** The first file is looked up under the key the second is written under. */
  ghost predicate SharedKey(f: HashedFile, g: HashedFile, pieceSize: nat) {
    g.size > pieceSize && LookedUp(f, pieceSize) && f.root == g.root
  }

  ghost predicate LookedUp(f: HashedFile, pieceSize: nat) {
    f.size >= pieceSize && !f.padding
  }

  /** The dictionary holds the layer of the last file with a root. */
  lemma {:induction false} Writer(files: seq<HashedFile>, pieceSize: nat, root: Hash) returns (j: nat)
    requires root in LayersOf(files, pieceSize)
    ensures j < |files| && files[j].size > pieceSize && files[j].root == root
    ensures LayersOf(files, pieceSize)[root] == Join(files[j].layer)
  {
    var n := |files| - 1;
    if files[n].size > pieceSize && files[n].root == root {
      j := n;
    } else {
      j := Writer(files[..n], pieceSize, root);
    }
  }

  lemma {:induction false} Written(files: seq<HashedFile>, pieceSize: nat, j: nat)
    requires j < |files| && files[j].size > pieceSize
    ensures files[j].root in LayersOf(files, pieceSize)
  {
    var n := |files| - 1;
    if j < n {
      Written(files[..n], pieceSize, j);
    }
  }

  /** What one file gets back. */
  lemma FileReadsBack(files: seq<HashedFile>, pieceSize: nat, i: nat, layer: seq<Hash>)
    requires Complete(files, pieceSize) && RootsTellLayers(files, pieceSize) && i < |files|
    requires !files[i].padding || files[i].layer == []
    ensures ReadAs(LayersOf(files, pieceSize), files[i], pieceSize, layer) <==> layer == files[i].layer
  {
    var f := files[i];
    var layers := LayersOf(files, pieceSize);
    hide LayersOf, Sized, Cut, Join;
    if LookedUp(f, pieceSize) && f.root in layers {
      var j := Writer(files, pieceSize, f.root);
      assert SharedKey(f, files[j], pieceSize);
      CutIsJoin(files[j].layer, SHA256_SIZE, layer);
    } else if f.size > pieceSize {
      Written(files, pieceSize, i);
    }
  }

  /**
   * The piece layers round trip: whatever the reader makes of the written dictionary, every file has its own layer
   * back, if and only if files that share a root share the layer.
   */
  lemma LayersRoundTrip(files: seq<HashedFile>, pieceSize: nat, read: seq<seq<Hash>>)
    requires Complete(files, pieceSize) && |read| == |files|
    requires forall k :: 0 <= k < |files| ==> files[k].padding ==> files[k].layer == []
    requires forall k :: 0 <= k < |files| ==> ReadAs(LayersOf(files, pieceSize), files[k], pieceSize, read[k])
    ensures (forall k :: 0 <= k < |files| ==> read[k] == files[k].layer) <==> RootsTellLayers(files, pieceSize)
  {
    hide LayersOf, Sized, Cut, Join, ReadAs;
    if RootsTellLayers(files, pieceSize) {
      forall k | 0 <= k < |files| ensures read[k] == files[k].layer {
        FileReadsBack(files, pieceSize, k, read[k]);
      }
    }
    if forall k :: 0 <= k < |files| ==> read[k] == files[k].layer {
      forall i, j | 0 <= i < |files| && 0 <= j < |files| && SharedKey(files[i], files[j], pieceSize)
        ensures files[i].layer == files[j].layer
      {
        SharedRoot(files, pieceSize, i, j, read);
      }
    }
  }

  lemma SharedRoot(files: seq<HashedFile>, pieceSize: nat, i: nat, j: nat, read: seq<seq<Hash>>)
    requires Complete(files, pieceSize) && |read| == |files| && i < |files| && j < |files|
    requires forall k :: 0 <= k < |files| ==> files[k].padding ==> files[k].layer == []
    requires forall k :: 0 <= k < |files| ==> ReadAs(LayersOf(files, pieceSize), files[k], pieceSize, read[k])
    requires forall k :: 0 <= k < |files| ==> read[k] == files[k].layer
    requires files[j].size > pieceSize && LookedUp(files[i], pieceSize) && files[i].root == files[j].root
    ensures files[i].layer == files[j].layer
  {
    Written(files, pieceSize, j);
    var layers := LayersOf(files, pieceSize);
    var w := Writer(files, pieceSize, files[j].root);
    hide LayersOf, Sized, Cut, Join;
    assert ReadAs(layers, files[i], pieceSize, read[i]) && ReadAs(layers, files[j], pieceSize, read[j]);
    assert files[j].layer != [];
    CutIsJoin(files[w].layer, SHA256_SIZE, read[i]);
    CutIsJoin(files[w].layer, SHA256_SIZE, read[j]);
  }

  // ---- The layers of a hashed storage --------------------------------------------------------------------------

  /** An entry with its hashes as the 32-byte strings they stand for. */
  function Stored(e: PieceWriter.Entry, bytes: Digest -> Hash): HashedFile {
    HashedFile(e.size, e.padding, bytes(e.root.UnwrapOr(Zero)),
               seq(|e.layer|, i requires 0 <= i < |e.layer| => bytes(e.layer[i])))
  }

  function StoredAll(entries: seq<PieceWriter.Entry>, bytes: Digest -> Hash): seq<HashedFile> {
    seq(|entries|, k requires 0 <= k < |entries| => Stored(entries[k], bytes))
  }

  /**
   * What hashing makes of an entry: the hashes of BEP 52 for a file with content, no layer for an empty one or padding.
   */
  ghost predicate HashedEntry(e: PieceWriter.Entry, content: seq<byte>, pieceSize: nat)
    requires pieceSize >= BLOCK_SIZE
  {
    if e.padding || e.size == 0 then e.layer == [] && e.size < pieceSize
    else PieceVerifier.MadeFrom(e, content, pieceSize)
  }

  ghost predicate HashedEntries(entries: seq<PieceWriter.Entry>, contents: seq<seq<byte>>, pieceSize: nat)
    requires pieceSize >= BLOCK_SIZE
  {
    |entries| == |contents| && forall k :: 0 <= k < |entries| ==> HashedEntry(entries[k], contents[k], pieceSize)
  }

  /** Hash strings have 32 bytes, and no two digests at hand have the same. */
  ghost predicate HashStrings(entries: seq<PieceWriter.Entry>, bytes: Digest -> Hash) {
    && (forall d :: |bytes(d)| == SHA256_SIZE)
    && forall i, j :: 0 <= i < |entries| && 0 <= j < |entries| ==> NoCollision(entries[i].root, entries[j].root, bytes)
  }

  ghost predicate NoCollision(a: Option<Digest>, b: Option<Digest>, bytes: Digest -> Hash) {
    a.Some? && b.Some? && bytes(a.value) == bytes(b.value) ==> a == b
  }

  /** Files with one pieces root have one content, so one layer. */
  lemma SameRootSameLayer(e: PieceWriter.Entry, d: PieceWriter.Entry, c: seq<byte>, b: seq<byte>, pieceSize: nat)
    requires pieceSize >= BLOCK_SIZE && PieceVerifier.MadeFrom(e, c, pieceSize) &&
               PieceVerifier.MadeFrom(d, b, pieceSize)
    requires e.root == d.root
    ensures e.layer == d.layer
  {
    RootIdentifiesContent(c, b);
  }

  /**
   * In a storage with the hashes of BEP 52 the roots tell the layers, so all layers come back: two files share a root
   * only as one content.
   */
  lemma HashedLayersRoundTrip(entries: seq<PieceWriter.Entry>, contents: seq<seq<byte>>, pieceSize: nat,
                              bytes: Digest -> Hash, read: seq<seq<Hash>>)
    requires pieceSize >= BLOCK_SIZE && HashedEntries(entries, contents, pieceSize) && HashStrings(entries, bytes)
    requires |read| == |entries|
    requires var files := StoredAll(entries, bytes);
             forall k :: 0 <= k < |files| ==> ReadAs(LayersOf(files, pieceSize), files[k], pieceSize, read[k])
    ensures RootsTellLayers(StoredAll(entries, bytes), pieceSize)
    ensures forall k :: 0 <= k < |entries| ==> read[k] == Stored(entries[k], bytes).layer
  {
    hide LayersOf, ReadAs, PiecesRoot, PieceLayer, BlockDigests;
    var files := StoredAll(entries, bytes);
    forall i, j | 0 <= i < |files| && 0 <= j < |files| && SharedKey(files[i], files[j], pieceSize)
      ensures files[i].layer == files[j].layer
    {
      assert NoCollision(entries[i].root, entries[j].root, bytes);
      SameRootSameLayer(entries[i], entries[j], contents[i], contents[j], pieceSize);
    }
    StoredComplete(entries, contents, pieceSize, bytes);
    LayersRoundTrip(files, pieceSize, read);
  }

  lemma StoredComplete(entries: seq<PieceWriter.Entry>, contents: seq<seq<byte>>, pieceSize: nat, bytes: Digest -> Hash)
    requires pieceSize >= BLOCK_SIZE && HashedEntries(entries, contents, pieceSize) && HashStrings(entries, bytes)
    ensures Complete(StoredAll(entries, bytes), pieceSize)
    ensures forall k :: 0 <= k < |entries| ==> entries[k].padding ==> Stored(entries[k], bytes).layer == []
  {
    hide PiecesRoot, BlockDigests;
    forall k | 0 <= k < |entries|
      ensures (Stored(entries[k], bytes).layer != [] <==> entries[k].size > pieceSize)
    {
      assert |Stored(entries[k], bytes).layer| == |entries[k].layer|;
    }
  }
}
