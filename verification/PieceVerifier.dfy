/**
 * The v2 piece verifier of src/v2_piece_verifier.cpp: one bit per piece of every file that is not padding, set when the
 * piece has the hash the metafile gives.
 */
module PieceVerifier {
  import opened Arith
  import opened Digests
  import opened Merkle
  import opened FileHashes
  import opened Options
  import opened PieceWriter
  import opened V2Hasher

  // ---- The piece map -------------------------------------------------------------------------------------------

  /** Bits of a file in the piece map; a file without a piece layer has one for its root. */
  function PieceSlots(e: Entry): nat {
    if e.padding then 0 else Max(1, |e.layer|)
  }

  function SlotsBefore(storage: seq<Entry>, i: nat): nat
    requires i <= |storage|
  {
    if i == 0 then 0 else SlotsBefore(storage, i - 1) + PieceSlots(storage[i - 1])
  }

  lemma {:induction false} SlotsMonotone(storage: seq<Entry>, i: nat, j: nat)
    requires i <= j <= |storage|
    ensures SlotsBefore(storage, i) <= SlotsBefore(storage, j)
  {
    if i < j {
      SlotsMonotone(storage, i, j - 1);
    }
  }

  ghost predicate InSlots(storage: seq<Entry>, i: nat, k: nat)
    requires i < |storage|
  {
    SlotsBefore(storage, i) <= k < SlotsBefore(storage, i) + PieceSlots(storage[i])
  }

  /** The ranges of the files partition the map: every bit belongs to exactly one file. */
  lemma {:induction false} SlotsPartition(storage: seq<Entry>, n: nat, k: nat) returns (i: nat)
    requires n <= |storage| && k < SlotsBefore(storage, n)
    ensures i < n && !storage[i].padding && InSlots(storage, i, k)
    ensures forall j: nat :: j < n && InSlots(storage, j, k) ==> j == i
  {
    if k < SlotsBefore(storage, n - 1) {
      i := SlotsPartition(storage, n - 1, k);
    } else {
      i := n - 1;
      forall j: nat | j < n && InSlots(storage, j, k) ensures j == i {
        if j < i {
          SlotsMonotone(storage, j + 1, i);
        }
      }
    }
  }

  const NO_OFFSET: nat := 0xFFFF_FFFF_FFFF_FFFF

  /** `file_offsets_`: where each file's bits start, a mark for padding files, and the size of the map at the end. */
  function OffsetTable(storage: seq<Entry>): seq<nat> {
    seq(|storage|, i requires 0 <= i < |storage| =>
      if storage[i].padding then NO_OFFSET else SlotsBefore(storage, i))
    + [SlotsBefore(storage, |storage|)]
  }

  lemma OffsetsNext(storage: seq<Entry>, i: nat)
    requires i < |storage|
    ensures var t, u := OffsetTable(storage[..i]), OffsetTable(storage[..i + 1]);
            |t| == i + 1 && t[i] == SlotsBefore(storage, i)
            && u == (if storage[i].padding then t[i := NO_OFFSET] + [t[i]] else t + [t[i] + PieceSlots(storage[i])])
  {
    var t, u := OffsetTable(storage[..i]), OffsetTable(storage[..i + 1]);
    forall j: nat | j <= i
      ensures SlotsBefore(storage[..i], j) == SlotsBefore(storage, j) == SlotsBefore(storage[..i + 1], j)
    {
      SlotsOfPrefix(storage, i, j);
      SlotsOfPrefix(storage, i + 1, j);
    }
  }

  lemma {:induction false} SlotsOfPrefix(storage: seq<Entry>, n: nat, i: nat)
    requires i <= n <= |storage|
    ensures SlotsBefore(storage[..n], i) == SlotsBefore(storage, i)
  {
    if i > 0 {
      SlotsOfPrefix(storage, n, i - 1);
    }
  }

  // ---- The bits of one file ------------------------------------------------------------------------------------

  /**
   * What completing a file writes over its bits: all set when the root matches, else the root's bit cleared, or one
   * comparison per piece of the layer.
   */
  function NewBits(e: Entry, leaves: seq<Digest>, bits: seq<bool>, pieceSize: nat, isal: bool): (r: seq<bool>)
    requires pieceSize >= BLOCK_SIZE
    ensures |r| == |bits|
  {
    seq(|bits|, i requires 0 <= i < |bits| =>
      if e.root == Some(TreeRoot(leaves, isal)) then true
      else if e.layer == [] then false
      else if i < DivCeil(e.size, pieceSize) && i < |e.layer| then
        TreeNode(leaves, Log2Floor(|leaves|), BlocksPerPieceLog(pieceSize), i, isal) == e.layer[i]
      else bits[i])
  }

  /** The same without the root as a short cut: every piece is compared. */
  ghost predicate PieceMatches(e: Entry, leaves: seq<Digest>, pieceSize: nat, i: nat)
    requires pieceSize >= BLOCK_SIZE && i < Max(1, |e.layer|)
  {
    if e.layer == [] then e.root == Some(TreeRoot(leaves, false))
    else SubRoot(leaves, BlocksPerPieceLog(pieceSize), i) == e.layer[i]
  }

  /** Zero digests stand for the pieces that balance the tree. */
  function ZeroPieces(g: nat, n: nat): seq<Digest> {
    seq(n, _ => SubRoot([], g, 0))
  }

  function PaddedLayer(layer: seq<Digest>, g: nat, n: nat): seq<Digest>
    requires |layer| <= n
  {
    layer + ZeroPieces(g, n - |layer|)
  }

  /** The layer has one digest per piece and hashes to the root, in the tree for a file of that size. */
  ghost predicate SelfConsistent(e: Entry, pieceSize: nat)
    requires pieceSize >= BLOCK_SIZE
  {
    e.layer != [] ==>
      var g, h := BlocksPerPieceLog(pieceSize), Log2Floor(LeafSlots(e.size));
      && |e.layer| == DivCeil(e.size, pieceSize)
      && g <= h && |e.layer| <= Pow2(h - g)
      && e.root == Some(SubRoot(PaddedLayer(e.layer, g, Pow2(h - g)), h - g, 0))
  }

  /** The nodes of a tree g levels above the leaves. */
  function Level(leaves: seq<Digest>, g: nat, n: nat): seq<Digest> {
    seq(n, j requires 0 <= j => SubRoot(leaves, g, j))
  }

  lemma RootOfLevel(leaves: seq<Digest>, g: nat, h: nat)
    requires g <= h
    ensures SubRoot(Level(leaves, g, Pow2(h - g)), h - g, 0) == SubRoot(leaves, h, 0)
  {
    hide SubRoot, Pow2;
    FirstLeafIsProduct(h - g, 0);
    SubRootOfLayer(leaves, Level(leaves, g, Pow2(h - g)), g, h - g, 0);
  }

  /** Digests being injective, a matching root means that every piece matches. */
  lemma RootDecides(e: Entry, leaves: seq<Digest>, pieceSize: nat, i: nat)
    requires pieceSize >= BLOCK_SIZE && SelfConsistent(e, pieceSize) && |leaves| == LeafSlots(e.size)
    requires e.root == Some(TreeRoot(leaves, false)) && i < |e.layer|
    ensures SubRoot(leaves, BlocksPerPieceLog(pieceSize), i) == e.layer[i]
  {
    hide SubRoot, Pow2, Log2Floor, LeafSlots, DivCeil, BlocksPerPieceLog;
    var g, h := BlocksPerPieceLog(pieceSize), Log2Floor(LeafSlots(e.size));
    var padded, level := PaddedLayer(e.layer, g, Pow2(h - g)), Level(leaves, g, Pow2(h - g));
    RootOfLevel(leaves, g, h);
    FirstLeafIsProduct(h - g, 0);
    SubRootInjective(padded, level, h - g, 0, 0, i);
    assert padded[i] == e.layer[i];
  }

  /**
   * The short cut writes the bits that comparing every piece would write, in a tree the single-buffer update hashes.
   */
  lemma ShortcutIsComparison(e: Entry, leaves: seq<Digest>, bits: seq<bool>, pieceSize: nat, i: nat)
    requires pieceSize >= BLOCK_SIZE && SelfConsistent(e, pieceSize) && |leaves| == LeafSlots(e.size)
    requires |bits| == Max(1, |e.layer|) && i < |bits|
    ensures NewBits(e, leaves, bits, pieceSize, false)[i] <==> PieceMatches(e, leaves, pieceSize, i)
  {
    hide SubRoot, Pow2, Log2Floor, LeafSlots, BlocksPerPieceLog;
    if e.layer != [] && e.root == Some(TreeRoot(leaves, false)) {
      RootDecides(e, leaves, pieceSize, i);
    }
  }

  // ---- The messages of one file --------------------------------------------------------------------------------

  /** The leaf layer of a file's tree, how many messages it has had, its entry, and its part of the piece map. */
  datatype FileCheck = FileCheck(leaves: seq<Digest>, hashed: nat, entry: Entry, bits: seq<bool>)

  function Cleared(n: nat): (bits: seq<bool>)
    ensures |bits| == n && forall k :: 0 <= k < n ==> !bits[k]
  {
    seq(n, _ => false)
  }

  function FreshCheck(e: Entry): FileCheck {
    FileCheck(FreshFile(e).leaves, 0, e, Cleared(PieceSlots(e)))
  }

  function CheckBlock(s: FileCheck, leaf: nat, hash: Digest, pieceSize: nat, isal: bool): FileCheck
    requires pieceSize >= BLOCK_SIZE && leaf < |s.leaves|
  {
    var t := s.(leaves := s.leaves[leaf := hash], hashed := s.hashed + 1);
    if BlockCount(s.entry.size) <= t.hashed then t.(bits := NewBits(t.entry, t.leaves, t.bits, pieceSize, isal)) else t
  }

  /** The messages of one file in arrival order; `None` once a leaf index is outside the tree. */
  function RunCheck(s: FileCheck, messages: seq<HashedBlock>, pieceSize: nat, isal: bool): Option<FileCheck>
    requires pieceSize >= BLOCK_SIZE
  {
    if messages == [] then Some(s)
    else
      var before := RunCheck(s, messages[..|messages| - 1], pieceSize, isal);
      var m := messages[|messages| - 1];
      if before.None? || m.leaf >= |before.value.leaves| then None
      else Some(CheckBlock(before.value, m.leaf, m.hash, pieceSize, isal))
  }

  /** The verifier's trees fill up as the writer's do, and nothing is decided before the last block. */
  lemma {:induction false} CheckTracksWriter(e: Entry, messages: seq<HashedBlock>, pieceSize: nat, isal: bool)
    requires pieceSize >= BLOCK_SIZE
    ensures var w := RunFile(FreshFile(e), messages, pieceSize, isal);
            var c := RunCheck(FreshCheck(e), messages, pieceSize, isal);
            && (c.Some? <==> w.Some?)
            && (c.Some? ==>
              && c.value.leaves == w.value.leaves && c.value.hashed == w.value.hashed == |messages|
              && c.value.entry == e && w.value.entry.size == e.size && |c.value.bits| == PieceSlots(e)
              && (|messages| < BlockCount(e.size) ==> c.value.bits == FreshCheck(e).bits))
  {
    hide SubRoot, Log2Floor, Pow2, CutLayer, LeafSlots, BlockCount, NewBits;
    if messages != [] {
      CheckTracksWriter(e, messages[..|messages| - 1], pieceSize, isal);
    }
  }

  /** The last of enough messages decides the bits anew. */
  lemma DecidedLast(e: Entry, messages: seq<HashedBlock>, pieceSize: nat, isal: bool) returns (bits: seq<bool>)
    requires pieceSize >= BLOCK_SIZE && messages != [] && BlockCount(e.size) <= |messages|
    requires RunCheck(FreshCheck(e), messages, pieceSize, isal).Some?
    ensures var r := RunCheck(FreshCheck(e), messages, pieceSize, isal).value;
            |bits| == PieceSlots(e) && r.bits == NewBits(e, r.leaves, bits, pieceSize, isal)
  {
    hide FreshCheck, NewBits, BlockCount;
    var init := messages[..|messages| - 1];
    CheckTracksWriter(e, init, pieceSize, isal);
    bits := RunCheck(FreshCheck(e), init, pieceSize, isal).value.bits;
  }

  /** Any order of the leaves of a file, at least as many as it has blocks, leaves the bits of its whole tree. */
  lemma AnyOrderChecksFile(file: nat, e: Entry, blocks: seq<Digest>, messages: seq<HashedBlock>, pieceSize: nat,
                           isal: bool)
    returns (leaves: seq<Digest>, bits: seq<bool>)
    requires pieceSize >= BLOCK_SIZE && !e.padding && 0 < |blocks| &&
               BlockCount(e.size) <= |blocks| <= LeafSlots(e.size)
    requires multiset(messages) == multiset(LeafMessages(file, blocks))
    ensures var r := RunCheck(FreshCheck(e), messages, pieceSize, isal);
            r.Some? && |bits| == PieceSlots(e) && r.value.bits == NewBits(e, leaves, bits, pieceSize, isal)
    ensures |leaves| == LeafSlots(e.size) && forall x: nat :: LeafAt(leaves, x) == LeafAt(blocks, x)
  {
    LeafMessagesAreGenuine(file, blocks, messages);
    var k := |messages| - 1;
    hide SubRoot, Log2Floor, Pow2, LeafSlots, BlockCount, CutLayer;
    RunFileFills(file, e, blocks, messages, pieceSize, isal);
    CheckTracksWriter(e, messages, pieceSize, isal);
    leaves := RunCheck(FreshCheck(e), messages, pieceSize, isal).value.leaves;
    bits := DecidedLast(e, messages, pieceSize, isal);
    hide RunCheck, FreshCheck, NewBits;
    FilledLeaves(RunFile(FreshFile(e), messages, pieceSize, isal).value, file, blocks, messages);
  }

  lemma FilledLeaves(s: FileState, file: nat, blocks: seq<Digest>, messages: seq<HashedBlock>)
    requires Filled(s, file, blocks, messages) && |blocks| <= |s.leaves|
    requires forall i: nat :: i < |blocks| ==> HashedBlock(file, i, blocks[i]) in messages
    ensures forall x: nat :: LeafAt(s.leaves, x) == LeafAt(blocks, x)
  {
    forall x: nat ensures LeafAt(s.leaves, x) == LeafAt(blocks, x) {
      assert x < |s.leaves| ==> s.leaves[x] == LeafAt(blocks, x);
    }
  }

  // ---- What a bit says about the bytes -------------------------------------------------------------------------

  ghost predicate SameBytes(c: seq<byte>, d: seq<byte>, first: nat, last: nat)
    requires first <= last <= |c| == |d|
  {
    forall p :: first <= p < last ==> c[p] == d[p]
  }

  /** The byte range of a block. */
  ghost predicate SameBlock(c: seq<byte>, d: seq<byte>, x: nat)
    requires |c| == |d|
  {
    x < BlockCount(|c|) ==>
      (BlockStart(|c|, x);
       SameBytes(c, d, x * BLOCK_SIZE, Min((x + 1) * BLOCK_SIZE, |c|)))
  }

  lemma SlicesAgree(c: seq<byte>, d: seq<byte>, first: nat, last: nat)
    requires first <= last <= |c| == |d|
    ensures c[first..last] == d[first..last] <==> SameBytes(c, d, first, last)
  {
    if c[first..last] == d[first..last] {
      forall p | first <= p < last ensures c[p] == d[p] {
        assert c[p] == c[first..last][p - first] == d[first..last][p - first];
      }
    }
  }

  lemma SameDigest(c: seq<byte>, d: seq<byte>, x: nat)
    requires |c| == |d|
    ensures LeafAt(BlockDigests(c), x) == LeafAt(BlockDigests(d), x) <==> SameBlock(c, d, x)
  {
    if x < BlockCount(|c|) {
      BlockStart(|c|, x);
      SlicesAgree(c, d, x * BLOCK_SIZE, Min((x + 1) * BLOCK_SIZE, |c|));
    }
  }

  ghost predicate SameBlocks(c: seq<byte>, d: seq<byte>, f: nat, m: nat)
    requires |c| == |d|
  {
    forall x: nat :: f <= x < f + m ==> SameBlock(c, d, x)
  }

  lemma BytesOfBlocks(c: seq<byte>, d: seq<byte>, f: nat, m: nat)
    requires |c| == |d| && f * BLOCK_SIZE <= |c|
    ensures SameBlocks(c, d, f, m) <==> SameBytes(c, d, f * BLOCK_SIZE, Min((f + m) * BLOCK_SIZE, |c|))
  {
    if SameBlocks(c, d, f, m) {
      forall p | f * BLOCK_SIZE <= p < Min((f + m) * BLOCK_SIZE, |c|) ensures c[p] == d[p] {
        assert SameBlock(c, d, p / BLOCK_SIZE);
      }
    }
  }

  /** Equal subtree roots are equal bytes. */
  lemma SameRootSameBytes(c: seq<byte>, d: seq<byte>, g: nat, i: nat)
    requires |c| == |d| && i * Pow2(g) * BLOCK_SIZE <= |c|
    ensures SubRoot(BlockDigests(c), g, i) == SubRoot(BlockDigests(d), g, i)
            <==> SameBytes(c, d, i * Pow2(g) * BLOCK_SIZE, Min((i * Pow2(g) + Pow2(g)) * BLOCK_SIZE, |c|))
  {
    hide SubRoot, BlockDigests, Pow2, SameBlock, SameBytes;
    var f, m := i * Pow2(g), Pow2(g);
    FirstLeafIsProduct(g, i);
    BytesOfBlocks(c, d, f, m);
    if SubRoot(BlockDigests(c), g, i) == SubRoot(BlockDigests(d), g, i) {
      forall x: nat | f <= x < f + m ensures SameBlock(c, d, x) {
        SubRootInjective(BlockDigests(c), BlockDigests(d), g, i, i, x - f);
        SameDigest(c, d, x);
      }
    }
    if SameBlocks(c, d, f, m) {
      forall x: nat | f <= x < f + m
        ensures 0 <= x + 0 && LeafAt(BlockDigests(c), x) == LeafAt(BlockDigests(d), x + 0)
      {
        SameDigest(c, d, x);
      }
      SubRootReadsItsLeaves(BlockDigests(c), BlockDigests(d), g, i, i, 0);
    }
  }

  // ---- Verifying against the metafile of another content -------------------------------------------------------

  /** The entry the library writes for a file with that content. */
  ghost predicate MadeFrom(e: Entry, content: seq<byte>, pieceSize: nat)
    requires pieceSize >= BLOCK_SIZE
  {
    && !e.padding && e.size == |content| > 0
    && e.root == Some(PiecesRoot(BlockDigests(content)))
    && e.layer == PieceLayer(BlockDigests(content), e.size, pieceSize)
  }

  /** The level of a hashed tree beyond the last piece is zero pieces. */
  lemma BeyondLastPiece(blocks: seq<Digest>, size: nat, pieceSize: nat, j: nat)
    requires ValidPieceSize(pieceSize) && |blocks| == BlockCount(size) && DivCeil(size, pieceSize) <= j
    ensures SubRoot(blocks, BlocksPerPieceLog(pieceSize), j) == SubRoot([], BlocksPerPieceLog(pieceSize), 0)
  {
    hide SubRoot, Pow2, Log2Floor, BlocksPerPieceLog;
    var g := BlocksPerPieceLog(pieceSize);
    PieceIsBlocks(pieceSize);
    DivCeilAtMost(size, pieceSize, j);
    ScaledBound(size, j, Pow2(g));
    DivCeilAtMost(size, BLOCK_SIZE, j * Pow2(g));
    FirstLeafIsProduct(g, j);
    FirstLeafIsProduct(g, 0);
    forall x: nat | FirstLeaf(g, j) <= x < FirstLeaf(g, j) + Pow2(g)
      ensures 0 <= x - j * Pow2(g) && LeafAt(blocks, x) == LeafAt([], x - j * Pow2(g))
    {
    }
    SubRootReadsItsLeaves(blocks, [], g, j, 0, -(j * Pow2(g)));
  }

  /** What the writer makes is consistent in the verifier's sense. */
  lemma MadeIsConsistent(e: Entry, content: seq<byte>, pieceSize: nat)
    requires ValidPieceSize(pieceSize) && MadeFrom(e, content, pieceSize)
    ensures SelfConsistent(e, pieceSize)
  {
    hide SubRoot, Pow2, Log2Floor, BlocksPerPieceLog, BlockDigests, LeafSlots, BlockCount, DivCeil;
    var blocks := BlockDigests(content);
    var g, h := BlocksPerPieceLog(pieceSize), Log2Floor(LeafSlots(e.size));
    SlotsOfBlocks(e.size);
    PieceLevelFits(e.size, pieceSize);
    if e.layer != [] {
      RootOfLevel(blocks, g, h);
      var padded, level := PaddedLayer(e.layer, g, Pow2(h - g)), Level(blocks, g, Pow2(h - g));
      forall j | 0 <= j < |level| ensures padded[j] == level[j] {
        if j >= |e.layer| {
          BeyondLastPiece(blocks, e.size, pieceSize, j);
        }
      }
      assert padded == level;
    }
  }

  /** The bytes of piece i of a file. */
  function PieceBytes(content: seq<byte>, pieceSize: nat, i: nat): seq<byte>
    requires i * pieceSize <= |content|
  {
    MulMonotone(i, i + 1, pieceSize);
    content[i * pieceSize..Min((i + 1) * pieceSize, |content|)]
  }

  lemma PieceMatchesBytes(e: Entry, original: seq<byte>, disk: seq<byte>, leaves: seq<Digest>, pieceSize: nat, i: nat)
    requires ValidPieceSize(pieceSize) && MadeFrom(e, original, pieceSize) && |disk| == |original| &&
               i < Max(1, |e.layer|)
    requires |leaves| == LeafSlots(e.size) && forall x: nat :: LeafAt(leaves, x) == LeafAt(BlockDigests(disk), x)
    requires i * pieceSize <= |disk|
    ensures PieceMatches(e, leaves, pieceSize, i)
            <==> PieceBytes(disk, pieceSize, i) == PieceBytes(original, pieceSize, i)
  {
    hide SubRoot, Pow2, Log2Floor, BlocksPerPieceLog, BlockDigests, LeafSlots, BlockCount, DivCeil, PieceBytes,
      SameBytes;
    if e.layer == [] {
      SlotsOfBlocks(e.size);
      var h := Log2Ceil(BlockCount(e.size));
      SameLeavesSameRoots(leaves, BlockDigests(disk), h, 0);
      WholeFileBytes(disk, original, h, pieceSize);
    } else {
      var g := BlocksPerPieceLog(pieceSize);
      SameLeavesSameRoots(leaves, BlockDigests(disk), g, i);
      OnePieceBytes(disk, original, pieceSize, i);
    }
  }

  lemma WholeFileBytes(disk: seq<byte>, original: seq<byte>, h: nat, pieceSize: nat)
    requires |disk| == |original| && 0 < |disk| <= pieceSize && h == Log2Ceil(BlockCount(|disk|))
    ensures SubRoot(BlockDigests(disk), h, 0) == SubRoot(BlockDigests(original), h, 0)
            <==> PieceBytes(disk, pieceSize, 0) == PieceBytes(original, pieceSize, 0)
  {
    hide SubRoot, Pow2, Log2Floor, BlockDigests;
    SlotsOfBlocks(|disk|);
    DivCeilAtMost(|disk|, BLOCK_SIZE, Pow2(h));
    SameRootSameBytes(disk, original, h, 0);
    SlicesAgree(disk, original, 0, |disk|);
  }

  lemma OnePieceBytes(disk: seq<byte>, original: seq<byte>, pieceSize: nat, i: nat)
    requires ValidPieceSize(pieceSize) && |disk| == |original| && i * pieceSize <= |disk|
    ensures var g := BlocksPerPieceLog(pieceSize);
            SubRoot(BlockDigests(disk), g, i) == SubRoot(BlockDigests(original), g, i)
            <==> PieceBytes(disk, pieceSize, i) == PieceBytes(original, pieceSize, i)
  {
    hide SubRoot, Pow2, Log2Floor, BlocksPerPieceLog, BlockDigests, SameBytes;
    var g := BlocksPerPieceLog(pieceSize);
    PieceIsBlocks(pieceSize);
    PieceStart(i, Pow2(g), pieceSize);
    SameRootSameBytes(disk, original, g, i);
    MulMonotone(i, i + 1, pieceSize);
    SlicesAgree(disk, original, i * pieceSize, Min((i + 1) * pieceSize, |disk|));
  }

  lemma PieceStart(i: nat, m: nat, pieceSize: nat)
    requires pieceSize == m * BLOCK_SIZE
    ensures i * m * BLOCK_SIZE == i * pieceSize
    ensures (i * m + m) * BLOCK_SIZE == (i + 1) * pieceSize
  {
  }

  /** Bit i says whether the bytes of piece i are those of the original. */
  ghost predicate BitsMatch(original: seq<byte>, disk: seq<byte>, pieceSize: nat, bits: seq<bool>) {
    |disk| == |original| && forall i: nat :: i < |bits| ==>
      i * pieceSize <= |disk| && (bits[i] <==> PieceBytes(disk, pieceSize, i) == PieceBytes(original, pieceSize, i))
  }

  /** The single-buffer hasher's extra leaf has no slot in the tree. */
  predicate TreeOverflows(size: nat, chunkSize: nat, multi: bool)
    requires chunkSize > 0
  {
    !multi && size % chunkSize == 0 && BlockCount(size) == LeafSlots(size)
  }

  /**
   * The tree update gives the nodes the metafile has: always the single-buffer one; the multi-buffer one in trees of at
   * most two leaves, and where the nodes compared are the leaves themselves.
   */
  predicate NodesComparable(size: nat, pieceSize: nat, isal: bool) {
    !isal || BlockCount(size) <= 2 || pieceSize == BLOCK_SIZE
  }

  /**
   * The bits of a file of the right size that is on disk. Where the nodes are not comparable, the file is not complete
   * even when nothing in it has changed.
   */
  ghost predicate Verdict(original: seq<byte>, disk: seq<byte>, pieceSize: nat, isal: bool, bits: seq<bool>) {
    && (NodesComparable(|disk|, pieceSize, isal) ==> BitsMatch(original, disk, pieceSize, bits))
    && (disk == original ==> ((forall i :: 0 <= i < |bits| ==> bits[i]) <==> NodesComparable(|disk|, pieceSize, isal)))
  }

  /**
   * The verifier's verdict: once the messages of a file of the right size have come, in any order, the bit of a piece
   * is set exactly when its bytes are those the metafile was made from, given that the nodes are comparable. That a
   * hasher sends an extra leaf changes no bit, but fails a contract when the tree has no slot for it.
   */
  lemma BitsTellTheBytes(file: nat, e: Entry, original: seq<byte>, disk: seq<byte>, messages: seq<HashedBlock>,
                         pieceSize: nat, chunkSize: nat, piecesPerChunk: nat, multi: bool, isal: bool)
    requires ValidPieceSize(pieceSize) && MadeFrom(e, original, pieceSize) && |disk| == |original|
    requires chunkSize == piecesPerChunk * pieceSize > 0
    requires multiset(messages) == multiset(LeafMessages(file, LeavesOf(disk, chunkSize, multi)))
    ensures var r := RunCheck(FreshCheck(e), messages, pieceSize, isal);
            if TreeOverflows(e.size, chunkSize, multi) then r.None?
            else r.Some? && |r.value.bits| == PieceSlots(e) && Verdict(original, disk, pieceSize, isal, r.value.bits)
  {
    hide SubRoot, Pow2, Log2Floor, BlocksPerPieceLog, BlockDigests, LeafSlots, BlockCount, NewBits, BitsMatch, RunCheck;
    SlotsOfBlocks(e.size);
    var blocks := BlockDigests(disk);
    if TreeOverflows(e.size, chunkSize, multi) {
      AnyOrderCompletesFile(file, e, blocks + [Leaf([])], messages, pieceSize, isal);
      CheckTracksWriter(e, messages, pieceSize, isal);
    } else {
      var leaves, bits := AnyOrderChecksFile(file, e, LeavesOf(disk, chunkSize, multi), messages, pieceSize, isal);
      var r := NewBits(e, leaves, bits, pieceSize, isal);
      if NodesComparable(e.size, pieceSize, isal) {
        ComparableBits(e, original, disk, leaves, bits, pieceSize, chunkSize, piecesPerChunk, multi, isal);
        if disk == original {
          IntactIsComplete(disk, pieceSize, r);
        }
      } else if disk == original {
        IntactIsIncomplete(e, original, leaves, bits, pieceSize, chunkSize, multi);
      }
    }
  }

  lemma IntactIsComplete(content: seq<byte>, pieceSize: nat, bits: seq<bool>)
    requires BitsMatch(content, content, pieceSize, bits)
    ensures forall i :: 0 <= i < |bits| ==> bits[i]
  {
  }

  lemma ComparableBits(e: Entry, original: seq<byte>, disk: seq<byte>, leaves: seq<Digest>, bits: seq<bool>,
                       pieceSize: nat, chunkSize: nat, piecesPerChunk: nat, multi: bool, isal: bool)
    requires ValidPieceSize(pieceSize) && MadeFrom(e, original, pieceSize) && |disk| == |original|
    requires chunkSize == piecesPerChunk * pieceSize > 0 && |bits| == PieceSlots(e) && |leaves| == LeafSlots(e.size)
    requires forall x: nat :: LeafAt(leaves, x) == LeafAt(LeavesOf(disk, chunkSize, multi), x)
    requires BlockCount(e.size) <= LeafSlots(e.size) && !TreeOverflows(e.size, chunkSize, multi)
    requires NodesComparable(e.size, pieceSize, isal)
    ensures BitsMatch(original, disk, pieceSize, NewBits(e, leaves, bits, pieceSize, isal))
  {
    hide SubRoot, Pow2, Log2Floor, BlocksPerPieceLog, BlockDigests, LeafSlots, BlockCount, PieceMatches, NewBits,
      PieceBytes;
    var r := NewBits(e, leaves, bits, pieceSize, isal);
    forall i: nat | i < |r|
      ensures i * pieceSize <= |disk|
      ensures r[i] <==> PieceBytes(disk, pieceSize, i) == PieceBytes(original, pieceSize, i)
    {
      PieceInside(e.size, pieceSize, i);
      BitIsMatch(e, original, leaves, bits, pieceSize, isal, i);
      if LeavesOf(disk, chunkSize, multi) == BlockDigests(disk) {
        PieceMatchesBytes(e, original, disk, leaves, pieceSize, i);
      } else {
        ExtraLeafKeepsBit(e, original, disk, leaves, pieceSize, chunkSize, piecesPerChunk, i);
      }
    }
  }

  /** Where the nodes are comparable, the bits are those of comparing every piece in a rightly hashed tree. */
  lemma BitIsMatch(e: Entry, original: seq<byte>, leaves: seq<Digest>, bits: seq<bool>, pieceSize: nat, isal: bool,
                   i: nat)
    requires ValidPieceSize(pieceSize) && MadeFrom(e, original, pieceSize) && |leaves| == LeafSlots(e.size)
    requires |bits| == PieceSlots(e) && i < |bits| && NodesComparable(e.size, pieceSize, isal)
    ensures NewBits(e, leaves, bits, pieceSize, isal)[i] <==> PieceMatches(e, leaves, pieceSize, i)
  {
    hide SubRoot, MultiNode, Pow2, Log2Floor, BlocksPerPieceLog, BlockDigests, LeafSlots, BlockCount;
    SlotsOfBlocks(e.size);
    PieceLevelFits(e.size, pieceSize);
    MadeIsConsistent(e, original, pieceSize);
    ShortcutIsComparison(e, leaves, bits, pieceSize, i);
    if isal {
      var h, g := Log2Floor(|leaves|), BlocksPerPieceLog(pieceSize);
      if h <= 1 {
        LowTreeNodes(leaves, h, h, 0, true);
        if e.layer != [] {
          LowTreeNodes(leaves, h, g, i, true);
        }
        SameNodesSameBit(e, leaves, bits, pieceSize, i);
      } else {
        LayerIsLeaves(pieceSize);
        RootNeverMatches(e, original, leaves, pieceSize);
        OneBlockPieces(e, leaves, pieceSize, i);
      }
    }
  }

  lemma SameNodesSameBit(e: Entry, leaves: seq<Digest>, bits: seq<bool>, pieceSize: nat, i: nat)
    requires pieceSize >= BLOCK_SIZE && i < |bits|
    requires TreeRoot(leaves, true) == TreeRoot(leaves, false)
    requires e.layer != [] ==>
               TreeNode(leaves, Log2Floor(|leaves|), BlocksPerPieceLog(pieceSize), i, true)
               == SubRoot(leaves, BlocksPerPieceLog(pieceSize), i)
    ensures NewBits(e, leaves, bits, pieceSize, true)[i] <==> NewBits(e, leaves, bits, pieceSize, false)[i]
  {
    hide SubRoot, MultiNode, Log2Floor, BlocksPerPieceLog, DivCeil;
  }

  lemma LayerIsLeaves(pieceSize: nat)
    requires ValidPieceSize(pieceSize)
    ensures BlocksPerPieceLog(pieceSize) == 0 <==> pieceSize == BLOCK_SIZE
  {
    PieceIsBlocks(pieceSize);
  }

  lemma OneBlockPieces(e: Entry, leaves: seq<Digest>, pieceSize: nat, i: nat)
    requires pieceSize >= BLOCK_SIZE && BlocksPerPieceLog(pieceSize) == 0 && i < |e.layer|
    ensures TreeNode(leaves, Log2Floor(|leaves|), 0, i, true) == SubRoot(leaves, 0, i)
  {
  }

  /** In a tree of more than two leaves the multi-buffer update never makes the root of a metafile. */
  lemma RootNeverMatches(e: Entry, original: seq<byte>, leaves: seq<Digest>, pieceSize: nat)
    requires pieceSize >= BLOCK_SIZE && MadeFrom(e, original, pieceSize)
    requires Log2Floor(|leaves|) == Log2Ceil(BlockCount(e.size)) >= 2
    ensures e.root != Some(TreeRoot(leaves, true))
  {
    hide SubRoot, MultiNode, BlockDigests, BlockCount, Log2Floor, Log2Ceil;
    MultiRootIsLopsided(leaves, Log2Floor(|leaves|));
    RootHasNodes(BlockDigests(original), Log2Floor(|leaves|));
  }

  /** An intact file whose nodes are not comparable: the bit of its last piece stays clear. */
  lemma IntactIsIncomplete(e: Entry, content: seq<byte>, leaves: seq<Digest>, bits: seq<bool>, pieceSize: nat,
                           chunkSize: nat, multi: bool)
    requires ValidPieceSize(pieceSize) && MadeFrom(e, content, pieceSize) && chunkSize > 0
    requires |bits| == PieceSlots(e) && |leaves| == LeafSlots(e.size)
    requires forall x: nat :: LeafAt(leaves, x) == LeafAt(LeavesOf(content, chunkSize, multi), x)
    requires !NodesComparable(e.size, pieceSize, true)
    ensures !NewBits(e, leaves, bits, pieceSize, true)[|bits| - 1]
  {
    hide SubRoot, MultiNode, Pow2, Log2Floor, BlocksPerPieceLog, BlockDigests, LeafSlots, BlockCount;
    SlotsOfBlocks(e.size);
    PieceLevelFits(e.size, pieceSize);
    LayerIsLeaves(pieceSize);
    RootNeverMatches(e, content, leaves, pieceSize);
    if e.layer != [] {
      LastNodeDiffers(e, content, leaves, pieceSize, chunkSize, multi);
    }
  }

  lemma LastNodeDiffers(e: Entry, content: seq<byte>, leaves: seq<Digest>, pieceSize: nat, chunkSize: nat, multi: bool)
    requires ValidPieceSize(pieceSize) && MadeFrom(e, content, pieceSize) && chunkSize > 0 && e.layer != []
    requires forall x: nat :: LeafAt(leaves, x) == LeafAt(LeavesOf(content, chunkSize, multi), x)
    requires 0 < BlocksPerPieceLog(pieceSize) < Log2Floor(|leaves|)
    ensures var last := |e.layer| - 1;
            MultiNode(leaves, Log2Floor(|leaves|), BlocksPerPieceLog(pieceSize), last) != e.layer[last]
  {
    hide SubRoot, MultiNode, Pow2, Log2Floor, BlocksPerPieceLog, BlockDigests, BlockCount, DivCeil;
    var g, last := BlocksPerPieceLog(pieceSize), |e.layer| - 1;
    if MultiNode(leaves, Log2Floor(|leaves|), g, last) == e.layer[last] {
      MultiNodeInjective(leaves, BlockDigests(content), Log2Floor(|leaves|), g, last, last);
      MultiFirstLeafIsBehind(g, last);
      BehindLastPiece(content, pieceSize, chunkSize, multi, MultiFirstLeaf(g, last));
      FirstLeafIsProduct(g, last);
      FirstBlockOfPiece(content, pieceSize, last, FirstLeaf(g, last));
    }
  }

  /** No leaf behind the last piece has a byte. */
  lemma BehindLastPiece(content: seq<byte>, pieceSize: nat, chunkSize: nat, multi: bool, x: nat)
    requires ValidPieceSize(pieceSize) && chunkSize > 0
    requires x >= DivCeil(|content|, pieceSize) * Pow2(BlocksPerPieceLog(pieceSize))
    ensures LeafAt(LeavesOf(content, chunkSize, multi), x) in {Zero, Leaf([])}
  {
    hide Pow2, BlocksPerPieceLog, DivCeil;
    var n, m := DivCeil(|content|, pieceSize), Pow2(BlocksPerPieceLog(pieceSize));
    PieceIsBlocks(pieceSize);
    DivCeilAtMost(|content|, pieceSize, n);
    ScaledBound(|content|, n, m);
    DivCeilAtMost(|content|, BLOCK_SIZE, n * m);
  }

  lemma FirstBlockOfPiece(content: seq<byte>, pieceSize: nat, i: nat, x: nat)
    requires ValidPieceSize(pieceSize) && i < DivCeil(|content|, pieceSize) &&
               x == i * Pow2(BlocksPerPieceLog(pieceSize))
    ensures LeafAt(BlockDigests(content), x).Leaf? && LeafAt(BlockDigests(content), x).data != []
  {
    hide Pow2, BlocksPerPieceLog, DivCeil, BlockDigests;
    PieceIsBlocks(pieceSize);
    DivCeilCounts(|content|, pieceSize, i);
    PieceStart(i, Pow2(BlocksPerPieceLog(pieceSize)), pieceSize);
    DivCeilCounts(|content|, BLOCK_SIZE, x);
    BlockHasBytes(content, x);
  }

  lemma BlockHasBytes(content: seq<byte>, x: nat)
    requires x < BlockCount(|content|)
    ensures LeafAt(BlockDigests(content), x).Leaf? && LeafAt(BlockDigests(content), x).data != []
  {
    BlockStart(|content|, x);
  }

  /** Whole chunks are whole pieces; a tree with a spare slot is that of a file larger than a piece. */
  lemma WholeChunks(size: nat, pieceSize: nat, chunkSize: nat, piecesPerChunk: nat)
    requires ValidPieceSize(pieceSize) && chunkSize == piecesPerChunk * pieceSize > 0 && size > 0 &&
               size % chunkSize == 0
    ensures size == DivCeil(size, pieceSize) * pieceSize
    ensures BlockCount(size) != LeafSlots(size) ==> size > pieceSize
  {
    hide LeafSlots, BlocksPerPieceLog, BlockCount, DivCeil, ValidPieceSize;
    var n := PiecesOfChunks(size, pieceSize, chunkSize, piecesPerChunk);
    if size <= pieceSize {
      OnePieceFills(pieceSize);
    }
  }

  lemma PiecesOfChunks(size: nat, pieceSize: nat, chunkSize: nat, piecesPerChunk: nat) returns (n: nat)
    requires chunkSize == piecesPerChunk * pieceSize > 0 && size > 0 && size % chunkSize == 0
    ensures n == DivCeil(size, pieceSize) && size == n * pieceSize && size >= pieceSize
  {
    var q := size / chunkSize;
    n := q * piecesPerChunk;
    ProductOfThree(q, piecesPerChunk, pieceSize);
    DivUnique(size, n, 0, pieceSize);
    MulAtLeast(n, pieceSize);
  }

  lemma ProductOfThree(a: nat, b: nat, c: nat)
    ensures a * (b * c) == a * b * c
  {
  }

  lemma OnePieceFills(pieceSize: nat)
    requires ValidPieceSize(pieceSize)
    ensures BlockCount(pieceSize) == LeafSlots(pieceSize)
  {
    hide Pow2, Log2Floor, BlocksPerPieceLog;
    var g := BlocksPerPieceLog(pieceSize);
    PieceIsBlocks(pieceSize);
    SlotsOfBlocks(pieceSize);
    DivUnique(pieceSize, Pow2(g), 0, BLOCK_SIZE);
    Log2CeilOfPow2(g);
  }

  lemma Log2CeilOfPow2(g: nat)
    ensures Log2Ceil(Pow2(g)) == g
  {
    hide Log2Floor, Log2Ceil;
    Log2CeilLeast(Pow2(g));
    if Log2Ceil(Pow2(g)) < g {
      Pow2Monotone(Log2Ceil(Pow2(g)) + 1, g);
    }
  }

  /** The extra leaf is behind the last piece, so the nodes of the pieces are those of the file's own blocks. */
  lemma ExtraLeafKeepsBit(e: Entry, original: seq<byte>, disk: seq<byte>, leaves: seq<Digest>,
                          pieceSize: nat, chunkSize: nat, piecesPerChunk: nat, i: nat)
    requires ValidPieceSize(pieceSize) && MadeFrom(e, original, pieceSize) && |disk| == |original|
    requires chunkSize == piecesPerChunk * pieceSize > 0 && e.size % chunkSize == 0
    requires BlockCount(e.size) < LeafSlots(e.size) && i < Max(1, |e.layer|) && i * pieceSize <= |disk|
    requires forall x: nat :: LeafAt(leaves, x) == LeafAt(BlockDigests(disk) + [Leaf([])], x)
    ensures PieceMatches(e, leaves, pieceSize, i)
            <==> PieceBytes(disk, pieceSize, i) == PieceBytes(original, pieceSize, i)
  {
    hide SubRoot, Pow2, Log2Floor, BlocksPerPieceLog, LeafSlots, DivCeil, PieceBytes;
    var g, blocks := BlocksPerPieceLog(pieceSize), BlockDigests(disk);
    WholeChunks(e.size, pieceSize, chunkSize, piecesPerChunk);
    LeavesOfPiece(e.size, pieceSize, i);
    FirstLeafIsProduct(g, i);
    forall x: nat | FirstLeaf(g, i) <= x < FirstLeaf(g, i) + Pow2(g)
      ensures 0 <= x + 0 && LeafAt(leaves, x) == LeafAt(blocks, x + 0)
    {
      assert x < |blocks|;
    }
    SubRootReadsItsLeaves(leaves, blocks, g, i, i, 0);
    OnePieceBytes(disk, original, pieceSize, i);
  }

  /** The leaves of piece i of a file of whole pieces are among its blocks. */
  lemma LeavesOfPiece(size: nat, pieceSize: nat, i: nat)
    requires ValidPieceSize(pieceSize) && size == DivCeil(size, pieceSize) * pieceSize && i < DivCeil(size, pieceSize)
    ensures i * Pow2(BlocksPerPieceLog(pieceSize)) + Pow2(BlocksPerPieceLog(pieceSize)) <= BlockCount(size)
  {
    hide Pow2, BlocksPerPieceLog, DivCeil;
    var m := Pow2(BlocksPerPieceLog(pieceSize));
    PieceIsBlocks(pieceSize);
    MulMonotone(i + 1, DivCeil(size, pieceSize), pieceSize);
    PieceStart(i, m, pieceSize);
    if BlockCount(size) < i * m + m {
      DivCeilAtMost(size, BLOCK_SIZE, i * m + m - 1);
    }
  }

  lemma PieceInside(size: nat, pieceSize: nat, i: nat)
    requires pieceSize > 0 && i < Max(1, DivCeil(size, pieceSize))
    ensures i * pieceSize <= size
  {
    DivCeilAtMost(size, pieceSize, i);
  }

  // ---- The verifier object -------------------------------------------------------------------------------------

  /** The map with some bits written over from a position on. */
  function Overwritten(bits: seq<bool>, start: nat, written: seq<bool>): (r: seq<bool>)
    requires start + |written| <= |bits|
    ensures |r| == |bits|
  {
    bits[..start] + written + bits[start + |written|..]
  }

  function FileBits(storage: seq<Entry>, bits: seq<bool>, i: nat): seq<bool>
    requires i < |storage| && SlotsBefore(storage, i + 1) <= |bits|
  {
    bits[SlotsBefore(storage, i)..SlotsBefore(storage, i + 1)]
  }

  /** Writing the bits of one file leaves those of the others. */
  lemma OtherBitsKept(storage: seq<Entry>, bits: seq<bool>, f: nat, written: seq<bool>, i: nat)
    requires f < |storage| && i < |storage| && SlotsBefore(storage, |storage|) == |bits| &&
               |written| == PieceSlots(storage[f])
    ensures SlotsBefore(storage, f + 1) <= |bits| && SlotsBefore(storage, i + 1) <= |bits|
    ensures FileBits(storage, Overwritten(bits, SlotsBefore(storage, f), written), i)
            == if i == f then written else FileBits(storage, bits, i)
  {
    SlotsMonotone(storage, f + 1, |storage|);
    SlotsMonotone(storage, i + 1, |storage|);
    if i < f {
      SlotsMonotone(storage, i + 1, f);
    } else if f < i {
      SlotsMonotone(storage, f + 1, i);
    }
    var a, b := SlotsBefore(storage, f), SlotsBefore(storage, i);
    var n := PieceSlots(storage[i]);
    hide SlotsBefore;
    RangeOfOverwritten(bits, a, written, b, n);
  }

  lemma RangeOfOverwritten(bits: seq<bool>, a: nat, written: seq<bool>, b: nat, n: nat)
    requires a + |written| <= |bits| && b + n <= |bits|
    requires b + n <= a || a + |written| <= b || (a == b && n == |written|)
    ensures Overwritten(bits, a, written)[b..b + n]
            == if a == b && n == |written| then written else bits[b..b + n]
  {
  }

  /** The level of the pieces is in the tree of a file that is as large as a piece. */
  lemma LayerInTree(size: nat, pieceSize: nat)
    requires ValidPieceSize(pieceSize) && size >= pieceSize
    ensures BlocksPerPieceLog(pieceSize) <= Log2Floor(LeafSlots(size))
    ensures DivCeil(size, pieceSize) == (size + pieceSize - 1) / pieceSize
    ensures DivCeil(size, pieceSize) <= Pow2(Log2Floor(LeafSlots(size)) - BlocksPerPieceLog(pieceSize))
  {
    hide Log2Floor, BlocksPerPieceLog, LeafSlots;
    var g := BlocksPerPieceLog(pieceSize);
    SlotsOfBlocks(size);
    PieceLevelFits(size, pieceSize);
    DivCeilAsQuotient(size, pieceSize);
    PieceIsBlocks(pieceSize);
    if size == pieceSize {
      var h := Log2Ceil(BlockCount(size));
      DivCeilAtMost(size, BLOCK_SIZE, Pow2(g));
      Log2CeilLeast(BlockCount(size));
      DivCeilAtMost(size, BLOCK_SIZE, Pow2(h));
      Pow2Injective(g, h);
      DivCeilAtMost(size, pieceSize, 1);
    }
  }

  /** Blocks fill a piece exactly: a tree as high as the piece level has no smaller height. */
  lemma Pow2Injective(g: nat, h: nat)
    requires Pow2(g) * BLOCK_SIZE <= Pow2(h) * BLOCK_SIZE
    ensures g <= h
  {
    if h < g {
      Pow2Monotone(h + 1, g);
    }
  }
}
