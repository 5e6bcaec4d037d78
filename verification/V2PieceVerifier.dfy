/** The verifier object: trees, counters, the offset table and the shared piece map. */
module V2PieceVerifierObject {
  import opened Arith
  import opened Digests
  import opened Merkle
  import opened FileHashes
  import opened Options
  import opened PieceWriter
  import opened PieceVerifier

  /** Only files of at least a piece have a piece layer, and the map stays below the range of its size variable. */
  ghost predicate ValidEntries(storage: seq<Entry>, pieceSize: nat) {
    && (forall e :: e in storage ==> BlockCount(e.size) <= Pow2(MAX_HEIGHT))
    && (forall e :: e in storage && e.layer != [] ==> e.size >= pieceSize)
    && SlotsBefore(storage, |storage|) < 0x8000_0000
  }

  /** `has_v2_data` of every entry that is not padding: without it `piece_layer()` throws. */
  ghost predicate HasV2Data(storage: seq<Entry>) {
    forall e :: e in storage && !e.padding ==> e.root.Some?
  }

  class V2PieceVerifier {
    const pieceSize: nat
    const isal: bool
    const storage: seq<Entry>
    const trees: seq<MerkleTree>
    const fileOffsets: seq<nat>
    var blocksHashed: seq<nat>
    var pieceMap: seq<bool>

    ghost predicate TreeOf(i: nat)
      requires i < |trees| && i < |storage|
      reads trees
    {
      if storage[i].padding then trees[i].data == []
      else trees[i].Valid() && |trees[i].Leaves()| == LeafSlots(storage[i].size) && (isal ==> trees[i].MultiReady())
    }

    ghost predicate Valid()
      reads this, trees
    {
      && ValidPieceSize(pieceSize) && ValidEntries(storage, pieceSize) && HasV2Data(storage)
      && |storage| == |trees| == |blocksHashed|
      && fileOffsets == OffsetTable(storage)
      && |pieceMap| == SlotsBefore(storage, |storage|)
      && (forall i, j :: 0 <= i < j < |trees| ==> trees[i] != trees[j])
      && (forall i: nat :: i < |storage| ==> TreeOf(i))
    }

    ghost function CheckAt(i: nat): FileCheck
      requires Valid() && i < |storage|
      reads this, trees
    {
      assert TreeOf(i);
      SlotsMonotone(storage, i + 1, |storage|);
      FileCheck(if storage[i].padding then [] else trees[i].Leaves(), blocksHashed[i], storage[i],
                FileBits(storage, pieceMap, i))
    }

    /** The members, once the trees and offsets are made. */
    constructor (storage: seq<Entry>, pieceSize: nat, isal: bool, made: seq<MerkleTree>, offsets: seq<nat>)
      requires ValidPieceSize(pieceSize) && ValidEntries(storage, pieceSize) && HasV2Data(storage)
      requires |made| == |storage| && offsets == OffsetTable(storage)
      requires forall j, k :: 0 <= j < k < |made| ==> made[j] != made[k]
      requires forall j :: 0 <= j < |made| ==> V2PieceWriter.FreshTree(made[j], storage[j])
      ensures Valid() && this.pieceSize == pieceSize && this.isal == isal && this.storage == storage && trees == made
      ensures forall i: nat :: i < |storage| ==> CheckAt(i) == FreshCheck(storage[i])
    {
      hide Log2Floor, Pow2, SlotsBefore, LeafSlots, OffsetTable, HasV2Data;
      this.pieceSize, this.isal := pieceSize, isal;
      this.storage := storage;
      var mapSize := MapSize(storage);
      trees := made;
      fileOffsets := offsets;
      blocksHashed := seq(|storage|, _ => 0);
      pieceMap := Cleared(mapSize);
      new;
      forall j: nat | j < |storage| ensures TreeOf(j) {
        assert V2PieceWriter.FreshTree(trees[j], storage[j]);
      }
      forall j: nat | j < |storage| ensures CheckAt(j) == FreshCheck(storage[j]) {
        assert V2PieceWriter.FreshTree(trees[j], storage[j]);
        BlankBits(storage, pieceMap, j);
      }
    }

    /** A verifier for a storage; the source's constructor throws, here null, for a regular entry without v2 data. */
    static method Create(storage: seq<Entry>, pieceSize: nat, isal: bool) returns (verifier: V2PieceVerifier?)
      requires ValidPieceSize(pieceSize) && ValidEntries(storage, pieceSize)
      ensures verifier == null <==> !HasV2Data(storage)
      ensures verifier != null ==>
                && fresh(verifier) && verifier.Valid() && fresh(verifier.trees)
                && verifier.pieceSize == pieceSize && verifier.isal == isal && verifier.storage == storage
                && forall i: nat :: i < |storage| ==> verifier.CheckAt(i) == FreshCheck(storage[i])
    {
      hide ValidEntries, HasV2Data, FreshCheck;
      var ok, made, offsets := InitializeOffsetsAndTrees(storage, pieceSize);
      if !ok {
        return null;
      }
      verifier := new V2PieceVerifier(storage, pieceSize, isal, made, offsets);
    }

    /** One tree and one offset per file, in one pass, which ends at a regular entry without v2 data. */
    static method InitializeOffsetsAndTrees(storage: seq<Entry>, pieceSize: nat)
      returns (ok: bool, made: seq<MerkleTree>, offsets: seq<nat>)
      requires ValidEntries(storage, pieceSize)
      ensures ok <==> HasV2Data(storage)
      ensures ok ==>
                && |made| == |storage| && fresh(made)
                && (forall j, k :: 0 <= j < k < |made| ==> made[j] != made[k])
                && (forall j :: 0 <= j < |made| ==> V2PieceWriter.FreshTree(made[j], storage[j]))
                && offsets == OffsetTable(storage)
    {
      hide Log2Floor, Pow2, SlotsBefore, LeafSlots, OffsetTable;
      offsets := [0];
      made := [];
      var i := 0;
      NoOffsetsYet(storage);
      while i < |storage|
        invariant 0 <= i == |made| <= |storage| && fresh(made)
        invariant offsets == OffsetTable(storage[..i])
        invariant forall j :: 0 <= j < i ==> storage[j].padding || storage[j].root.Some?
        invariant forall j, k :: 0 <= j < k < |made| ==> made[j] != made[k]
        invariant forall j :: 0 <= j < |made| ==> V2PieceWriter.FreshTree(made[j], storage[j])
      {
        OffsetsNext(storage, i);
        OffsetIsSmall(storage, i);
        var tree: MerkleTree;
        if storage[i].padding {
          tree := new MerkleTree.Default();
          var offset := offsets[|offsets| - 1];
          offsets := offsets[|offsets| - 1 := NO_OFFSET];
          offsets := offsets + [offset];
        } else {
          tree := new MerkleTree(BlockCount(storage[i].size));
          V2PieceWriter.SlotsOfNewTree(tree, storage[i].size);
          if storage[i].root.None? {
            assert storage[i] in storage;
            return false, made, offsets;
          }
          var slots := Max(1, |storage[i].layer|);
          // The mark is never last: a padding file pushes the offset it took over behind it.
          assert offsets[|offsets| - 1] != NO_OFFSET;
          var previous := offsets[|offsets| - 1];
          offsets := offsets + [previous + slots];
        }
        made := made + [tree];
        i := i + 1;
      }
      assert storage[..|storage|] == storage;
      ok := true;
    }

    static method MapSize(storage: seq<Entry>) returns (size: nat)
      ensures size == SlotsBefore(storage, |storage|)
    {
      size := 0;
      for i := 0 to |storage|
        invariant size == SlotsBefore(storage, i)
      {
        if storage[i].padding {
          continue;
        }
        if |storage[i].layer| != 0 {
          size := size + |storage[i].layer|;
        } else {
          size := size + 1;
        }
      }
    }

    /** Stores the leaf and, once as many leaves as blocks have come, decides the bits of the file. */
    method VerifyFinishedPiece(piece: HashedBlock)
      requires Valid() && piece.file < |storage| && !storage[piece.file].padding
      requires piece.leaf < |CheckAt(piece.file).leaves|
      modifies this, trees
      ensures Valid()
      ensures CheckAt(piece.file) == CheckBlock(old(CheckAt(piece.file)), piece.leaf, piece.hash, pieceSize, isal)
      ensures forall i: nat :: i < |storage| && i != piece.file ==> CheckAt(i) == old(CheckAt(i))
    {
      hide Log2Floor, Pow2, SubRoot, MultiNode, SlotsBefore, LeafSlots, NewBits, OffsetTable, ValidEntries, HasV2Data,
        FileBits;
      var f := piece.file;
      assert TreeOf(f);
      trees[f].SetLeaf(piece.leaf, piece.hash);
      var blocksInFile := BlockCount(storage[f].size);
      var earlier := blocksHashed[f];
      blocksHashed := blocksHashed[f := earlier + 1];
      forall i: nat | i < |storage| ensures TreeOf(i) {
        assert old(TreeOf(i));
      }
      assert forall i: nat :: i < |storage| && i != f ==> CheckAt(i) == old(CheckAt(i));
      if blocksInFile <= earlier + 1 {
        VerifyPieceLayersAndRoot(f);
      }
    }

    /** Hashes the tree of file f and writes its bits. */
    method VerifyPieceLayersAndRoot(f: nat)
      requires Valid() && f < |storage| && !storage[f].padding
      modifies this`pieceMap, trees[f]
      ensures Valid()
      ensures var before := old(CheckAt(f));
              CheckAt(f) == before.(bits := NewBits(storage[f], before.leaves, before.bits, pieceSize, isal))
      ensures forall i: nat :: i < |storage| && i != f ==> CheckAt(i) == old(CheckAt(i))
    {
      hide Log2Floor, Pow2, SubRoot, MultiNode, LeafSlots, SlotsBefore, NewBits, DivCeil, FileBits;
      assert TreeOf(f);
      ghost var before := pieceMap;
      ghost var leaves := trees[f].Leaves();
      if isal {
        trees[f].UpdateMulti();
      } else {
        trees[f].Update();
      }
      forall i: nat | i < |storage| ensures TreeOf(i) {
        assert old(TreeOf(i));
      }
      WriteBits(f);
      forall i: nat | i < |storage|
        ensures SlotsBefore(storage, i + 1) <= |before|
        ensures FileBits(storage, pieceMap, i) ==
                if i == f then NewBits(storage[f], leaves, FileBits(storage, before, f), pieceSize, isal)
                  else FileBits(storage, before, i)
      {
        WrittenBits(storage, before, pieceMap, f, leaves, pieceSize, i, isal);
      }
    }

    /** The bits of a file whose tree is hashed. */
    method WriteBits(f: nat)
      requires Valid() && f < |storage| && !storage[f].padding && trees[f].Valid()
      requires if isal then trees[f].MultiHashed() else trees[f].Hashed()
      modifies this`pieceMap
      ensures SlotsBefore(storage, f + 1) <= |old(pieceMap)| == |pieceMap|
      ensures pieceMap == Overwritten(old(pieceMap), SlotsBefore(storage, f),
                            NewBits(storage[f], trees[f].Leaves(), FileBits(storage, old(pieceMap), f), pieceSize,
                                    isal))
    {
      hide Log2Floor, Pow2, SubRoot, MultiNode, LeafSlots, SlotsBefore, DivCeil, Overwritten, NewBits;
      var entry := storage[f];
      var entryIndex := fileOffsets[f];
      assert TreeOf(f) && entry in storage;
      RangeOfFile(storage, pieceMap, f);
      V2PieceWriter.HeightOfSlots(trees[f]);
      var root := trees[f].Root();
      ghost var leaves := trees[f].Leaves();
      ghost var bits := FileBits(storage, pieceMap, f);
      if entry.root == Some(root) {
        AllSet(entry, leaves, bits, pieceSize, isal);
        FillBits(entryIndex, if |entry.layer| == 0 then 1 else |entry.layer|, true);
      } else if |entry.layer| == 0 {
        OneCleared(entry, leaves, bits, pieceSize, isal);
        FillBits(entryIndex, 1, false);
      } else {
        var layer := PieceNodes(f);
        Compared(entry, leaves, bits, layer, pieceSize, isal);
        CompareBits(entryIndex, layer, entry.layer, bits);
      }
    }

    /** The nodes of the pieces of file f, cut out of its tree. */
    method PieceNodes(f: nat) returns (layer: seq<Digest>)
      requires Valid() && f < |storage| && storage[f].size >= pieceSize && !storage[f].padding
      requires trees[f].Valid() && if isal then trees[f].MultiHashed() else trees[f].Hashed()
      ensures layer == TreeLevel(trees[f].Leaves(), BlocksPerPieceLog(pieceSize), DivCeil(storage[f].size, pieceSize),
                                 isal)
    {
      hide Log2Floor, Pow2, SubRoot, MultiNode, LeafSlots, SlotsBefore, DivCeil;
      assert TreeOf(f);
      V2PieceWriter.HeightOfSlots(trees[f]);
      LayerInTree(storage[f].size, pieceSize);
      Log2Monotone(BLOCK_SIZE, pieceSize);
      var layerOffset := Log2Floor(pieceSize) - Log2Floor(BLOCK_SIZE);
      var layerDepth := trees[f].TreeHeight() - layerOffset;
      layer := trees[f].GetLayer(layerDepth);
      layer := layer[..(storage[f].size + pieceSize - 1) / pieceSize];
    }

    method FillBits(start: nat, n: nat, value: bool)
      requires start + n <= |pieceMap|
      modifies this`pieceMap
      ensures pieceMap == Overwritten(old(pieceMap), start, seq(n, _ => value))
    {
      ghost var before := pieceMap;
      for i := 0 to n
        invariant |pieceMap| == |before|
        invariant forall k :: 0 <= k < |before| ==> pieceMap[k] == if start <= k < start + i then value else before[k]
      {
        pieceMap := pieceMap[start + i := value];
      }
    }

    /** One comparison per piece of the shorter of both layers; `bits` are those of the file before. */
    method CompareBits(start: nat, layer: seq<Digest>, reference: seq<Digest>, ghost bits: seq<bool>)
      requires start + |bits| <= |pieceMap| && |bits| == |reference| && pieceMap[start..start + |bits|] == bits
      modifies this`pieceMap
      ensures pieceMap == Overwritten(old(pieceMap), start, ComparedBits(layer, reference, bits))
    {
      ghost var before := pieceMap;
      var maxOffset := Min(|layer|, |reference|);
      for i := 0 to maxOffset
        invariant |pieceMap| == |before|
        invariant forall k :: 0 <= k < |before| ==>
                    pieceMap[k] == if start <= k < start + i then layer[k - start] == reference[k - start]
                      else before[k]
      {
        pieceMap := pieceMap[start + i := layer[i] == reference[i]];
      }
      forall i | 0 <= i < |bits| ensures before[start + i] == bits[i] {
        assert before[start..start + |bits|][i] == bits[i];
      }
    }

    /** Complete pieces of a file, in percent: the share of set bits among its own. */
    method Percentage(f: nat) returns (percent: real)
      requires Valid() && f < |storage|
      ensures storage[f].padding || storage[f].size == 0 ==> percent == 100.0
      ensures !storage[f].padding && storage[f].size != 0 ==>
                percent * PieceSlots(storage[f]) as real == 100.0 * |SetBits(CheckAt(f).bits)| as real
      ensures 0.0 <= percent <= 100.0
      ensures percent == 100.0 <==> (storage[f].padding || storage[f].size == 0 || AllComplete(CheckAt(f).bits))
    {
      hide SlotsBefore, LeafSlots, Percent, CompletePieces, OffsetTable, ValidEntries, SetBits, AllComplete;
      RangeOfFile(storage, pieceMap, f);
      if storage[f].padding || storage[f].size == 0 {
        return 100.0;
      }
      var pieces := 1;
      if |storage[f].layer| > 0 {
        pieces := |storage[f].layer|;
      }
      var first := SlotsInFront(storage, f);
      var bits := pieceMap[first..first + pieces];
      percent := Percent(CompletePieces(bits), pieces);
      PercentOfBits(bits);
    }

    static method SlotsInFront(storage: seq<Entry>, f: nat) returns (first: nat)
      requires f <= |storage|
      ensures first == SlotsBefore(storage, f)
    {
      first := 0;
      for i := 0 to f
        invariant first == SlotsBefore(storage, i)
      {
        first := first + if storage[i].padding then 0 else Max(1, |storage[i].layer|);
      }
    }
  }

  /** The nodes of a hashed tree g levels above the leaves. */
  function TreeLevel(leaves: seq<Digest>, g: nat, n: nat, isal: bool): seq<Digest> {
    seq(n, j requires 0 <= j => TreeNode(leaves, Log2Floor(|leaves|), g, j, isal))
  }

  /** Piece by piece as far as both layers go. */
  function ComparedBits(layer: seq<Digest>, reference: seq<Digest>, bits: seq<bool>): (r: seq<bool>)
    ensures |r| == |bits|
  {
    seq(|bits|, i requires 0 <= i < |bits| =>
      if i < |layer| && i < |reference| then layer[i] == reference[i] else bits[i])
  }

  function Percent(n: nat, total: nat): real
    requires total > 0
  {
    n as real / total as real * 100.0
  }

  /** The number of set bits. */
  function CompletePieces(bits: seq<bool>): nat {
    if bits == [] then 0 else CompletePieces(bits[..|bits| - 1]) + if bits[|bits| - 1] then 1 else 0
  }

  ghost function SetBits(bits: seq<bool>): set<nat> {
    set k: nat | k < |bits| && bits[k]
  }

  lemma {:induction false} CountIsSetBits(bits: seq<bool>)
    ensures CompletePieces(bits) == |SetBits(bits)|
  {
    if bits != [] {
      var n := |bits| - 1;
      CountIsSetBits(bits[..n]);
      assert SetBits(bits) == SetBits(bits[..n]) + if bits[n] then {n} else {};
    }
  }

  lemma PercentOf(n: nat, total: nat)
    requires n <= total && total > 0
    ensures Percent(n, total) * total as real == 100.0 * n as real
    ensures 0.0 <= Percent(n, total) <= 100.0
  {
    var ratio := n as real / total as real;
    assert ratio * total as real == n as real;
    assert 0.0 <= ratio <= 1.0;
  }

  /** A percentage is the share of set bits, and 100 exactly when all are. */
  lemma PercentOfBits(bits: seq<bool>)
    requires bits != []
    ensures var percent := Percent(CompletePieces(bits), |bits|);
            && percent * |bits| as real == 100.0 * |SetBits(bits)| as real
            && 0.0 <= percent <= 100.0 && (percent == 100.0 <==> AllComplete(bits))
  {
    hide Percent, AllComplete;
    CompleteCount(bits);
    CountIsSetBits(bits);
    PercentOf(CompletePieces(bits), |bits|);
    FullPercent(bits);
  }

  ghost predicate AllComplete(bits: seq<bool>) {
    forall k :: 0 <= k < |bits| ==> bits[k]
  }

  lemma {:induction false} CompleteCount(bits: seq<bool>)
    ensures CompletePieces(bits) <= |bits|
    ensures CompletePieces(bits) == |bits| <==> AllComplete(bits)
  {
    if bits != [] {
      CompleteCount(bits[..|bits| - 1]);
      if AllComplete(bits) {
        assert AllComplete(bits[..|bits| - 1]);
      }
      if CompletePieces(bits) == |bits| {
        forall k | 0 <= k < |bits| ensures bits[k] {
          assert k < |bits| - 1 ==> bits[k] == bits[..|bits| - 1][k];
        }
      }
    }
  }

  /** A file is at 100 percent exactly when all its bits are set. */
  lemma FullPercent(bits: seq<bool>)
    requires bits != []
    ensures Percent(CompletePieces(bits), |bits|) == 100.0 <==> AllComplete(bits)
  {
    CompleteCount(bits);
    RatioIsOne(CompletePieces(bits) as real, |bits| as real);
  }

  lemma RatioIsOne(n: real, total: real)
    requires total > 0.0
    ensures n / total * 100.0 == 100.0 <==> n == total
  {
    var q := n / total;
    assert q * total == n;
    if n == total {
      ProductIsPositive(q - 1.0, total);
      ProductIsPositive(1.0 - q, total);
    }
  }

  lemma ProductIsPositive(a: real, b: real)
    requires b > 0.0
    ensures a > 0.0 ==> a * b > 0.0
  {
  }

  lemma NoOffsetsYet(storage: seq<Entry>)
    ensures OffsetTable(storage[..0]) == [0]
  {
  }

  /** Offsets stay below the mark for padding files. */
  lemma OffsetIsSmall(storage: seq<Entry>, i: nat)
    requires i < |storage| && SlotsBefore(storage, |storage|) < 0x8000_0000
    ensures SlotsBefore(storage, i) < NO_OFFSET
  {
    SlotsMonotone(storage, i, |storage|);
  }

  lemma BlankBits(storage: seq<Entry>, bits: seq<bool>, i: nat)
    requires i < |storage| && |bits| == SlotsBefore(storage, |storage|) && forall k :: 0 <= k < |bits| ==> !bits[k]
    ensures SlotsBefore(storage, i + 1) <= |bits| && FileBits(storage, bits, i) == Cleared(PieceSlots(storage[i]))
  {
    hide SlotsBefore, PieceSlots, Cleared, FileBits;
    RangeOfFile(storage, bits, i);
    ClearedRange(bits, SlotsBefore(storage, i), PieceSlots(storage[i]));
  }

  lemma ClearedRange(bits: seq<bool>, a: nat, n: nat)
    requires a + n <= |bits| && forall k :: 0 <= k < |bits| ==> !bits[k]
    ensures bits[a..a + n] == Cleared(n)
  {
    var range := bits[a..a + n];
    forall k | 0 <= k < n ensures !range[k] {
      assert range[k] == bits[a + k];
    }
  }

  lemma RangeOfFile(storage: seq<Entry>, bits: seq<bool>, f: nat)
    requires f < |storage| && |bits| == SlotsBefore(storage, |storage|)
    ensures SlotsBefore(storage, f + 1) <= |bits|
    ensures SlotsBefore(storage, f + 1) == SlotsBefore(storage, f) + PieceSlots(storage[f])
    ensures FileBits(storage, bits, f)
              == bits[SlotsBefore(storage, f)..SlotsBefore(storage, f) + PieceSlots(storage[f])]
  {
    SlotsMonotone(storage, f + 1, |storage|);
  }

  lemma WrittenBits(storage: seq<Entry>, before: seq<bool>, after: seq<bool>, f: nat, leaves: seq<Digest>,
                    pieceSize: nat, i: nat, isal: bool)
    requires pieceSize >= BLOCK_SIZE && f < |storage| && i < |storage| && |before| == SlotsBefore(storage, |storage|)
    requires SlotsBefore(storage, f + 1) <= |before|
    requires after == Overwritten(before, SlotsBefore(storage, f),
                                  NewBits(storage[f], leaves, FileBits(storage, before, f), pieceSize, isal))
    ensures SlotsBefore(storage, i + 1) <= |before| == |after|
    ensures FileBits(storage, after, i) ==
            if i == f then NewBits(storage[f], leaves, FileBits(storage, before, f), pieceSize, isal)
              else FileBits(storage, before, i)
  {
    hide NewBits;
    OtherBitsKept(storage, before, f, NewBits(storage[f], leaves, FileBits(storage, before, f), pieceSize, isal), i);
  }

  lemma AllSet(e: Entry, leaves: seq<Digest>, bits: seq<bool>, pieceSize: nat, isal: bool)
    requires pieceSize >= BLOCK_SIZE && e.root == Some(TreeRoot(leaves, isal)) && |bits| == Max(1, |e.layer|)
    ensures NewBits(e, leaves, bits, pieceSize, isal) == seq(if |e.layer| == 0 then 1 else |e.layer|, _ => true)
  {
  }

  lemma OneCleared(e: Entry, leaves: seq<Digest>, bits: seq<bool>, pieceSize: nat, isal: bool)
    requires pieceSize >= BLOCK_SIZE && e.root != Some(TreeRoot(leaves, isal)) && e.layer == [] && |bits| == 1
    ensures NewBits(e, leaves, bits, pieceSize, isal) == seq(1, _ => false)
  {
  }

  lemma Compared(e: Entry, leaves: seq<Digest>, bits: seq<bool>, layer: seq<Digest>, pieceSize: nat, isal: bool)
    requires pieceSize >= BLOCK_SIZE && e.root != Some(TreeRoot(leaves, isal)) && e.layer != [] && |bits| == |e.layer|
    requires layer == TreeLevel(leaves, BlocksPerPieceLog(pieceSize), DivCeil(e.size, pieceSize), isal)
    ensures NewBits(e, leaves, bits, pieceSize, isal) == ComparedBits(layer, e.layer, bits)
  {
    hide TreeNode, DivCeil, BlocksPerPieceLog, Log2Floor;
  }
}
