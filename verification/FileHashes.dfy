/** The v2 hashes BEP 52 asks for: what a file's blocks, pieces root and piece layer are. */
module FileHashes {
  import opened Arith
  import opened Digests
  import opened Merkle

  function BlockCount(size: nat): nat { DivCeil(size, BLOCK_SIZE) }

  /** The digests of the 16 KiB blocks of a file; the last block may be shorter. */
  function BlockDigests(content: seq<byte>): (d: seq<Digest>)
    ensures |d| == BlockCount(|content|)
  {
    seq(BlockCount(|content|), i requires 0 <= i < BlockCount(|content|) =>
      BlockStart(|content|, i);
      Leaf(content[i * BLOCK_SIZE..Min((i + 1) * BLOCK_SIZE, |content|)]))
  }

  lemma BlockStart(size: nat, i: nat)
    requires i < BlockCount(size)
    ensures i * BLOCK_SIZE < size
  {
  }

  /** A piece size the library accepts: a power of two, at least one block (src/file_storage.cpp:125-132). */
  ghost predicate ValidPieceSize(pieceSize: nat) {
    pieceSize >= BLOCK_SIZE && pieceSize == Pow2(Log2Floor(pieceSize))
  }

  /** log2 of the number of blocks in a piece. */
  function BlocksPerPieceLog(pieceSize: nat): nat
    requires pieceSize >= BLOCK_SIZE
  {
    Log2Monotone(BLOCK_SIZE, pieceSize);
    Log2Floor(pieceSize) - Log2Floor(BLOCK_SIZE)
  }

  lemma {:induction false} Log2Monotone(a: nat, b: nat)
    requires a <= b
    ensures Log2Floor(a) <= Log2Floor(b)
  {
    if a > 1 {
      Log2Monotone(a / 2, b / 2);
    }
  }

  /** The root of the smallest complete tree over the blocks, missing leaves being zero. */
  function PiecesRoot(blocks: seq<Digest>): Digest
    requires |blocks| > 0
  {
    SubRoot(blocks, Log2Ceil(|blocks|), 0)
  }

  /** One digest per piece, for files larger than a piece; none otherwise. */
  function PieceLayer(blocks: seq<Digest>, size: nat, pieceSize: nat): (layer: seq<Digest>)
    requires pieceSize >= BLOCK_SIZE
    ensures layer != [] <==> size > pieceSize
  {
    if size <= pieceSize then []
    else seq(DivCeil(size, pieceSize), j requires 0 <= j => SubRoot(blocks, BlocksPerPieceLog(pieceSize), j))
  }

  lemma BlockSizeIsPow2()
    ensures Log2Floor(BLOCK_SIZE) == 14 && Pow2(14) == BLOCK_SIZE
  {
    assert Pow2(14) == 128 * Pow2(7);
    Log2FloorUnique(BLOCK_SIZE, 14);
  }

  /** A piece holds 2^g whole blocks. */
  lemma PieceIsBlocks(pieceSize: nat)
    requires ValidPieceSize(pieceSize)
    ensures pieceSize == Pow2(BlocksPerPieceLog(pieceSize)) * BLOCK_SIZE
  {
    BlockSizeIsPow2();
    Log2Monotone(BLOCK_SIZE, pieceSize);
    Pow2Add(BlocksPerPieceLog(pieceSize), 14);
  }

  /** x bytes make at most k groups of y bytes exactly when x <= k * y. */
  lemma DivCeilAtMost(x: nat, y: nat, k: nat)
    requires y > 0
    ensures DivCeil(x, y) <= k <==> x <= k * y
  {
    DivCeilCounts(x, y, k);
  }

  lemma ScaledBound(x: nat, a: nat, b: nat)
    ensures x <= (a * b) * BLOCK_SIZE <==> x <= a * (b * BLOCK_SIZE)
  {
  }

  /**
   * The tree over a file's blocks is higher than the piece level exactly when the file is larger than a piece,
   * and then its piece level has room for every piece.
   */
  lemma PieceLevelFits(size: nat, pieceSize: nat)
    requires ValidPieceSize(pieceSize) && size > 0
    ensures BlocksPerPieceLog(pieceSize) >= Log2Ceil(BlockCount(size)) <==> size <= pieceSize
    ensures size > pieceSize ==>
      DivCeil(size, pieceSize) <= Pow2(Log2Ceil(BlockCount(size)) - BlocksPerPieceLog(pieceSize))
  {
    hide Log2Floor;
    var n, g := BlockCount(size), BlocksPerPieceLog(pieceSize);
    var h := Log2Ceil(n);
    PieceIsBlocks(pieceSize);
    Log2CeilLeast(n);
    DivCeilAtMost(size, BLOCK_SIZE, Pow2(g));
    if h > g {
      DivCeilAtMost(size, BLOCK_SIZE, Pow2(h));
      Pow2Add(h - g, g);
      ScaledBound(size, Pow2(h - g), Pow2(g));
      DivCeilAtMost(size, pieceSize, Pow2(h - g));
    }
  }

  /** Lists that agree once padded with zero digests have the same subtree roots. */
  lemma SameLeavesSameRoots(a: seq<Digest>, b: seq<Digest>, h: nat, i: nat)
    requires forall x: nat :: LeafAt(a, x) == LeafAt(b, x)
    ensures SubRoot(a, h, i) == SubRoot(b, h, i)
  {
    forall x: nat
      ensures 0 <= x + 0 && LeafAt(a, x) == LeafAt(b, x + 0)
    {
    }
    SubRootReadsItsLeaves(a, b, h, i, i, 0);
  }

  /** The root of a tree over block digests is not a node of a higher tree. */
  lemma {:induction false} HeightsDiffer(a: seq<Digest>, b: seq<Digest>, g: nat, h: nat, i: nat, j: nat)
    requires g < h && forall x: nat :: !LeafAt(a, x).Node?
    ensures SubRoot(a, g, i) != SubRoot(b, h, j)
  {
    if g > 0 {
      HeightsDiffer(a, b, g - 1, h - 1, 2 * i, 2 * j);
    }
  }

  lemma BlocksAreLeaves(content: seq<byte>, x: nat)
    ensures if x < BlockCount(|content|) then LeafAt(BlockDigests(content), x).Leaf?
              else LeafAt(BlockDigests(content), x).Zero?
  {
  }

  /** Contents whose blocks have the same digests are the same. */
  lemma SameBlocksSameContent(c: seq<byte>, d: seq<byte>)
    requires BlockDigests(c) == BlockDigests(d) && c != [] && d != []
    ensures c == d
  {
    var n := BlockCount(|c|);
    LastBlock(c);
    LastBlock(d);
    forall p | 0 <= p < |c| ensures c[p] == d[p] {
      var x := p / BLOCK_SIZE;
      assert BlockDigests(c)[x].data[p - x * BLOCK_SIZE] == c[p];
      assert BlockDigests(d)[x].data[p - x * BLOCK_SIZE] == d[p];
    }
  }

  lemma LastBlock(c: seq<byte>)
    requires c != []
    ensures var n := BlockCount(|c|);
            n > 0 && BlockDigests(c)[n - 1].Leaf? && |c| == (n - 1) * BLOCK_SIZE + |BlockDigests(c)[n - 1].data|
  {
    BlockStart(|c|, BlockCount(|c|) - 1);
  }

  lemma SameLeaves(c: seq<byte>, d: seq<byte>, h: nat)
    requires BlockCount(|c|) <= Pow2(h) && BlockCount(|d|) <= Pow2(h)
    requires forall x: nat :: x < Pow2(h) ==> LeafAt(BlockDigests(c), x) == LeafAt(BlockDigests(d), x)
    ensures BlockDigests(c) == BlockDigests(d)
  {
    hide BlockCount, BlockDigests, Pow2;
    var m, n := BlockCount(|c|), BlockCount(|d|);
    if m > 0 {
      BlocksAreLeaves(c, m - 1);
      BlocksAreLeaves(d, m - 1);
    }
    if n > 0 {
      BlocksAreLeaves(c, n - 1);
      BlocksAreLeaves(d, n - 1);
    }
    forall x | 0 <= x < m ensures BlockDigests(c)[x] == BlockDigests(d)[x] {
      assert LeafAt(BlockDigests(c), x) == LeafAt(BlockDigests(d), x);
    }
  }

  /** Hashes being injective, the pieces root identifies the content of a file, its size included. */
  lemma RootIdentifiesContent(c: seq<byte>, d: seq<byte>)
    requires c != [] && d != [] && PiecesRoot(BlockDigests(c)) == PiecesRoot(BlockDigests(d))
    ensures c == d
  {
    hide BlockCount, BlockDigests, Pow2, Log2Ceil, SubRoot;
    LastBlock(c);
    LastBlock(d);
    var g, h := Log2Ceil(BlockCount(|c|)), Log2Ceil(BlockCount(|d|));
    forall x: nat ensures !LeafAt(BlockDigests(c), x).Node? && !LeafAt(BlockDigests(d), x).Node? {
      BlocksAreLeaves(c, x);
      BlocksAreLeaves(d, x);
    }
    if g < h {
      HeightsDiffer(BlockDigests(c), BlockDigests(d), g, h, 0, 0);
    } else if h < g {
      HeightsDiffer(BlockDigests(d), BlockDigests(c), h, g, 0, 0);
    } else {
      Log2CeilLeast(BlockCount(|c|));
      Log2CeilLeast(BlockCount(|d|));
      FirstLeafIsProduct(h, 0);
      forall x: nat | x < Pow2(h) ensures LeafAt(BlockDigests(c), x) == LeafAt(BlockDigests(d), x) {
        SubRootInjective(BlockDigests(c), BlockDigests(d), h, 0, 0, x);
      }
      SameLeaves(c, d, h);
      SameBlocksSameContent(c, d);
    }
  }
}
