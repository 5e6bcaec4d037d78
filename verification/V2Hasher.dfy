/** The v2 chunk hashers of src/v2_chunk_hasher_sb.cpp and src/v2_chunk_hasher_mb.cpp: chunks become leaf digests. */
module V2Hasher {
  import opened Arith
  import opened Digests
  import opened Flatten
  import opened FileHashes
  import opened Options
  import opened Storage
  import opened V2Reader
  import opened Pieces
  import opened PieceWriter

  // ---- Which leaves a chunk produces -------------------------------------------------------------------------

  /** Index of a chunk's first block in its file. */
  function FirstLeafIndex(chunk: Chunk, pieceSize: nat): nat {
    chunk.pieceIndex * pieceSize / BLOCK_SIZE
  }

  /** The single-buffer hasher always hashes a final block, so an empty chunk yields the digest of no bytes. */
  function SingleBufferLeaves(data: seq<byte>): seq<Digest> {
    if data == [] then [Leaf([])] else BlockDigests(data)
  }

  /** Leaf messages of a chunk; `multi` selects the multi-buffer hasher, which skips empty chunks. */
  function ChunkMessages(chunk: Chunk, pieceSize: nat, multi: bool): seq<HashedBlock> {
    if chunk.data.None? then []
    else LeafMessagesFrom(chunk.fileIndex, FirstLeafIndex(chunk, pieceSize),
                          if multi then BlockDigests(chunk.data.value) else SingleBufferLeaves(chunk.data.value))
  }

  function Emit(pieceSize: nat, multi: bool): Chunk -> seq<HashedBlock> {
    chunk => ChunkMessages(chunk, pieceSize, multi)
  }

  function AllMessages(chunks: seq<Chunk>, pieceSize: nat, multi: bool): seq<HashedBlock> {
    FlatMap(Emit(pieceSize, multi), chunks)
  }

  // ---- Leaf coverage -----------------------------------------------------------------------------------------

  /**
   * The leaves a file on disk contributes: its blocks, and for the single-buffer hasher one more when the reader ends
   * on an empty chunk.
   */
  function LeavesOf(content: seq<byte>, chunkSize: nat, multi: bool): (r: seq<Digest>)
    requires chunkSize > 0
  {
    BlockDigests(content) + if !multi && |content| % chunkSize == 0 then [Leaf([])] else []
  }

  /** Chunk sizes are whole pieces and pieces whole blocks. */
  ghost predicate Sizes(pieceSize: nat, blocksPerPiece: nat, chunkSize: nat, piecesPerChunk: nat) {
    pieceSize == blocksPerPiece * BLOCK_SIZE && chunkSize == piecesPerChunk * pieceSize && chunkSize > 0
  }

  lemma LeafIndexOfPiece(piece: nat, pieceSize: nat, blocksPerPiece: nat)
    requires pieceSize == blocksPerPiece * BLOCK_SIZE
    ensures piece * pieceSize / BLOCK_SIZE == piece * blocksPerPiece
  {
    assert piece * pieceSize == (piece * blocksPerPiece) * BLOCK_SIZE + 0;
    DivUnique(piece * pieceSize, piece * blocksPerPiece, 0, BLOCK_SIZE);
  }

  /** A prefix of whole blocks and the rest have the file's blocks between them. */
  lemma BlocksSplit(content: seq<byte>, blocks: nat)
    requires blocks * BLOCK_SIZE <= |content|
    ensures |BlockDigests(content[..blocks * BLOCK_SIZE])| == blocks
    ensures BlockDigests(content)
              == BlockDigests(content[..blocks * BLOCK_SIZE]) + BlockDigests(content[blocks * BLOCK_SIZE..])
  {
    var cut := blocks * BLOCK_SIZE;
    var head, tail := content[..cut], content[cut..];
    assert BlockCount(|head|) == blocks && BlockCount(|tail|) == BlockCount(|content|) - blocks;
    forall i | 0 <= i < BlockCount(|content|)
      ensures BlockDigests(content)[i] == (BlockDigests(head) + BlockDigests(tail))[i]
    {
      if i < blocks {
        assert head[i * BLOCK_SIZE..(i + 1) * BLOCK_SIZE] == content[i * BLOCK_SIZE..(i + 1) * BLOCK_SIZE];
      } else {
        var j := i - blocks;
        var from, to := j * BLOCK_SIZE, Min((j + 1) * BLOCK_SIZE, |tail|);
        assert i * BLOCK_SIZE == cut + from && Min((i + 1) * BLOCK_SIZE, |content|) == cut + to;
        assert tail[from..to] == content[cut + from..cut + to];
      }
    }
  }

  /**
   * Cutting a file into chunks and the chunks into blocks emits the leaves of the file in order, each once: the
   * digests of its blocks, plus, for the single-buffer hasher, the digest of no bytes after them exactly when the
   * size is a multiple of the chunk size.
   */
  lemma {:induction false} FileCoverage(file: nat, content: seq<byte>, piece: nat, pieceSize: nat, blocksPerPiece: nat,
                                        chunkSize: nat, piecesPerChunk: nat, multi: bool)
    requires Sizes(pieceSize, blocksPerPiece, chunkSize, piecesPerChunk)
    ensures AllMessages(FileChunks(file, content, piece, chunkSize, piecesPerChunk), pieceSize, multi)
         == LeafMessagesFrom(file, piece * blocksPerPiece, LeavesOf(content, chunkSize, multi))
    decreases |content|
  {
    if |content| < chunkSize {
      var chunks := FileChunks(file, content, piece, chunkSize, piecesPerChunk);
      LeafIndexOfPiece(piece, pieceSize, blocksPerPiece);
      LastChunkLeaves(content, chunkSize, multi);
      assert chunks == [Chunk(piece, file, Some(content))];
      FlatMapOne(Emit(pieceSize, multi), chunks[0]);
    } else {
      FileCoverage(file, content[chunkSize..], piece + piecesPerChunk, pieceSize, blocksPerPiece, chunkSize,
                   piecesPerChunk, multi);
      CoverageStep(file, content, piece, pieceSize, blocksPerPiece, chunkSize, piecesPerChunk, multi);
    }
  }

  lemma CoverageStep(file: nat, content: seq<byte>, piece: nat, pieceSize: nat, blocksPerPiece: nat,
                     chunkSize: nat, piecesPerChunk: nat, multi: bool)
    requires Sizes(pieceSize, blocksPerPiece, chunkSize, piecesPerChunk) && |content| >= chunkSize
    requires AllMessages(FileChunks(file, content[chunkSize..], piece + piecesPerChunk, chunkSize, piecesPerChunk),
                         pieceSize, multi)
          == LeafMessagesFrom(file, (piece + piecesPerChunk) * blocksPerPiece,
                              LeavesOf(content[chunkSize..], chunkSize, multi))
    ensures AllMessages(FileChunks(file, content, piece, chunkSize, piecesPerChunk), pieceSize, multi)
         == LeafMessagesFrom(file, piece * blocksPerPiece, LeavesOf(content, chunkSize, multi))
  {
    hide LeavesOf, BlockDigests, LeafMessagesFrom;
    var head := content[..chunkSize];
    var next := piece + piecesPerChunk;
    var chunks := FileChunks(file, content, piece, chunkSize, piecesPerChunk);
    assert chunks == [Chunk(piece, file, Some(head))]
      + FileChunks(file, content[chunkSize..], next, chunkSize, piecesPerChunk);
    assert chunks[1..] == FileChunks(file, content[chunkSize..], next, chunkSize, piecesPerChunk);
    LeafIndexOfPiece(piece, pieceSize, blocksPerPiece);
    assert ChunkMessages(chunks[0], pieceSize, multi)
      == LeafMessagesFrom(file, piece * blocksPerPiece, BlockDigests(head));
    LeavesSplit(content, pieceSize, blocksPerPiece, chunkSize, piecesPerChunk, multi);
    assert next * blocksPerPiece == piece * blocksPerPiece + piecesPerChunk * blocksPerPiece;
    MessagesJoin(file, piece * blocksPerPiece, BlockDigests(head), LeavesOf(content[chunkSize..], chunkSize, multi));
  }

  lemma LastChunkLeaves(content: seq<byte>, chunkSize: nat, multi: bool)
    requires |content| < chunkSize
    ensures LeavesOf(content, chunkSize, multi) == if multi then BlockDigests(content) else SingleBufferLeaves(content)
  {
    assert |content| % chunkSize == |content|;
    assert BlockCount(0) == 0;
  }

  lemma LeavesSplit(content: seq<byte>, pieceSize: nat, blocksPerPiece: nat, chunkSize: nat, piecesPerChunk: nat,
                    multi: bool)
    requires Sizes(pieceSize, blocksPerPiece, chunkSize, piecesPerChunk) && |content| >= chunkSize
    ensures |BlockDigests(content[..chunkSize])| == piecesPerChunk * blocksPerPiece
    ensures LeavesOf(content, chunkSize, multi)
              == BlockDigests(content[..chunkSize]) + LeavesOf(content[chunkSize..], chunkSize, multi)
  {
    hide BlockCount, BlockDigests;
    assert chunkSize == (piecesPerChunk * blocksPerPiece) * BLOCK_SIZE;
    BlocksSplit(content, piecesPerChunk * blocksPerPiece);
    var size := |content|;
    DivUnique(size, (size - chunkSize) / chunkSize + 1, (size - chunkSize) % chunkSize, chunkSize);
  }

  lemma MessagesJoin(file: nat, first: nat, a: seq<Digest>, b: seq<Digest>)
    ensures LeafMessagesFrom(file, first, a + b)
              == LeafMessagesFrom(file, first, a) + LeafMessagesFrom(file, first + |a|, b)
  {
  }

  /** Leaf k of a non-empty file is the digest of its k-th block, once, and nothing else is emitted. */
  lemma LeafCoverage(file: nat, content: seq<byte>, pieceSize: nat, blocksPerPiece: nat, chunkSize: nat,
                     piecesPerChunk: nat, multi: bool)
    requires Sizes(pieceSize, blocksPerPiece, chunkSize, piecesPerChunk)
    ensures var messages := AllMessages(FileChunks(file, content, 0, chunkSize, piecesPerChunk), pieceSize, multi);
            messages == LeafMessages(file, BlockDigests(content)) <==> multi || |content| % chunkSize != 0
  {
    FileCoverage(file, content, 0, pieceSize, blocksPerPiece, chunkSize, piecesPerChunk, multi);
    var messages := AllMessages(FileChunks(file, content, 0, chunkSize, piecesPerChunk), pieceSize, multi);
    if multi || |content| % chunkSize != 0 {
      assert LeavesOf(content, chunkSize, multi) == BlockDigests(content);
    } else {
      assert |messages| == |BlockDigests(content)| + 1;
    }
  }

  // ---- The v1 pieces of a hybrid torrent ---------------------------------------------------------------------

  /** The final piece of a file is padded unless the file is the last entry or the one before it. */
  predicate PadsLastPiece(files: seq<DiskFile>, i: nat) {
    i + 1 < |files| - 1
  }

  function PiecesOf(size: nat, pieceSize: nat): nat
    requires pieceSize > 0
  {
    (size + pieceSize - 1) / pieceSize
  }

  /** What `initialize_v1_offsets` pushes for the first n files: a running count of the pieces of regular files. */
  function PiecesBefore(files: seq<DiskFile>, n: nat, pieceSize: nat): nat
    requires n <= |files| && pieceSize > 0
  {
    if n == 0 then 0
    else
      PiecesBefore(files, n - 1, pieceSize)
      + if files[n - 1].padding then 0 else PiecesOf(files[n - 1].size, pieceSize)
  }

  /** The bytes a chunk reports as done; a missing file is done as a whole. */
  function BytesIn(files: seq<DiskFile>, chunk: Chunk): nat
    requires chunk.fileIndex < |files|
  {
    if chunk.data.None? then files[chunk.fileIndex].size else |chunk.data.value|
  }

  function ChunkPieces(files: seq<DiskFile>, chunk: Chunk, pieceSize: nat): seq<HashedPiece>
    requires pieceSize > 0 && chunk.fileIndex < |files|
  {
    if chunk.data.None? then []
    else PieceMessages(PiecesBefore(files, chunk.fileIndex, pieceSize) + chunk.pieceIndex, chunk.data.value, pieceSize,
                       PadsLastPiece(files, chunk.fileIndex))
  }

  /** The contracts `hash_chunk` checks: a known file, and a padding entry after a file whose last piece is padded. */
  ghost predicate Accepts(files: seq<DiskFile>, pieceSize: nat, addV1Compatibility: bool, chunk: Chunk) {
    && chunk.fileIndex < |files|
    && (addV1Compatibility && chunk.data.Some? && pieceSize > 0 ==>
          || |chunk.data.value| % pieceSize == 0
          || !PadsLastPiece(files, chunk.fileIndex)
          || files[chunk.fileIndex + 1].padding)
  }

  ghost predicate AllAccepted(files: seq<DiskFile>, pieceSize: nat, addV1Compatibility: bool, chunks: seq<Chunk>) {
    forall c :: c in chunks ==> Accepts(files, pieceSize, addV1Compatibility, c)
  }

  /** The table of where each file's pieces start, for the first n files. */
  ghost predicate V1Offsets(offsets: seq<nat>, files: seq<DiskFile>, n: nat, pieceSize: nat) {
    pieceSize > 0 && n <= |files| && |offsets| == n + 1
    && forall i :: 0 <= i <= n ==> offsets[i] == PiecesBefore(files, i, pieceSize)
  }

  lemma V1OffsetsNext(offsets: seq<nat>, files: seq<DiskFile>, i: nat, pieceSize: nat)
    requires i < |files| && V1Offsets(offsets, files, i, pieceSize)
    ensures var pieces := if files[i].padding then 0 else PiecesOf(files[i].size, pieceSize);
            V1Offsets(offsets + [offsets[i] + pieces], files, i + 1, pieceSize)
  {
    hide PiecesOf;
  }

  method InitializeV1Offsets(files: seq<DiskFile>, pieceSize: nat) returns (offsets: seq<nat>)
    requires pieceSize > 0
    ensures V1Offsets(offsets, files, |files|, pieceSize)
  {
    offsets := [0];
    for i := 0 to |files|
      invariant V1Offsets(offsets, files, i, pieceSize)
    {
      hide PiecesOf, PiecesBefore;
      V1OffsetsNext(offsets, files, i, pieceSize);
      var back := offsets[|offsets| - 1];
      if files[i].padding {
        offsets := offsets + [back];
      } else {
        offsets := offsets + [back + PiecesOf(files[i].size, pieceSize)];
      }
    }
  }

  // ---- The single-buffer hasher ------------------------------------------------------------------------------

  class V2ChunkHasherSb {
    const files: seq<DiskFile>
    const pieceSize: nat
    const addV1Compatibility: bool
    const v1PieceOffsets: seq<nat>
    const sha256: Hasher
    const sha1: Hasher
    var v1Queue: seq<HashedPiece>
    var v2Queue: seq<HashedBlock>
    var bytesDone: nat

    ghost predicate Valid()
      reads this, sha256, sha1
    {
      && pieceSize >= BLOCK_SIZE && sha256 != sha1 && sha256.pending == [] && sha1.pending == []
      && V1Offsets(v1PieceOffsets, files, |files|, pieceSize)
    }

    constructor (files: seq<DiskFile>, pieceSize: nat, addV1Compatibility: bool)
      requires pieceSize >= BLOCK_SIZE
      ensures Valid() && this.files == files && this.pieceSize == pieceSize &&
                this.addV1Compatibility == addV1Compatibility
      ensures v1Queue == [] && v2Queue == [] && bytesDone == 0
      ensures fresh(sha256) && fresh(sha1)
    {
      this.files, this.pieceSize, this.addV1Compatibility := files, pieceSize, addV1Compatibility;
      sha256 := new Hasher();
      sha1 := new Hasher();
      v1Queue, v2Queue, bytesDone := [], [], 0;
      var offsets := InitializeV1Offsets(files, pieceSize);
      v1PieceOffsets := offsets;
    }

    method HashChunk(chunk: Chunk)
      requires Valid() && Accepts(files, pieceSize, addV1Compatibility, chunk)
      modifies this`v1Queue, this`v2Queue, this`bytesDone, sha256, sha1
      ensures Valid()
      ensures v2Queue == old(v2Queue) + ChunkMessages(chunk, pieceSize, false)
      ensures v1Queue == old(v1Queue) + if addV1Compatibility then ChunkPieces(files, chunk, pieceSize) else []
      ensures bytesDone == old(bytesDone) + BytesIn(files, chunk)
    {
      hide BlockDigests, PieceMessages;
      if chunk.data.None? {
        bytesDone := bytesDone + files[chunk.fileIndex].size;
        return;
      }
      HashBlocks(chunk.data.value, chunk.fileIndex, chunk.pieceIndex * pieceSize / BLOCK_SIZE);
      if addV1Compatibility {
        HashPieces(chunk.data.value, chunk.fileIndex, chunk.pieceIndex);
      }
      bytesDone := bytesDone + |chunk.data.value|;
    }

    /** 16 KiB blocks to the SHA-256 hasher; the last block is hashed even when there is none. */
    method HashBlocks(data: seq<byte>, fileIndex: nat, indexOffset: nat)
      requires sha256.pending == [] && sha256 != sha1
      modifies this`v2Queue, sha256
      ensures sha256.pending == []
      ensures v2Queue == old(v2Queue) + LeafMessagesFrom(fileIndex, indexOffset, SingleBufferLeaves(data))
    {
      hide DivCeil, BlockDigests, SingleBufferLeaves;
      ghost var all := LeafMessagesFrom(fileIndex, indexOffset, SingleBufferLeaves(data));
      var blocksInChunk := DivCeil(|data|, BLOCK_SIZE);
      BlockAt(data);
      var i := 0;
      while blocksInChunk != 0 && i < blocksInChunk - 1
        invariant 0 <= i <= Max(0, blocksInChunk - 1) && sha256.pending == []
        invariant v2Queue == old(v2Queue) + all[..i]
      {
        sha256.Update(data[i * BLOCK_SIZE..(i + 1) * BLOCK_SIZE]);
        var leaf := sha256.FinalizeTo();
        v2Queue := v2Queue + [HashedBlock(fileIndex, indexOffset + i, Leaf(leaf))];
        assert all[i] == HashedBlock(fileIndex, indexOffset + i, Leaf(leaf));
        PushNext(old(v2Queue), all, i);
        i := i + 1;
      }
      sha256.Update(data[i * BLOCK_SIZE..]);
      var leaf := sha256.FinalizeTo();
      v2Queue := v2Queue + [HashedBlock(fileIndex, indexOffset + i, Leaf(leaf))];
      assert |all| == i + 1 && all[i] == HashedBlock(fileIndex, indexOffset + i, Leaf(leaf));
      PushNext(old(v2Queue), all, i);
    }

    /** Whole pieces to the SHA-1 hasher, then an incomplete one, padded with zeros if padding follows the file. */
    method HashPieces(data: seq<byte>, fileIndex: nat, pieceIndex: nat)
      requires Offset(fileIndex) && sha1.pending == []
      requires |data| % pieceSize != 0 && PadsLastPiece(files, fileIndex) ==> files[fileIndex + 1].padding
      modifies this`v1Queue, sha1
      ensures sha1.pending == []
      ensures v1Queue == old(v1Queue)
            + PieceMessages(PiecesBefore(files, fileIndex, pieceSize) + pieceIndex, data, pieceSize,
                            PadsLastPiece(files, fileIndex))
    {
      hide PieceMessages, DivCeil, PiecesBefore;
      var piecesInChunk := DivCeil(|data|, pieceSize);
      var needsPadding := |data| % pieceSize != 0;
      var piecesToProcess :=
        if !needsPadding then piecesInChunk else if piecesInChunk != 0 then piecesInChunk - 1 else 0;
      ghost var all := PieceMessages(PiecesBefore(files, fileIndex, pieceSize) + pieceIndex, data, pieceSize,
                                     PadsLastPiece(files, fileIndex));
      var k := 0;
      while k < piecesToProcess
        invariant 0 <= k <= piecesToProcess && sha1.pending == []
        invariant v1Queue == old(v1Queue) + all[..k]
      {
        HashWholePiece(data, k, fileIndex, pieceIndex);
        PushNext(old(v1Queue), all, k);
        k := k + 1;
      }
      assert all[..|all|] == all;
      if needsPadding {
        LastPieceIncomplete(data, pieceSize);
        FinalPieceAt(PiecesBefore(files, fileIndex, pieceSize) + pieceIndex, data, pieceSize,
                     PadsLastPiece(files, fileIndex), k);
        HashFinalPiece(data[k * pieceSize..], fileIndex, pieceIndex + k);
        PushNext(old(v1Queue), all, k);
      }
    }

    /** The offset table covers the file. */
    ghost predicate Offset(fileIndex: nat) {
      && pieceSize > 0 && fileIndex < |files| && |v1PieceOffsets| == |files| + 1
      && v1PieceOffsets[fileIndex] == PiecesBefore(files, fileIndex, pieceSize)
    }

    method HashWholePiece(data: seq<byte>, k: nat, fileIndex: nat, pieceIndex: nat)
      requires Offset(fileIndex) && sha1.pending == []
      requires k < DivCeil(|data|, pieceSize) && (k < DivCeil(|data|, pieceSize) - 1 || |data| % pieceSize == 0)
      modifies this`v1Queue, sha1
      ensures sha1.pending == []
      ensures v1Queue == old(v1Queue)
                + [PieceMessages(PiecesBefore(files, fileIndex, pieceSize) + pieceIndex, data, pieceSize,
                                                       PadsLastPiece(files, fileIndex))[k]]
    {
      hide PiecesBefore, PieceMessages, DivCeil;
      PieceAt(PiecesBefore(files, fileIndex, pieceSize) + pieceIndex, data, pieceSize, PadsLastPiece(files, fileIndex),
              k);
      var piece := data[k * pieceSize..k * pieceSize + pieceSize];
      sha1.Update(piece);
      assert sha1.pending == piece;
      ProcessPieceHash(pieceIndex + k, fileIndex);
    }

    /** The incomplete last piece of a file; padding is hashed in only where the storage has a padding entry for it. */
    method HashFinalPiece(finalPiece: seq<byte>, fileIndex: nat, pieceIndex: nat)
      requires Offset(fileIndex) && sha1.pending == [] && |finalPiece| < pieceSize
      requires PadsLastPiece(files, fileIndex) ==> files[fileIndex + 1].padding
      modifies this`v1Queue, sha1
      ensures sha1.pending == []
      ensures var hashed :=
                if PadsLastPiece(files, fileIndex) then finalPiece + Zeros(pieceSize - |finalPiece|) else finalPiece;
              v1Queue == old(v1Queue)
                + [HashedPiece(PiecesBefore(files, fileIndex, pieceSize) + pieceIndex, Sha1(hashed))]
    {
      hide PiecesBefore, Zeros;
      sha1.Update(finalPiece);
      assert sha1.pending == finalPiece;
      if fileIndex + 1 < |files| - 1 {
        sha1.Update(Zeros(pieceSize - |finalPiece|));
      }
      ProcessPieceHash(pieceIndex, fileIndex);
    }

    method ProcessPieceHash(pieceIndex: nat, fileIndex: nat)
      requires Offset(fileIndex)
      modifies this`v1Queue, sha1
      ensures sha1.pending == []
      ensures v1Queue == old(v1Queue)
                + [HashedPiece(PiecesBefore(files, fileIndex, pieceSize) + pieceIndex, Sha1(old(sha1.pending)))]
    {
      var pieceHash := sha1.FinalizeTo();
      var globalPieceIndex := v1PieceOffsets[fileIndex] + pieceIndex;
      v1Queue := v1Queue + [HashedPiece(globalPieceIndex, Sha1(pieceHash))];
    }
  }

  /** The blocks the loop of the hasher cuts, and the one after the loop. */
  lemma BlockAt(data: seq<byte>)
    ensures var n := DivCeil(|data|, BLOCK_SIZE);
            var last := if n == 0 then 0 else n - 1;
            && |SingleBufferLeaves(data)| == last + 1
            && last * BLOCK_SIZE <= |data| && SingleBufferLeaves(data)[last] == Leaf(data[last * BLOCK_SIZE..])
            && (forall i: nat :: i < last ==>
                  (i + 1) * BLOCK_SIZE <= |data| &&
                    SingleBufferLeaves(data)[i] == Leaf(data[i * BLOCK_SIZE..(i + 1) * BLOCK_SIZE]))
  {
    assert data == [] ==> data[0..] == [];
  }
}
