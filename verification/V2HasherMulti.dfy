/**
 * The multi-buffer v2 chunk hasher of src/v2_chunk_hasher_mb.cpp: all blocks of a chunk are submitted, then collected.
 */
module V2HasherMulti {
  import opened Arith
  import opened Digests
  import opened FileHashes
  import opened Options
  import opened Storage
  import opened Pieces
  import opened PieceWriter
  import opened V2Hasher

  /** A hasher with numbered jobs; collecting a digest empties the job. */
  class MultiBufferHasher {
    var jobs: seq<seq<byte>>

    constructor ()
      ensures jobs == []
    {
      jobs := [];
    }

    method Resize(n: nat)
      modifies this
      ensures |jobs| == n && forall k :: 0 <= k < n ==> jobs[k] == []
    {
      jobs := seq(n, _ => []);
    }

    /** `submit`, and `submit_first` for a job that goes on. */
    method Submit(job: nat, data: seq<byte>)
      requires job < |jobs| && jobs[job] == []
      modifies this
      ensures jobs == old(jobs)[job := data]
    {
      jobs := jobs[job := data];
    }

    method SubmitLast(job: nat, data: seq<byte>)
      requires job < |jobs|
      modifies this
      ensures jobs == old(jobs)[job := old(jobs)[job] + data]
    {
      jobs := jobs[job := jobs[job] + data];
    }

    method FinalizeTo(job: nat) returns (data: seq<byte>)
      requires job < |jobs|
      modifies this
      ensures data == old(jobs)[job] && jobs == old(jobs)[job := []]
    {
      data := jobs[job];
      jobs := jobs[job := []];
    }
  }

  /** The jobs hold the data the messages are digests of. */
  ghost predicate BlockJobs(jobs: seq<seq<byte>>, leaves: seq<Digest>, from: nat, to: nat) {
    to <= |jobs| == |leaves| && forall k :: from <= k < to ==> leaves[k] == Leaf(jobs[k])
  }

  ghost predicate PieceJobs(jobs: seq<seq<byte>>, pieces: seq<HashedPiece>, from: nat, to: nat) {
    to <= |jobs| == |pieces| && forall k :: from <= k < to ==> pieces[k].hash == Sha1(jobs[k])
  }

  class V2ChunkHasherMb {
    const files: seq<DiskFile>
    const pieceSize: nat
    const addV1Compatibility: bool
    const v1PieceOffsets: seq<nat>
    const sha256: MultiBufferHasher
    const sha1: MultiBufferHasher
    var v1Queue: seq<HashedPiece>
    var v2Queue: seq<HashedBlock>
    var bytesDone: nat

    ghost predicate Valid() {
      && pieceSize >= BLOCK_SIZE && sha256 != sha1
      && V1Offsets(v1PieceOffsets, files, |files|, pieceSize)
    }

    constructor (files: seq<DiskFile>, pieceSize: nat, addV1Compatibility: bool)
      requires pieceSize >= BLOCK_SIZE
      ensures Valid() && this.files == files && this.pieceSize == pieceSize &&
                this.addV1Compatibility == addV1Compatibility
      ensures v1Queue == [] && v2Queue == [] && bytesDone == 0
      ensures fresh(sha256) && fresh(sha1)
    {
      this.files, this.pieceSize, this.addV1Compatibility := files, pieceSize, addV1Compatibility;
      var first := new MultiBufferHasher();
      var second := new MultiBufferHasher();
      sha1, sha256 := first, second;
      v1Queue, v2Queue, bytesDone := [], [], 0;
      var offsets := InitializeV1Offsets(files, pieceSize);
      v1PieceOffsets := offsets;
    }

    /** The same messages as the single-buffer hasher, but none for an empty chunk. */
    method HashChunk(chunk: Chunk)
      requires Valid() && Accepts(files, pieceSize, addV1Compatibility, chunk)
      modifies this, sha256, sha1
      ensures v2Queue == old(v2Queue) + ChunkMessages(chunk, pieceSize, true)
      ensures v1Queue == old(v1Queue) + if addV1Compatibility then ChunkPieces(files, chunk, pieceSize) else []
      ensures bytesDone == old(bytesDone) + BytesIn(files, chunk)
    {
      hide BlockDigests, PieceMessages, DivCeil;
      if chunk.data.None? {
        bytesDone := bytesDone + files[chunk.fileIndex].size;
        return;
      }
      var data := chunk.data.value;
      var indexOffset := chunk.pieceIndex * pieceSize / BLOCK_SIZE;
      SubmitBlocks(data);
      CollectLeaves(BlockDigests(data), chunk.fileIndex, indexOffset);
      if addV1Compatibility {
        var pad := PadsLastPiece(files, chunk.fileIndex);
        ghost var pieces := PieceMessages(PiecesBefore(files, chunk.fileIndex, pieceSize) + chunk.pieceIndex, data,
                                          pieceSize, pad);
        PieceIndexes(PiecesBefore(files, chunk.fileIndex, pieceSize) + chunk.pieceIndex, data, pieceSize, pad);
        SubmitPieces(data, chunk.fileIndex, pieces);
        CollectPieces(pieces, chunk.fileIndex, chunk.pieceIndex);
      }
      bytesDone := bytesDone + |data|;
    }

    method SubmitBlocks(data: seq<byte>)
      modifies sha256
      ensures BlockJobs(sha256.jobs, BlockDigests(data), 0, |sha256.jobs|)
    {
      var blocksInChunk := DivCeil(|data|, BLOCK_SIZE);
      sha256.Resize(blocksInChunk);
      var i := 0;
      if blocksInChunk > 0 {
        while i < blocksInChunk - 1
          invariant 0 <= i <= blocksInChunk - 1 && |sha256.jobs| == blocksInChunk
          invariant BlockJobs(sha256.jobs, BlockDigests(data), 0, i)
          invariant forall k :: i <= k < blocksInChunk ==> sha256.jobs[k] == []
        {
          hide BlockDigests, DivCeil;
          BlockOf(data, i);
          sha256.Submit(i, data[i * BLOCK_SIZE..(i + 1) * BLOCK_SIZE]);
          i := i + 1;
        }
        BlockOf(data, i);
        sha256.Submit(i, data[i * BLOCK_SIZE..]);
      }
    }

    method CollectLeaves(ghost leaves: seq<Digest>, fileIndex: nat, indexOffset: nat)
      requires BlockJobs(sha256.jobs, leaves, 0, |sha256.jobs|)
      modifies this`v2Queue, sha256
      ensures v2Queue == old(v2Queue) + LeafMessagesFrom(fileIndex, indexOffset, leaves)
    {
      ghost var all := LeafMessagesFrom(fileIndex, indexOffset, leaves);
      var n := |sha256.jobs|;
      var i := 0;
      assert old(v2Queue) + all[..0] == old(v2Queue);
      while i < n
        invariant 0 <= i <= n == |sha256.jobs| == |leaves|
        invariant BlockJobs(sha256.jobs, leaves, i, n)
        invariant v2Queue == old(v2Queue) + all[..i]
      {
        var leaf := sha256.FinalizeTo(i);
        v2Queue := v2Queue + [HashedBlock(fileIndex, indexOffset + i, Leaf(leaf))];
        assert all[i] == HashedBlock(fileIndex, indexOffset + i, Leaf(leaf));
        PushNext(old(v2Queue), all, i);
        i := i + 1;
      }
      assert all[..n] == all;
    }

    method SubmitPieces(data: seq<byte>, fileIndex: nat, ghost pieces: seq<HashedPiece>)
      requires pieceSize > 0 && fileIndex < |files|
      requires exists first: nat :: pieces == PieceMessages(first, data, pieceSize, PadsLastPiece(files, fileIndex))
      requires |data| % pieceSize != 0 && PadsLastPiece(files, fileIndex) ==> files[fileIndex + 1].padding
      modifies sha1
      ensures PieceJobs(sha1.jobs, pieces, 0, |sha1.jobs|)
    {
      hide PieceMessages, DivCeil, Zeros;
      ghost var first: nat :| pieces == PieceMessages(first, data, pieceSize, PadsLastPiece(files, fileIndex));
      ghost var pad := PadsLastPiece(files, fileIndex);
      var piecesInChunk := DivCeil(|data|, pieceSize);
      var needsPadding := |data| % pieceSize != 0;
      var piecesToProcess :=
        if !needsPadding then piecesInChunk else if piecesInChunk != 0 then piecesInChunk - 1 else 0;
      sha1.Resize(piecesInChunk);
      var k := 0;
      while k < piecesToProcess
        invariant 0 <= k <= piecesToProcess && |sha1.jobs| == piecesInChunk
        invariant PieceJobs(sha1.jobs, pieces, 0, k)
        invariant forall j :: k <= j < piecesInChunk ==> sha1.jobs[j] == []
      {
        PieceAt(first, data, pieceSize, pad, k);
        sha1.Submit(k, data[k * pieceSize..k * pieceSize + pieceSize]);
        k := k + 1;
      }
      if needsPadding {
        LastPieceIncomplete(data, pieceSize);
        FinalPieceAt(first, data, pieceSize, pad, k);
        SubmitFinalPiece(data[k * pieceSize..], k, fileIndex, pieces);
      }
    }

    /** The incomplete last piece, and the padding behind it where the storage has an entry for it. */
    method SubmitFinalPiece(finalPiece: seq<byte>, k: nat, fileIndex: nat, ghost pieces: seq<HashedPiece>)
      requires fileIndex < |files| && |finalPiece| < pieceSize
      requires PadsLastPiece(files, fileIndex) ==> files[fileIndex + 1].padding
      requires |sha1.jobs| == |pieces| == k + 1 && PieceJobs(sha1.jobs, pieces, 0, k) && sha1.jobs[k] == []
      requires var pad := PadsLastPiece(files, fileIndex);
               pieces[k].hash == Sha1(if pad then finalPiece + Zeros(pieceSize - |finalPiece|) else finalPiece)
      modifies sha1
      ensures PieceJobs(sha1.jobs, pieces, 0, |sha1.jobs|)
    {
      hide Zeros;
      sha1.Submit(k, finalPiece);
      if fileIndex + 1 < |files| - 1 {
        sha1.SubmitLast(k, Zeros(pieceSize - |finalPiece|));
      }
    }

    method CollectPieces(ghost pieces: seq<HashedPiece>, fileIndex: nat, pieceIndex: nat)
      requires Valid() && fileIndex < |files| && PieceJobs(sha1.jobs, pieces, 0, |sha1.jobs|)
      requires forall k :: 0 <= k < |pieces| ==>
                 pieces[k].index == PiecesBefore(files, fileIndex, pieceSize) + pieceIndex + k
      modifies this`v1Queue, sha1
      ensures v1Queue == old(v1Queue) + pieces
    {
      hide PiecesBefore;
      var totalJobs := |sha1.jobs|;
      var k := 0;
      assert old(v1Queue) + pieces[..0] == old(v1Queue);
      while k < totalJobs
        invariant 0 <= k <= totalJobs == |sha1.jobs| == |pieces|
        invariant PieceJobs(sha1.jobs, pieces, k, totalJobs)
        invariant v1Queue == old(v1Queue) + pieces[..k]
      {
        var pieceHash := sha1.FinalizeTo(k);
        var globalPieceIndex := v1PieceOffsets[fileIndex] + (pieceIndex + k);
        v1Queue := v1Queue + [HashedPiece(globalPieceIndex, Sha1(pieceHash))];
        assert pieces[k] == HashedPiece(globalPieceIndex, Sha1(pieceHash));
        PushNext(old(v1Queue), pieces, k);
        k := k + 1;
      }
      assert pieces[..totalJobs] == pieces;
    }
  }

  lemma PieceIndexes(first: nat, data: seq<byte>, pieceSize: nat, pad: bool)
    requires pieceSize > 0
    ensures forall k :: 0 <= k < |PieceMessages(first, data, pieceSize, pad)| ==>
              PieceMessages(first, data, pieceSize, pad)[k].index == first + k
  {
    hide DivCeil;
  }

  /** The bytes of block i. */
  lemma BlockOf(data: seq<byte>, i: nat)
    requires i < DivCeil(|data|, BLOCK_SIZE)
    ensures |BlockDigests(data)| == DivCeil(|data|, BLOCK_SIZE)
    ensures i * BLOCK_SIZE <= |data|
    ensures if i < DivCeil(|data|, BLOCK_SIZE) - 1
            then (i + 1) * BLOCK_SIZE <= |data| &&
              BlockDigests(data)[i] == Leaf(data[i * BLOCK_SIZE..(i + 1) * BLOCK_SIZE])
            else BlockDigests(data)[i] == Leaf(data[i * BLOCK_SIZE..])
  {
  }
}
