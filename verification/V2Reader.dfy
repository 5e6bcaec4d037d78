/** The v2 chunk reader of src/v2_chunk_reader.cpp: each file is cut into chunks on its own. */
module V2Reader {
  import opened Arith
  import opened Digests
  import opened FileHashes
  import opened Options
  import opened Storage

  /**
   * The chunks of one file on disk: full chunks, then what is left. The end of a file is only noticed by reading
   * past it, so a file that fills its last chunk gets one more, empty, chunk.
   */
  function FileChunks(file: nat, content: seq<byte>, piece: nat, chunkSize: nat, piecesPerChunk: nat): (r: seq<Chunk>)
    requires chunkSize > 0
    ensures |r| > 0
    decreases |content|
  {
    if |content| < chunkSize then
      [Chunk(piece, file, Some(content))]
    else
      [Chunk(piece, file, Some(content[..chunkSize]))]
      + FileChunks(file, content[chunkSize..], piece + piecesPerChunk, chunkSize, piecesPerChunk)
  }

  function ChunksOf(files: seq<DiskFile>, i: nat, chunkSize: nat, piecesPerChunk: nat): seq<Chunk>
    requires chunkSize > 0 && i < |files|
  {
    if files[i].padding then []
    else if files[i].content.None? then [Chunk(0, i, None)]
    else FileChunks(i, files[i].content.value, 0, chunkSize, piecesPerChunk)
  }

  function AllChunks(files: seq<DiskFile>, n: nat, chunkSize: nat, piecesPerChunk: nat): seq<Chunk>
    requires chunkSize > 0 && n <= |files|
  {
    if n == 0 then []
    else AllChunks(files, n - 1, chunkSize, piecesPerChunk) + ChunksOf(files, n - 1, chunkSize, piecesPerChunk)
  }

  /** The largest piece index pushed for a file: the one of its last, possibly empty, chunk. */
  function LastPieceIndex(f: DiskFile, chunkSize: nat, piecesPerChunk: nat): nat
    requires chunkSize > 0
  {
    if f.content.None? then 0 else f.size / chunkSize * piecesPerChunk
  }

  /** The contract of `push` holds for every chunk of the first n files. */
  ghost predicate PushesAllowed(files: seq<DiskFile>, n: nat, chunkSize: nat, piecesPerChunk: nat, pieceCount: nat)
    requires chunkSize > 0 && n <= |files|
  {
    forall i :: 0 <= i < n && !files[i].padding ==> LastPieceIndex(files[i], chunkSize, piecesPerChunk) < pieceCount
  }

  /** The chunk that starts at k chunk sizes is not beyond the last one, and a short one is the last one. */
  lemma ChunkIndexBound(f: DiskFile, k: nat, chunkSize: nat, piecesPerChunk: nat)
    requires chunkSize > 0 && f.content.Some? && k * chunkSize <= f.size
    ensures k * piecesPerChunk <= LastPieceIndex(f, chunkSize, piecesPerChunk)
    ensures f.size - k * chunkSize < chunkSize ==> k * piecesPerChunk == LastPieceIndex(f, chunkSize, piecesPerChunk)
    ensures (k + 1) * chunkSize == k * chunkSize + chunkSize &&
              (k + 1) * piecesPerChunk == k * piecesPerChunk + piecesPerChunk
  {
    var q, r := f.size / chunkSize, f.size % chunkSize;
    assert f.size == q * chunkSize + r;
    MulAtLeast(k - q, chunkSize);
    assert (k - q) * chunkSize == k * chunkSize - q * chunkSize;
    MulMonotone(k, q, piecesPerChunk);
  }

  /** The contract of `push` on its own terms: every chunk's piece index is below the number of pieces. */
  ghost predicate Allowed(chunks: seq<Chunk>, pieceCount: nat) {
    forall c :: c in chunks ==> c.pieceIndex < pieceCount
  }

  /** The chunks belong to the first n files. */
  ghost predicate OfFirst(chunks: seq<Chunk>, n: nat) {
    forall c :: c in chunks ==> c.fileIndex < n
  }

  lemma {:induction false} FileChunkOwners(file: nat, content: seq<byte>, piece: nat, chunkSize: nat,
                                           piecesPerChunk: nat)
    requires chunkSize > 0
    ensures forall c :: c in FileChunks(file, content, piece, chunkSize, piecesPerChunk) ==> c.fileIndex == file
    decreases |content|
  {
    if |content| >= chunkSize {
      FileChunkOwners(file, content[chunkSize..], piece + piecesPerChunk, chunkSize, piecesPerChunk);
    }
  }

  lemma {:induction false} ChunkOwners(files: seq<DiskFile>, n: nat, chunkSize: nat, piecesPerChunk: nat)
    requires chunkSize > 0 && n <= |files|
    ensures OfFirst(AllChunks(files, n, chunkSize, piecesPerChunk), n)
  {
    if n > 0 {
      ChunkOwners(files, n - 1, chunkSize, piecesPerChunk);
      if files[n - 1].content.Some? {
        FileChunkOwners(n - 1, files[n - 1].content.value, 0, chunkSize, piecesPerChunk);
      }
    }
  }

  lemma OneMoreChunk(size: nat, chunkSize: nat, piecesPerChunk: nat)
    requires chunkSize > 0
    ensures size < chunkSize ==> size / chunkSize * piecesPerChunk == 0
    ensures size >= chunkSize ==>
              size / chunkSize * piecesPerChunk == (size - chunkSize) / chunkSize * piecesPerChunk + piecesPerChunk
  {
    if size < chunkSize {
      DivUnique(size, 0, size, chunkSize);
    } else {
      var q, r := (size - chunkSize) / chunkSize, (size - chunkSize) % chunkSize;
      assert (q + 1) * chunkSize == q * chunkSize + chunkSize;
      DivUnique(size, q + 1, r, chunkSize);
    }
  }

  /** The piece indices of a file's chunks grow up to that of its last chunk. */
  lemma {:induction false} LargestIndex(file: nat, content: seq<byte>, piece: nat, chunkSize: nat, piecesPerChunk: nat)
    requires chunkSize > 0
    ensures var chunks := FileChunks(file, content, piece, chunkSize, piecesPerChunk);
            var last := piece + |content| / chunkSize * piecesPerChunk;
            && chunks[|chunks| - 1].pieceIndex == last
            && forall c :: c in chunks ==> c.pieceIndex <= last
    decreases |content|
  {
    var size := |content|;
    OneMoreChunk(size, chunkSize, piecesPerChunk);
    var last := size / chunkSize * piecesPerChunk;
    if size >= chunkSize {
      var rest := FileChunks(file, content[chunkSize..], piece + piecesPerChunk, chunkSize, piecesPerChunk);
      var restLast := (size - chunkSize) / chunkSize * piecesPerChunk;
      LargestIndex(file, content[chunkSize..], piece + piecesPerChunk, chunkSize, piecesPerChunk);
      assert |content[chunkSize..]| == size - chunkSize;
      LargestOfAll(Chunk(piece, file, Some(content[..chunkSize])), rest, piece + piecesPerChunk + restLast);
    }
  }

  lemma LargestOfAll(first: Chunk, rest: seq<Chunk>, last: nat)
    requires first.pieceIndex <= last && rest != [] && rest[|rest| - 1].pieceIndex == last
    requires forall c :: c in rest ==> c.pieceIndex <= last
    ensures var chunks := [first] + rest;
            chunks[|chunks| - 1].pieceIndex == last && forall c :: c in chunks ==> c.pieceIndex <= last
  {
  }

  lemma FileAllowed(files: seq<DiskFile>, i: nat, chunkSize: nat, piecesPerChunk: nat, pieceCount: nat)
    requires chunkSize > 0 && i < |files| && files[i].Valid()
    ensures Allowed(ChunksOf(files, i, chunkSize, piecesPerChunk), pieceCount)
            <==> files[i].padding || LastPieceIndex(files[i], chunkSize, piecesPerChunk) < pieceCount
  {
    hide FileChunks;
    var f := files[i];
    var chunks := ChunksOf(files, i, chunkSize, piecesPerChunk);
    if !f.padding {
      if f.content.None? {
        assert chunks == [Chunk(0, i, None)];
      } else {
        LargestIndex(i, f.content.value, 0, chunkSize, piecesPerChunk);
      }
      assert chunks[|chunks| - 1] in chunks;
    }
  }

  lemma {:induction false} AllowedByFile(files: seq<DiskFile>, n: nat, chunkSize: nat, piecesPerChunk: nat,
                                         pieceCount: nat)
    requires chunkSize > 0 && n <= |files| && ValidFiles(files)
    ensures Allowed(AllChunks(files, n, chunkSize, piecesPerChunk), pieceCount)
            <==> PushesAllowed(files, n, chunkSize, piecesPerChunk, pieceCount)
  {
    hide ChunksOf, LastPieceIndex;
    if n > 0 {
      AllowedByFile(files, n - 1, chunkSize, piecesPerChunk, pieceCount);
      assert files[n - 1] in files;
      FileAllowed(files, n - 1, chunkSize, piecesPerChunk, pieceCount);
    }
  }

  /**
   * What `push` asks of one file: there is a byte to hash at all, and a file that ends on an empty chunk does not hold
   * all bytes.
   */
  predicate PushAllowed(f: DiskFile, total: nat, chunkSize: nat)
    requires chunkSize > 0
  {
    f.padding || (if f.content.Some? && f.size % chunkSize == 0 then f.size < total else 0 < total)
  }

  lemma OneFileAllowed(f: DiskFile, total: nat, pieceSize: nat, chunkSize: nat, piecesPerChunk: nat, pieceCount: nat)
    requires pieceSize > 0 && chunkSize == piecesPerChunk * pieceSize > 0 && f.size <= total
    requires pieceCount == DivCeil(total, pieceSize)
    ensures LastPieceIndex(f, chunkSize, piecesPerChunk) < pieceCount
            <==> if f.content.Some? && f.size % chunkSize == 0 then f.size < total else 0 < total
  {
    hide DivCeil;
    var q, r := f.size / chunkSize, f.size % chunkSize;
    assert f.size == q * chunkSize + r;
    assert q * chunkSize == q * piecesPerChunk * pieceSize;
    DivCeilCounts(total, pieceSize, LastPieceIndex(f, chunkSize, piecesPerChunk));
  }

  lemma {:induction false} SizeInTotal(files: seq<DiskFile>, i: nat, n: nat)
    requires i < n <= |files|
    ensures files[i].size <= BytesBefore(files, n)
  {
    if i < n - 1 {
      SizeInTotal(files, i, n - 1);
    }
  }

  /**
   * The reader gets through a storage exactly when it holds a byte, if it has a file at all, and no file whose size is
   * a multiple of the chunk size holds all bytes.
   */
  lemma ReaderFinishesExactly(files: seq<DiskFile>, pieceSize: nat, chunkSize: nat, piecesPerChunk: nat)
    requires pieceSize > 0 && chunkSize == piecesPerChunk * pieceSize > 0 && ValidFiles(files)
    ensures Allowed(AllChunks(files, |files|, chunkSize, piecesPerChunk), PieceCount(files, pieceSize))
            <==> forall f :: f in files ==> PushAllowed(f, BytesBefore(files, |files|), chunkSize)
  {
    hide AllChunks, LastPieceIndex, BytesBefore;
    var total := BytesBefore(files, |files|);
    AllowedByFile(files, |files|, chunkSize, piecesPerChunk, PieceCount(files, pieceSize));
    DivCeilAsQuotient(total, pieceSize);
    forall i: nat | i < |files| && !files[i].padding
      ensures LastPieceIndex(files[i], chunkSize, piecesPerChunk) < PieceCount(files, pieceSize)
              <==> PushAllowed(files[i], total, chunkSize)
    {
      SizeInTotal(files, i, |files|);
      OneFileAllowed(files[i], total, pieceSize, chunkSize, piecesPerChunk, PieceCount(files, pieceSize));
    }
  }

  class V2ChunkReader {
    const files: seq<DiskFile>
    const pieceSize: nat
    const chunkSize: nat
    const piecesPerChunk: nat
    var pieceIndex: nat
    var fileIndex: nat
    var bytesRead: nat
    var queue: seq<Chunk>

    ghost predicate Configured() {
      && pieceSize > 0 && chunkSize > 0 && chunkSize == piecesPerChunk * pieceSize && ValidFiles(files)
      && |files| <= U32_MAX
      && forall f :: f in files ==> LastPieceIndex(f, chunkSize, piecesPerChunk) <= U32_MAX
    }

    constructor (files: seq<DiskFile>, pieceSize: nat, chunkSize: nat)
      requires pieceSize > 0 && chunkSize > 0 && chunkSize % pieceSize == 0 && ValidFiles(files) && |files| <= U32_MAX
      requires forall f :: f in files ==> LastPieceIndex(f, chunkSize, chunkSize / pieceSize) <= U32_MAX
      ensures this.files == files && this.pieceSize == pieceSize && this.chunkSize == chunkSize && Configured()
      ensures pieceIndex == 0 && fileIndex == 0 && bytesRead == 0 && queue == []
    {
      this.files, this.pieceSize, this.chunkSize := files, pieceSize, chunkSize;
      piecesPerChunk := chunkSize / pieceSize;
      pieceIndex, fileIndex, bytesRead, queue := 0, 0, 0, [];
    }

    /** Reads every file. `ok` is false when the contract of `push` fails, which ends the program. */
    method Run() returns (ok: bool)
      requires Configured() && pieceIndex == 0 && fileIndex == 0 && bytesRead == 0 && queue == []
      modifies this
      ensures ok <==> PushesAllowed(files, |files|, chunkSize, piecesPerChunk, PieceCount(files, pieceSize))
      ensures ok ==> queue == AllChunks(files, |files|, chunkSize, piecesPerChunk)
      ensures ok ==> bytesRead == BytesBefore(files, |files|)
    {
      hide PieceCount, ChunksOf, LastPieceIndex;
      ok := true;
      while fileIndex < |files|
        invariant 0 <= fileIndex <= |files| && ok
        invariant PushesAllowed(files, fileIndex, chunkSize, piecesPerChunk, PieceCount(files, pieceSize))
        invariant queue == AllChunks(files, fileIndex, chunkSize, piecesPerChunk)
        invariant bytesRead == BytesBefore(files, fileIndex)
      {
        ok := ReadNext();
        if !ok { return; }
        fileIndex := fileIndex + 1;
      }
    }

    /** One round of the loop over the files. */
    method ReadNext() returns (ok: bool)
      requires Configured() && fileIndex < |files|
      modifies this`pieceIndex, this`bytesRead, this`queue
      ensures var f := files[fileIndex];
              ok <==> f.padding || LastPieceIndex(f, chunkSize, piecesPerChunk) < PieceCount(files, pieceSize)
      ensures ok ==> queue == old(queue) + ChunksOf(files, fileIndex, chunkSize, piecesPerChunk)
      ensures ok ==> bytesRead == old(bytesRead) + files[fileIndex].size
    {
      hide PieceCount, FileChunks;
      ok := true;
      var f := files[fileIndex];
      assert f in files;
      if f.padding {
        bytesRead := bytesRead + f.size;
      } else if f.content.None? {
        ok := Push(Chunk(U32(0), U32(fileIndex), None));
        if !ok { return; }
        bytesRead := bytesRead + f.size;
      } else {
        ok := ReadFile(f.content.value);
      }
    }

    /** The read loop of one file. */
    method ReadFile(content: seq<byte>) returns (ok: bool)
      requires Configured() && fileIndex < |files| && files[fileIndex].content == Some(content)
      modifies this`pieceIndex, this`bytesRead, this`queue
      ensures ok <==> LastPieceIndex(files[fileIndex], chunkSize, piecesPerChunk) < PieceCount(files, pieceSize)
      ensures ok ==> queue == old(queue) + FileChunks(fileIndex, content, 0, chunkSize, piecesPerChunk)
      ensures ok ==> bytesRead == old(bytesRead) + |content|
    {
      hide PieceCount, FileChunks, LastPieceIndex, U32;
      pieceIndex := 0;
      var position := 0;
      var eof := false;
      ok := true;
      ghost var k := 0;
      ghost var all := FileChunks(fileIndex, content, 0, chunkSize, piecesPerChunk);
      assert files[fileIndex] in files && |content| == files[fileIndex].size && content[0..] == content;
      while !eof
        invariant 0 <= position <= |content| && ok && bytesRead == old(bytesRead) + position
        invariant !eof ==> position == k * chunkSize && pieceIndex == k * piecesPerChunk
        invariant !eof ==>
                    queue + FileChunks(fileIndex, content[position..], pieceIndex, chunkSize, piecesPerChunk)
                    == old(queue) + all
        invariant eof ==> queue == old(queue) + all && position == |content|
        invariant eof ==> LastPieceIndex(files[fileIndex], chunkSize, piecesPerChunk) < PieceCount(files, pieceSize)
        decreases !eof, |content| - position
      {
        ghost var rest := content[position..];
        ChunkIndexBound(files[fileIndex], k, chunkSize, piecesPerChunk);
        U32Fits(pieceIndex);
        U32Fits(fileIndex);
        var count := Min(chunkSize, |content| - position);
        var chunk := content[position..position + count];
        bytesRead := bytesRead + count;
        ok := Push(Chunk(U32(pieceIndex), U32(fileIndex), Some(chunk)));
        if !ok { return; }
        FirstChunk(fileIndex, rest, chunk, pieceIndex, chunkSize, piecesPerChunk);
        pieceIndex := pieceIndex + piecesPerChunk;
        position := position + count;
        assert content[position..] == rest[count..];
        k := k + 1;
        eof := count < chunkSize;
      }
    }

    static lemma FirstChunk(file: nat, rest: seq<byte>, chunk: seq<byte>, piece: nat, chunkSize: nat,
                            piecesPerChunk: nat)
      requires chunkSize > 0 && chunk == rest[..Min(chunkSize, |rest|)]
      ensures FileChunks(file, rest, piece, chunkSize, piecesPerChunk)
           == [Chunk(piece, file, Some(chunk))]
              + (if |chunk| < chunkSize then []
                 else FileChunks(file, rest[|chunk|..], piece + piecesPerChunk, chunkSize, piecesPerChunk))
    {
      assert |rest| < chunkSize ==> chunk == rest;
    }

    method Push(chunk: Chunk) returns (ok: bool)
      requires pieceSize > 0
      modifies this`queue
      ensures ok <==> chunk.pieceIndex < PieceCount(files, pieceSize)
      ensures queue == if ok then old(queue) + [chunk] else old(queue)
    {
      ok := chunk.pieceIndex < PieceCount(files, pieceSize);
      if ok {
        queue := queue + [chunk];
      }
    }
  }
}
