/** The v1 chunk reader of src/v1_chunk_reader.cpp: all files joined, in chunks of whole pieces. */
module V1Reader {
  import opened Arith
  import opened Digests
  import opened Options
  import opened Storage

  /** Pieces a chunk accounts for; a chunk without data stands for one piece of a missing file. */
  function PiecesIn(chunk: Chunk, pieceSize: nat): nat
    requires pieceSize > 0
  {
    if chunk.data.None? then 1 else DivCeil(|chunk.data.value|, pieceSize)
  }

  /** Piece k is zero bytes of a single missing or padding file. */
  ghost predicate InsideUnread(files: seq<DiskFile>, pieceSize: nat, k: nat) {
    exists i: nat :: i < |files| && files[i].Unread()
      && BytesBefore(files, i) <= k * pieceSize && k * pieceSize + pieceSize <= BytesBefore(files, i) + files[i].size
  }

  /** What an unread file of a size has to add to a chunk to fill it; nothing when the chunk is not begun. */
  function ToFill(begun: nat, chunkSize: nat): int {
    if begun == 0 then 0 else chunkSize - begun
  }

  /**
   * How much of the current chunk is filled after the first n files. A file on disk is cut at chunk ends; an unread one
   * fills the chunk that is begun, and of the bytes behind it only those behind the last whole piece go into a chunk.
   */
  function Begun(files: seq<DiskFile>, pieceSize: nat, chunkSize: nat, n: nat): nat
    requires n <= |files| && pieceSize > 0 && chunkSize > 0
  {
    if n == 0 then 0
    else
      var f, begun := files[n - 1], Begun(files, pieceSize, chunkSize, n - 1);
      if !f.Unread() then (begun + f.size) % chunkSize
      else if f.size < ToFill(begun, chunkSize) then begun + f.size
      else (f.size - ToFill(begun, chunkSize)) % pieceSize
  }

  /** Where the chunk that the first n files have begun starts. */
  ghost function ChunkStart(files: seq<DiskFile>, pieceSize: nat, chunkSize: nat, n: nat): int
    requires n <= |files| && pieceSize > 0 && chunkSize > 0
  {
    BytesBefore(files, n) - Begun(files, pieceSize, chunkSize, n)
  }

  /** The first chunk boundary that is not before file i. */
  ghost function FirstBoundary(files: seq<DiskFile>, pieceSize: nat, chunkSize: nat, i: nat): int
    requires i <= |files| && pieceSize > 0 && chunkSize > 0
  {
    BytesBefore(files, i) + ToFill(Begun(files, pieceSize, chunkSize, i), chunkSize)
  }

  /** Piece k is inside file i, a missing or padding one, and behind the chunk that file found begun. */
  ghost predicate NullIn(files: seq<DiskFile>, pieceSize: nat, chunkSize: nat, k: nat, i: nat)
    requires pieceSize > 0 && chunkSize > 0
  {
    && i < |files| && files[i].Unread()
    && FirstBoundary(files, pieceSize, chunkSize, i) <= k * pieceSize
    && k * pieceSize + pieceSize <= BytesBefore(files, i) + files[i].size
  }

  /** The pieces that go out without data. */
  ghost predicate SentNull(files: seq<DiskFile>, pieceSize: nat, chunkSize: nat, k: nat)
    requires pieceSize > 0 && chunkSize > 0
  {
    exists i: nat :: NullIn(files, pieceSize, chunkSize, k, i)
  }

  /**
   * A chunk of these bytes is pushed while file i is read, or behind the last file: it is the one that was begun before
   * that file, or one that a file on disk has begun, and an unread file only fills up the chunk it found begun.
   */
  ghost predicate PushedAt(files: seq<DiskFile>, pieceSize: nat, chunkSize: nat, i: nat, from: int, to: int)
    requires pieceSize > 0 && chunkSize > 0
  {
    && i <= |files|
    && (from == ChunkStart(files, pieceSize, chunkSize, i)
        || (i < |files| && !files[i].Unread() && BytesBefore(files, i) < from))
    && (i < |files| ==> to <= ChunkStart(files, pieceSize, chunkSize, i + 1))
    && (i < |files| && files[i].Unread() ==> to <= FirstBoundary(files, pieceSize, chunkSize, i))
  }

  /**
   * The offsets noted in the current chunk after n files: a file on disk notes one at each of its reads, an unread one
   * only when it finds the chunk begun.
   */
  function Noted(files: seq<DiskFile>, pieceSize: nat, chunkSize: nat, n: nat): nat
    requires n <= |files| && pieceSize > 0 && chunkSize > 0
  {
    if n == 0 then 0
    else
      var f, begun := files[n - 1], Begun(files, pieceSize, chunkSize, n - 1);
      var noted := Noted(files, pieceSize, chunkSize, n - 1);
      if f.Unread() && begun == 0 then noted
      else if begun + f.size < chunkSize then noted + 1
      else if f.Unread() then 0
      else 1
  }

  /**
   * The file index of a chunk from `from` on that is pushed while file i is read: as many files back as there are
   * offsets noted. An unread file is not counted yet when it notes its own, so the index is one less.
   */
  function NamedIndex(files: seq<DiskFile>, pieceSize: nat, chunkSize: nat, i: nat, from: int): int
    requires i <= |files| && pieceSize > 0 && chunkSize > 0
  {
    if from != BytesBefore(files, i) - Begun(files, pieceSize, chunkSize, i) then i
    else i - Noted(files, pieceSize, chunkSize, i) - if i < |files| && files[i].Unread() then 1 else 0
  }

  ghost predicate RightIndex(files: seq<DiskFile>, pieceSize: nat, chunkSize: nat, index: nat, from: int, to: int)
    requires pieceSize > 0 && chunkSize > 0
  {
    exists i: nat :: PushedAt(files, pieceSize, chunkSize, i, from, to)
      && index == U32(NamedIndex(files, pieceSize, chunkSize, i, from))
  }

  /** No piece that begins in a range of bytes goes without data. */
  ghost predicate NoneNull(files: seq<DiskFile>, pieceSize: nat, chunkSize: nat, from: int, to: int)
    requires pieceSize > 0 && chunkSize > 0
  {
    forall k: nat :: from <= k * pieceSize < to ==> !SentNull(files, pieceSize, chunkSize, k)
  }

  lemma {:induction false} BegunFits(files: seq<DiskFile>, pieceSize: nat, chunkSize: nat, n: nat)
    requires n <= |files| && 0 < pieceSize <= chunkSize
    ensures Begun(files, pieceSize, chunkSize, n) < chunkSize
  {
    if n > 0 {
      BegunFits(files, pieceSize, chunkSize, n - 1);
    }
  }

  /** A piece that goes without data is zero bytes of one missing or padding file. */
  lemma SentNullInside(files: seq<DiskFile>, pieceSize: nat, chunkSize: nat, k: nat)
    requires 0 < pieceSize <= chunkSize && SentNull(files, pieceSize, chunkSize, k)
    ensures InsideUnread(files, pieceSize, k)
  {
    hide Begun, BytesBefore;
    var i: nat :| NullIn(files, pieceSize, chunkSize, k, i);
    BegunFits(files, pieceSize, chunkSize, i);
  }

  ghost predicate Multiple(x: int, y: nat) {
    exists k: int :: x == k * y
  }

  /** Adding a whole number of chunks keeps a piece boundary. */
  lemma Onward(x: int, q: nat, perChunk: nat, pieceSize: nat)
    requires Multiple(x, pieceSize)
    ensures Multiple(x + q * (perChunk * pieceSize), pieceSize)
  {
    var k: int :| x == k * pieceSize;
    assert (q * perChunk) * pieceSize == q * (perChunk * pieceSize);
    assert (k + q * perChunk) * pieceSize == k * pieceSize + (q * perChunk) * pieceSize;
  }

  /** Adding what a division takes off does, too. */
  lemma OnwardByQuotient(x: int, n: nat, perChunk: nat, pieceSize: nat, chunkSize: nat)
    requires Multiple(x, pieceSize) && chunkSize > 0 && chunkSize == perChunk * pieceSize
    ensures Multiple(x + n - n % chunkSize, pieceSize)
  {
    hide Multiple;
    Onward(x, n / chunkSize, perChunk, pieceSize);
  }

  /** Chunks start at piece boundaries. */
  lemma {:induction false} ChunkStartAligned(files: seq<DiskFile>, pieceSize: nat, perChunk: nat, chunkSize: nat,
                                             n: nat)
    requires n <= |files| && pieceSize > 0 && chunkSize > 0 && chunkSize == perChunk * pieceSize
    ensures Multiple(ChunkStart(files, pieceSize, chunkSize, n), pieceSize)
  {
    if n == 0 {
      assert 0 == 0 * pieceSize;
    } else {
      hide Multiple, BytesBefore;
      ChunkStartAligned(files, pieceSize, perChunk, chunkSize, n - 1);
      BytesOfNext(files, n - 1);
      var start := ChunkStart(files, pieceSize, chunkSize, n - 1);
      var f, begun := files[n - 1], Begun(files, pieceSize, chunkSize, n - 1);
      if !f.Unread() {
        OnwardByQuotient(start, begun + f.size, perChunk, pieceSize, chunkSize);
      } else {
        Onward(start, 1, perChunk, pieceSize);
        if f.size >= ToFill(begun, chunkSize) {
          OnwardByQuotient(start + if begun == 0 then 0 else chunkSize, f.size - ToFill(begun, chunkSize), 1, pieceSize,
                           pieceSize);
        }
      }
    }
  }

  /** With chunks of one piece, the pieces without data are all those inside one missing or padding file. */
  lemma OnePieceChunks(files: seq<DiskFile>, pieceSize: nat, k: nat)
    requires pieceSize > 0
    ensures SentNull(files, pieceSize, pieceSize, k) <==> InsideUnread(files, pieceSize, k)
  {
    hide Begun, BytesBefore, InsideUnread, SentNull;
    if SentNull(files, pieceSize, pieceSize, k) {
      SentNullInside(files, pieceSize, pieceSize, k);
    }
    if InsideUnread(files, pieceSize, k) {
      InsideIsSentNull(files, pieceSize, k);
    }
  }

  /** Whatever the chunk size, a piece a chunk or more into an unread file goes without data. */
  lemma FarInside(files: seq<DiskFile>, pieceSize: nat, chunkSize: nat, k: nat, i: nat)
    requires 0 < pieceSize <= chunkSize && i < |files| && files[i].Unread()
    requires BytesBefore(files, i) + chunkSize <= k * pieceSize
    requires k * pieceSize + pieceSize <= BytesBefore(files, i) + files[i].size
    ensures SentNull(files, pieceSize, chunkSize, k)
  {
    hide Begun, BytesBefore;
    assert NullIn(files, pieceSize, chunkSize, k, i);
  }

  lemma InsideIsSentNull(files: seq<DiskFile>, pieceSize: nat, k: nat)
    requires pieceSize > 0 && InsideUnread(files, pieceSize, k)
    ensures SentNull(files, pieceSize, pieceSize, k)
  {
    hide Begun, BytesBefore;
    var i: nat :| i < |files| && files[i].Unread()
      && BytesBefore(files, i) <= k * pieceSize && k * pieceSize + pieceSize <= BytesBefore(files, i) + files[i].size;
    if Begun(files, pieceSize, pieceSize, i) > 0 {
      ChunkStartAligned(files, pieceSize, 1, pieceSize, i);
      var piece: int :| ChunkStart(files, pieceSize, pieceSize, i) == piece * pieceSize;
      MulAtLeast(k - piece, pieceSize);
      assert (k - piece) * pieceSize == k * pieceSize - piece * pieceSize;
      assert k > piece;
    }
    assert NullIn(files, pieceSize, pieceSize, k, i);
  }

  /** Chunks start further and further on. */
  lemma {:induction false} ChunkStartGrows(files: seq<DiskFile>, pieceSize: nat, chunkSize: nat, m: nat, n: nat)
    requires m <= n <= |files| && pieceSize > 0 && chunkSize > 0
    ensures ChunkStart(files, pieceSize, chunkSize, m) <= ChunkStart(files, pieceSize, chunkSize, n)
  {
    if m < n {
      ChunkStartGrows(files, pieceSize, chunkSize, m, n - 1);
      hide BytesBefore;
      BytesOfNext(files, n - 1);
      var f, begun := files[n - 1], Begun(files, pieceSize, chunkSize, n - 1);
      if !f.Unread() {
        ModAtMost(begun + f.size, chunkSize);
      } else if f.size >= ToFill(begun, chunkSize) {
        ModAtMost(f.size - ToFill(begun, chunkSize), pieceSize);
      }
    }
  }

  lemma ModAtMost(x: nat, y: nat)
    requires y > 0
    ensures x % y <= x && x % y < y
  {
    if x < y {
      DivUnique(x, 0, x, y);
    }
  }

  /** Chunks pushed while file i is read, or after the last file, have no piece that goes without data. */
  lemma DataBetween(files: seq<DiskFile>, pieceSize: nat, chunkSize: nat, i: nat, from: int, to: int)
    requires pieceSize > 0 && chunkSize > 0 && PushedAt(files, pieceSize, chunkSize, i, from, to)
    ensures NoneNull(files, pieceSize, chunkSize, from, to)
  {
    hide BytesBefore, Begun;
    forall k: nat | from <= k * pieceSize < to && SentNull(files, pieceSize, chunkSize, k)
      ensures false
    {
      var j: nat :| NullIn(files, pieceSize, chunkSize, k, j);
      if j < i {
        NullsEnd(files, pieceSize, chunkSize, j);
        ChunkStartGrows(files, pieceSize, chunkSize, j + 1, i);
      } else if j > i {
        BoundaryBehindStart(files, pieceSize, chunkSize, j);
        ChunkStartGrows(files, pieceSize, chunkSize, i + 1, j);
      }
    }
  }

  /** Behind the boundary in an unread file, less than a piece of it goes into the next chunk. */
  lemma NullsEnd(files: seq<DiskFile>, pieceSize: nat, chunkSize: nat, j: nat)
    requires j < |files| && files[j].Unread() && pieceSize > 0 && chunkSize > 0
    requires FirstBoundary(files, pieceSize, chunkSize, j) <= BytesBefore(files, j) + files[j].size
    ensures ChunkStart(files, pieceSize, chunkSize, j + 1) > BytesBefore(files, j) + files[j].size - pieceSize
  {
    hide BytesBefore;
    BytesOfNext(files, j);
    ModAtMost(files[j].size - ToFill(Begun(files, pieceSize, chunkSize, j), chunkSize), pieceSize);
  }

  lemma BoundaryBehindStart(files: seq<DiskFile>, pieceSize: nat, chunkSize: nat, j: nat)
    requires j <= |files| && pieceSize > 0 && chunkSize > 0
    ensures ChunkStart(files, pieceSize, chunkSize, j) <= FirstBoundary(files, pieceSize, chunkSize, j)
  {
    hide BytesBefore, Begun;
  }

  /** A chunk that is not overfilled goes on counting from zero when it is full. */
  lemma FillStep(x: nat, offset: nat, count: nat, chunkSize: nat)
    requires chunkSize > 0 && offset == x % chunkSize && offset + count <= chunkSize
    ensures (x + count) % chunkSize == if offset + count == chunkSize then 0 else offset + count
  {
    var q := x / chunkSize;
    if offset + count == chunkSize {
      NextProduct(q, chunkSize);
      DivUnique(x + count, q + 1, 0, chunkSize);
    } else {
      DivUnique(x + count, q, offset + count, chunkSize);
    }
  }

  lemma NextProduct(q: nat, y: nat)
    ensures (q + 1) * y == q * y + y
  {
  }

  /** A full chunk leaves at most the bytes behind it in the next one. */
  lemma RestBehind(x: nat, more: nat, y: nat)
    requires y > 0 && x % y == 0
    ensures (x + more) % y <= more
  {
    var q, d := x / y, more / y;
    assert (q + d) * y == q * y + d * y;
    DivUnique(x + more, q + d, more % y, y);
    ModAtMost(more, y);
  }

  /**
   * A chunk is right at byte offset `base`: it starts there, and either holds the joined bytes from there on, as many
   * as a chunk has or all that are left, or stands for a piece that goes without data. Its file index follows from the
   * offsets noted, or is that of the file it is a piece of.
   */
  ghost predicate RightChunk(files: seq<DiskFile>, pieceSize: nat, chunkSize: nat, chunk: Chunk, base: nat)
    requires ValidFiles(files) && pieceSize > 0 && chunkSize > 0
  {
    && base == chunk.pieceIndex * pieceSize
    && match chunk.data
       case None =>
         exists i: nat ::
           NullIn(files, pieceSize, chunkSize, chunk.pieceIndex, i) && chunk.fileIndex == U32(i)
       case Some(data) =>
         && 0 < |data| <= chunkSize && base + |data| <= BytesBefore(files, |files|)
         && data == Joined(files, |files|)[base..base + |data|]
         && (|data| == chunkSize || base + |data| == BytesBefore(files, |files|))
         && RightIndex(files, pieceSize, chunkSize, chunk.fileIndex, base, base + |data|)
  }

  /** The chunks cover the joined bytes up to piece `pieces`, each right and starting where the one before ends. */
  ghost predicate RightChunks(files: seq<DiskFile>, pieceSize: nat, chunkSize: nat, chunks: seq<Chunk>, pieces: nat)
    requires ValidFiles(files) && pieceSize > 0 && chunkSize > 0
  {
    if chunks == [] then pieces == 0
    else
      var last := chunks[|chunks| - 1];
      && pieces == last.pieceIndex + PiecesIn(last, pieceSize)
      && RightChunk(files, pieceSize, chunkSize, last, last.pieceIndex * pieceSize)
      && RightChunks(files, pieceSize, chunkSize, chunks[..|chunks| - 1], last.pieceIndex)
  }

  /** The file in which offset `base` lies, the one before when it ends there; the first of several such. */
  ghost predicate FirstAt(files: seq<DiskFile>, f: int, base: int) {
    0 <= f < |files| && (f == 0 || BytesBefore(files, f) < base) && base <= BytesBefore(files, f + 1)
  }

  ghost predicate AllOnDisk(files: seq<DiskFile>) {
    forall f :: f in files ==> !f.Unread()
  }

  lemma NoNullOnDisk(files: seq<DiskFile>, pieceSize: nat, chunkSize: nat, k: nat)
    requires AllOnDisk(files) && pieceSize > 0 && chunkSize > 0
    ensures !SentNull(files, pieceSize, chunkSize, k)
  {
    hide Begun, BytesBefore;
    forall i: nat
      ensures !NullIn(files, pieceSize, chunkSize, k, i)
    {
      assert i < |files| ==> files[i] in files;
    }
  }

  /** With every file on disk, the offsets noted are those of the files that touch the chunk. */
  lemma {:induction false} NotedOnDisk(files: seq<DiskFile>, pieceSize: nat, chunkSize: nat, n: nat)
    requires n <= |files| && AllOnDisk(files) && 0 < pieceSize <= chunkSize
    ensures Noted(files, pieceSize, chunkSize, n) <= n
    ensures n > 0 ==> FirstAt(files, n - Noted(files, pieceSize, chunkSize, n),
                              ChunkStart(files, pieceSize, chunkSize, n))
  {
    if n > 0 {
      hide BytesBefore;
      NotedOnDisk(files, pieceSize, chunkSize, n - 1);
      BegunFits(files, pieceSize, chunkSize, n - 1);
      BytesOfNext(files, n - 1);
      assert files[n - 1] in files;
      var x := Begun(files, pieceSize, chunkSize, n - 1) + files[n - 1].size;
      if x < chunkSize {
        DivUnique(x, 0, x, chunkSize);
      } else {
        ModBelow(x, chunkSize);
      }
    }
  }

  lemma ModBelow(x: nat, y: nat)
    requires 0 < y <= x
    ensures x % y <= x - y
  {
    RestBehind(y, x - y, y);
  }

  /** With every file on disk, the file index of a chunk is that of the first file at its start. */
  lemma FileIndexOnDisk(files: seq<DiskFile>, pieceSize: nat, chunkSize: nat, chunk: Chunk, base: nat)
    requires ValidFiles(files) && AllOnDisk(files) && 0 < pieceSize <= chunkSize
    requires RightChunk(files, pieceSize, chunkSize, chunk, base) && chunk.data.Some?
    ensures exists f: nat :: FirstAt(files, f, base) && chunk.fileIndex == U32(f)
  {
    hide Joined, BytesBefore, U32, Begun, Noted;
    var to := base + |chunk.data.value|;
    var i: nat :| PushedAt(files, pieceSize, chunkSize, i, base, to)
      && chunk.fileIndex == U32(NamedIndex(files, pieceSize, chunkSize, i, base));
    if i < |files| {
      assert files[i] in files;
      BytesOfNext(files, i);
    }
    NoBytesBefore(files);
    NotedOnDisk(files, pieceSize, chunkSize, i);
    assert FirstAt(files, NamedIndex(files, pieceSize, chunkSize, i, base), base);
  }

  lemma NoBytesBefore(files: seq<DiskFile>)
    ensures BytesBefore(files, 0) == 0
  {
  }

  lemma PushRight(files: seq<DiskFile>, pieceSize: nat, chunkSize: nat, chunks: seq<Chunk>, pieces: nat, chunk: Chunk)
    requires ValidFiles(files) && pieceSize > 0 && chunkSize > 0
    requires RightChunks(files, pieceSize, chunkSize, chunks, pieces)
    requires chunk.pieceIndex == pieces && RightChunk(files, pieceSize, chunkSize, chunk, pieces * pieceSize)
    ensures RightChunks(files, pieceSize, chunkSize, chunks + [chunk], pieces + PiecesIn(chunk, pieceSize))
  {
    assert (chunks + [chunk])[..|chunks|] == chunks;
  }

  /** The bytes of the files on disk among the first n. */
  function BytesOnDisk(files: seq<DiskFile>, n: nat): nat
    requires n <= |files|
  {
    if n == 0 then 0 else BytesOnDisk(files, n - 1) + if files[n - 1].Unread() then 0 else files[n - 1].size
  }

  lemma NextOnDisk(files: seq<DiskFile>, n: nat)
    requires n < |files|
    ensures BytesOnDisk(files, n + 1) == BytesOnDisk(files, n) + if files[n].Unread() then 0 else files[n].size
  {
  }

  class V1ChunkReader {
    const files: seq<DiskFile>
    const pieceSize: nat
    const chunkSize: nat
    const piecesPerChunk: nat
    var pieceIndex: nat
    var fileIndex: nat
    var chunk: seq<byte>
    var chunkOffset: nat
    var fileOffsets: seq<nat>
    var bytesRead: nat
    var queue: seq<Chunk>

    ghost predicate Configured() {
      && pieceSize > 0 && chunkSize > 0 && chunkSize == piecesPerChunk * pieceSize
      && ValidFiles(files) && PieceCount(files, pieceSize) < U32_MAX
    }

    /** The first `consumed` joined bytes are in pushed chunks or in the current one. */
    ghost predicate Buffered(consumed: nat)
      requires Configured()
      reads `chunk, `chunkOffset, `pieceIndex, `queue
    {
      && consumed <= BytesBefore(files, |files|)
      && |chunk| == chunkSize && chunkOffset <= chunkSize
      && pieceIndex * pieceSize + chunkOffset == consumed
      && chunk[..chunkOffset] == Joined(files, |files|)[pieceIndex * pieceSize..consumed]
      && RightChunks(files, pieceSize, chunkSize, queue, pieceIndex)
    }

    constructor (files: seq<DiskFile>, pieceSize: nat, chunkSize: nat)
      requires pieceSize > 0 && chunkSize > 0 && chunkSize % pieceSize == 0 && ValidFiles(files)
      requires PieceCount(files, pieceSize) < U32_MAX
      ensures this.files == files && this.pieceSize == pieceSize && this.chunkSize == chunkSize && Configured()
      ensures pieceIndex == 0 && fileIndex == 0 && chunkOffset == 0 && fileOffsets == [] && queue == [] &&
                bytesRead == 0
    {
      this.files, this.pieceSize, this.chunkSize := files, pieceSize, chunkSize;
      piecesPerChunk := chunkSize / pieceSize;
      pieceIndex, fileIndex, chunk, chunkOffset, fileOffsets, bytesRead, queue := 0, 0, [], 0, [], 0, [];
    }

    /** Hands a chunk over; the index fields are cut to 32 bits. */
    method Push(pieceIndex: int, fileIndex: int, data: Option<seq<byte>>)
      modifies this`queue
      ensures queue == old(queue) + [Chunk(U32(pieceIndex), U32(fileIndex), data)]
    {
      queue := queue + [Chunk(U32(pieceIndex), U32(fileIndex), data)];
    }

    /** Takes a chunk buffer from the pool; whatever it held before is still in it. */
    method NewChunk()
      modifies this`chunk
      ensures |chunk| == chunkSize
    {
      assert |Zeros(chunkSize)| == chunkSize;
      var recycled: seq<byte> :| |recycled| == chunkSize;
      chunk := recycled;
    }

    /** Writes the next joined bytes at the current offset of the chunk buffer. */
    method Fill(bytes: seq<byte>, ghost consumed: nat)
      requires Configured() && Buffered(consumed) && chunkOffset + |bytes| <= chunkSize
      requires consumed + |bytes| <= BytesBefore(files, |files|) &&
                 bytes == Joined(files, |files|)[consumed..consumed + |bytes|]
      modifies this`chunk, this`chunkOffset
      ensures Buffered(consumed + |bytes|) && chunkOffset == old(chunkOffset) + |bytes|
    {
      hide RightChunks, Joined, BytesBefore, PieceCount;
      JoinSlices(Joined(files, |files|), pieceIndex * pieceSize, consumed, consumed + |bytes|);
      ghost var before := chunk[..chunkOffset];
      chunk := chunk[..chunkOffset] + bytes + chunk[chunkOffset + |bytes|..];
      chunkOffset := chunkOffset + |bytes|;
      assert chunk[..chunkOffset] == before + bytes;
    }

    /** The first chunk pushed since then has that file index. */
    ghost predicate NamesFile(before: seq<Chunk>, file: nat)
      reads `queue
    {
      |queue| > |before| && queue[..|before|] == before && queue[|before|].fileIndex == file
    }

    /** Pushes the chunk when it is full, and starts a new one. */
    method PushIfFull(ghost consumed: nat)
      requires Configured() && Buffered(consumed)
      requires chunkOffset == chunkSize ==> RightIndex(files, pieceSize, chunkSize, U32(fileIndex - |fileOffsets|),
                                                       consumed - chunkSize, consumed)
      modifies this`queue, this`chunk, this`chunkOffset, this`fileOffsets, this`pieceIndex
      ensures Buffered(consumed) && chunkOffset < chunkSize
      ensures old(chunkOffset) == chunkSize ==>
                && chunkOffset == 0 && fileOffsets == [] && |queue| == |old(queue)| + 1
                && NamesFile(old(queue), U32(fileIndex - |old(fileOffsets)|))
      ensures old(chunkOffset) != chunkSize ==>
                chunkOffset == old(chunkOffset) && fileOffsets == old(fileOffsets) && queue == old(queue)
    {
      hide RightChunks, Joined, BytesBefore, PieceCount, RightIndex;
      if chunkOffset == chunkSize {
        assert chunk[..chunkOffset] == chunk;
        ChunkBeforeEnd(files, pieceSize, chunkSize, piecesPerChunk, pieceIndex);
        U32Fits(pieceIndex);
        ghost var pushed := Chunk(pieceIndex, U32(fileIndex - |fileOffsets|), Some(chunk));
        Push(pieceIndex, fileIndex - |fileOffsets|, Some(chunk));
        PushRight(files, pieceSize, chunkSize, old(queue), pieceIndex, pushed);
        NewChunk();
        chunkOffset := 0;
        fileOffsets := [];
        pieceIndex := pieceIndex + piecesPerChunk;
      }
    }

    /** The read loop of a file on disk. */
    method ReadFile(i: nat)
      requires Configured() && i < |files| && !files[i].Unread()
      requires Buffered(BytesBefore(files, i)) && AtFile(i) && fileIndex == i + 1
      modifies this`queue, this`chunk, this`chunkOffset, this`fileOffsets, this`pieceIndex, this`bytesRead
      ensures Buffered(BytesBefore(files, i + 1)) && AtFile(i + 1) && bytesRead == old(bytesRead) + files[i].size
      ensures old(chunkOffset) + files[i].size < chunkSize ==>
                && fileOffsets == old(fileOffsets) + [old(chunkOffset)] && queue == old(queue)
                && chunkOffset == old(chunkOffset) + files[i].size
    {
      hide Buffered, BytesBefore, PieceCount, Begun, Noted;
      BytesOfNext(files, i);
      StartReading(i);
      var position := 0;
      var eof := false;
      while !eof
        invariant 0 <= position <= files[i].size && Buffered(BytesBefore(files, i) + position)
        invariant bytesRead == old(bytesRead) + position
        invariant if eof then AtFile(i + 1) else Reading(i, position)
        invariant eof ==> position == files[i].size
        invariant old(chunkOffset) + files[i].size < chunkSize ==>
                    && queue == old(queue) && chunkOffset == old(chunkOffset) + position && (!eof ==> position == 0)
                    && fileOffsets == old(fileOffsets) + if eof then [old(chunkOffset)] else []
        decreases !eof, files[i].size - position
      {
        position, eof := ReadPart(i, position);
      }
    }

    /** How much of the current chunk is filled when file i is reached. */
    ghost function BegunBefore(i: nat): nat
      requires Configured() && i <= |files|
    {
      Begun(files, pieceSize, chunkSize, i)
    }

    /** File i is next. */
    ghost predicate AtFile(i: nat)
      requires Configured() && i <= |files|
      reads `chunkOffset, `fileOffsets
    {
      chunkOffset == BegunBefore(i) < chunkSize && |fileOffsets| == Noted(files, pieceSize, chunkSize, i)
    }

    /** The first bytes of file i are read; if any, they have filled a chunk. */
    ghost predicate Reading(i: nat, position: nat)
      requires Configured() && i < |files|
      reads `chunkOffset, `fileOffsets
    {
      && chunkOffset == (BegunBefore(i) + position) % chunkSize < chunkSize
      && if position == 0 then AtFile(i) else chunkOffset == 0 && fileOffsets == []
    }

    lemma BegunByRead(i: nat)
      requires Configured() && i < |files| && !files[i].Unread()
      ensures BegunBefore(i + 1) == (BegunBefore(i) + files[i].size) % chunkSize
      ensures Noted(files, pieceSize, chunkSize, i + 1)
              == if BegunBefore(i) + files[i].size < chunkSize then Noted(files, pieceSize, chunkSize, i) + 1 else 1
    {
    }

    lemma StartReading(i: nat)
      requires Configured() && i < |files| && AtFile(i)
      ensures Reading(i, 0)
    {
      DivUnique(BegunBefore(i), 0, BegunBefore(i), chunkSize);
    }

    /** A read that fills the chunk: the chunk may be pushed, and the next one starts empty. */
    lemma FullByRead(i: nat, position: nat, next: nat)
      requires Configured() && i < |files| && !files[i].Unread() && Reading(i, position)
      requires next == position + chunkSize - chunkOffset <= files[i].size
      ensures (BegunBefore(i) + next) % chunkSize == 0
      ensures RightIndex(files, pieceSize, chunkSize, U32(i - |fileOffsets|), BytesBefore(files, i) + next - chunkSize,
                         BytesBefore(files, i) + next)
    {
      hide BytesBefore, Begun, PieceCount, Noted, U32;
      BytesOfNext(files, i);
      BegunByRead(i);
      FillStep(BegunBefore(i) + position, chunkOffset, next - position, chunkSize);
      RestBehind(BegunBefore(i) + next, files[i].size - next, chunkSize);
      assert PushedAt(files, pieceSize, chunkSize, i, BytesBefore(files, i) + next - chunkSize,
                      BytesBefore(files, i) + next);
    }

    /** A read that does not fill the chunk has reached the end of the file. */
    lemma EndByRead(i: nat, position: nat)
      requires Configured() && i < |files| && !files[i].Unread() && Reading(i, position) && position <= files[i].size
      requires files[i].size - position < chunkSize - chunkOffset
      ensures BegunBefore(i + 1) == chunkOffset + files[i].size - position
      ensures Noted(files, pieceSize, chunkSize, i + 1) == |fileOffsets| + 1
    {
      hide Begun, Noted, PieceCount;
      BegunByRead(i);
      FillStep(BegunBefore(i) + position, chunkOffset, files[i].size - position, chunkSize);
      if BegunBefore(i) + position < chunkSize {
        DivUnique(BegunBefore(i) + position, 0, BegunBefore(i) + position, chunkSize);
      }
    }

    /** One read, into what is left of the chunk; a short one ends the file. */
    method ReadPart(i: nat, position: nat) returns (next: nat, eof: bool)
      requires Configured() && i < |files| && !files[i].Unread() && position <= files[i].size
      requires Buffered(BytesBefore(files, i) + position) && Reading(i, position) && fileIndex == i + 1
      modifies this`queue, this`chunk, this`chunkOffset, this`fileOffsets, this`pieceIndex, this`bytesRead
      ensures bytesRead == old(bytesRead) + next - position
      ensures position <= next <= files[i].size && Buffered(BytesBefore(files, i) + next)
      ensures if eof then next == files[i].size && AtFile(i + 1) else next > position && Reading(i, next)
      ensures old(chunkOffset) + files[i].size - position < chunkSize ==>
                && eof && queue == old(queue) && chunkOffset == old(chunkOffset) + files[i].size - position
                && fileOffsets == old(fileOffsets) + [old(chunkOffset)]
    {
      hide RightChunks, Joined, BytesBefore, PieceCount, NamesFile, Begun, Noted, RightIndex, Buffered, U32, Zeros;
      assert files[i] in files;
      FileInJoined(files, i);
      var content := files[i].content.value;
      ghost var start := BytesBefore(files, i);
      var wanted := chunkSize - chunkOffset;
      var count := Min(wanted, |content| - position);
      if count == wanted {
        FullByRead(i, position, position + count);
      } else {
        EndByRead(i, position);
      }
      SliceOfSlice(Joined(files, |files|), start, |content|, position, position + count);
      fileOffsets := fileOffsets + [chunkOffset];
      Fill(content[position..position + count], start + position);
      bytesRead := bytesRead + count;
      next := position + count;
      PushIfFull(start + next);
      eof := count < wanted;
    }

    /** One chunk without data for every whole piece of what is missing. */
    method PushNullPieces(i: nat, missing: nat) returns (rest: nat)
      requires Configured() && i < |files| && files[i].Unread() && missing <= files[i].size && fileIndex == i
      requires Buffered(BytesBefore(files, i) + files[i].size - missing) && chunkOffset < chunkSize
      requires chunkOffset != 0 ==> missing == 0
      requires missing > 0 ==> missing == files[i].size - ToFill(BegunBefore(i), chunkSize)
      modifies this`queue, this`pieceIndex
      ensures rest == missing % pieceSize <= missing && Buffered(BytesBefore(files, i) + files[i].size - rest)
      ensures old(queue) <= queue && (missing == 0 ==> queue == old(queue))
    {
      hide Buffered, BytesBefore, PieceCount, Times, Begun;
      var firstNewPieceIndex;
      firstNewPieceIndex, rest := FirstNewPiece(missing);
      ghost var end := BytesBefore(files, i) + files[i].size;
      ghost var left := missing;
      while pieceIndex < firstNewPieceIndex
        invariant pieceIndex <= firstNewPieceIndex &&
                    left == rest + Times(pieceSize, firstNewPieceIndex - pieceIndex) <= missing
        invariant Buffered(end - left) && (chunkOffset != 0 ==> left == 0)
        invariant old(queue) <= queue && (missing == 0 ==> queue == old(queue))
      {
        TimesStep(pieceSize, firstNewPieceIndex - pieceIndex);
        PushNullPiece(i, left);
        left := left - pieceSize;
      }
      NoTimes(pieceSize);
    }

    /** The first piece that holds data again, and the bytes of it that are still missing. */
    method FirstNewPiece(missing: nat) returns (first: nat, rest: nat)
      requires pieceSize > 0
      ensures first >= pieceIndex && rest == missing % pieceSize < pieceSize
      ensures missing == rest + Times(pieceSize, first - pieceIndex)
    {
      first := pieceIndex + missing / pieceSize;
      WholeAndRest(missing, pieceSize, missing / pieceSize);
      rest := missing - pieceSize * (first - pieceIndex);
    }

    method PushNullPiece(i: nat, ghost left: nat)
      requires Configured() && i < |files| && files[i].Unread() && pieceSize <= left <= files[i].size && fileIndex == i
      requires Buffered(BytesBefore(files, i) + files[i].size - left) && chunkOffset == 0
      requires left <= files[i].size - ToFill(BegunBefore(i), chunkSize)
      modifies this`queue, this`pieceIndex
      ensures pieceIndex == old(pieceIndex) + 1 && old(queue) <= queue
      ensures Buffered(BytesBefore(files, i) + files[i].size - (left - pieceSize))
    {
      hide RightChunks, Joined, BytesBefore, PieceCount, Begun, U32;
      FileInJoined(files, i);
      PieceExists(files, pieceSize, pieceIndex);
      U32Fits(pieceIndex);
      Push(pieceIndex, fileIndex, None);
      ghost var pushed := Chunk(pieceIndex, U32(fileIndex), None);
      assert NullIn(files, pieceSize, chunkSize, pieceIndex, i);
      PushRight(files, pieceSize, chunkSize, old(queue), pieceIndex, pushed);
      pieceIndex := pieceIndex + 1;
    }

    lemma BegunByZeros(i: nat)
      requires Configured() && i < |files| && files[i].Unread()
      ensures var filled := ToFill(BegunBefore(i), chunkSize);
              BegunBefore(i + 1) == if files[i].size < filled then BegunBefore(i) + files[i].size
              else (files[i].size - filled) % pieceSize
      ensures var noted := Noted(files, pieceSize, chunkSize, i);
              Noted(files, pieceSize, chunkSize, i + 1)
              == if BegunBefore(i) == 0 then noted else if BegunBefore(i) + files[i].size < chunkSize then noted + 1
              else 0
    {
    }

    /** The chunk that an unread file fills may be pushed. */
    lemma FullByZeros(i: nat)
      requires Configured() && i < |files| && files[i].Unread() && AtFile(i)
      requires 0 < chunkOffset && chunkSize <= chunkOffset + files[i].size
      ensures var end := BytesBefore(files, i) + chunkSize - chunkOffset;
              RightIndex(files, pieceSize, chunkSize, U32(i - |fileOffsets| - 1), end - chunkSize, end)
    {
      hide BytesBefore, Begun, PieceCount, Noted, U32;
      BytesOfNext(files, i);
      BegunByZeros(i);
      ModAtMost(files[i].size - ToFill(BegunBefore(i), chunkSize), pieceSize);
      var end := BytesBefore(files, i) + chunkSize - chunkOffset;
      assert PushedAt(files, pieceSize, chunkSize, i, end - chunkSize, end);
    }

    /** Zero bytes to fill a chunk that is already begun. */
    method FillCurrentChunk(i: nat) returns (missing: nat)
      requires Configured() && i < |files| && files[i].Unread() && fileIndex == i
      requires Buffered(BytesBefore(files, i)) && AtFile(i)
      modifies this`queue, this`chunk, this`chunkOffset, this`fileOffsets, this`pieceIndex
      ensures |fileOffsets| == Noted(files, pieceSize, chunkSize, i + 1)
      ensures missing <= files[i].size && (chunkOffset != 0 ==> missing == 0)
      ensures var filled := ToFill(BegunBefore(i), chunkSize);
              if files[i].size < filled then missing == 0 && chunkOffset == BegunBefore(i) + files[i].size
              else missing == files[i].size - filled && chunkOffset == 0
      ensures Buffered(BytesBefore(files, i) + files[i].size - missing) && chunkOffset < chunkSize
      ensures old(chunkOffset) != 0 && old(chunkOffset) + files[i].size >= chunkSize ==>
                && missing == files[i].size - (chunkSize - old(chunkOffset)) && |queue| == |old(queue)| + 1
                && NamesFile(old(queue), U32(i - |old(fileOffsets)| - 1))
    {
      hide Buffered, Joined, BytesBefore, PieceCount, Zeros, NamesFile, Begun, Noted, RightIndex, U32;
      BegunByZeros(i);
      missing := files[i].size;
      if chunkOffset != 0 {
        var bytesToFill := Min(chunkSize - chunkOffset, missing);
        if bytesToFill == chunkSize - chunkOffset {
          FullByZeros(i);
        }
        fileOffsets := fileOffsets + [chunkOffset];
        ZeroSlice(files, i, 0, bytesToFill);
        Fill(Zeros(bytesToFill), BytesBefore(files, i));
        missing := missing - bytesToFill;
        PushIfFull(BytesBefore(files, i) + bytesToFill);
      }
    }

    /**
     * Zero bytes to fill the current chunk, one empty chunk for every further whole piece, zero bytes for the rest. The
     * chunk it completes is pushed before `file_index_` has moved past the file, but after its offset was noted, so the
     * index in the chunk is one less than that of the first file noted.
     */
    method HandleMissingFile(i: nat)
      requires Configured() && i < |files| && files[i].Unread() && fileIndex == i
      requires Buffered(BytesBefore(files, i)) && AtFile(i)
      modifies this`queue, this`chunk, this`chunkOffset, this`fileOffsets, this`pieceIndex
      ensures Buffered(BytesBefore(files, i + 1)) && AtFile(i + 1)
      ensures old(chunkOffset) != 0 && old(chunkOffset) + files[i].size >= chunkSize ==>
                && (old(chunkOffset) + files[i].size == chunkSize ==> |queue| == |old(queue)| + 1)
                && NamesFile(old(queue), U32(i - |old(fileOffsets)| - 1))
    {
      hide Buffered, Joined, BytesBefore, PieceCount, Zeros, Begun, Noted;
      BytesOfNext(files, i);
      BegunByZeros(i);
      var missing := FillCurrentChunk(i);
      missing := PushNullPieces(i, missing);
      PieceFitsChunk(pieceSize, piecesPerChunk);
      ZeroSlice(files, i, files[i].size - missing, missing);
      Fill(Zeros(missing), BytesBefore(files, i) + files[i].size - missing);
    }

    /**
     * Reads all files. The chunks cover the joined bytes, missing files being zero bytes, piece by piece, and the
     * piece index ends at the number of pieces, which is the closing contract of the source.
     */
    method Run()
      requires Configured() && pieceIndex == 0 && fileIndex == 0 && chunkOffset == 0 && fileOffsets == []
      requires queue == [] && bytesRead == 0
      modifies this
      ensures pieceIndex == PieceCount(files, pieceSize) && bytesRead == BytesOnDisk(files, |files|)
      ensures RightChunks(files, pieceSize, chunkSize, queue, PieceCount(files, pieceSize))
    {
      hide RightChunks, PieceCount;
      NewChunk();
      NothingRead();
      while fileIndex < |files|
        invariant 0 <= fileIndex <= |files|
        invariant Buffered(BytesBefore(files, fileIndex)) && AtFile(fileIndex)
        invariant bytesRead == BytesOnDisk(files, fileIndex)
      {
        hide Buffered, Joined, BytesBefore, Begun, Noted, BytesOnDisk, AtFile, Configured;
        var i := fileIndex;
        NextOnDisk(files, i);
        if files[i].Unread() {
          HandleMissingFile(i);
          fileIndex := fileIndex + 1;
        } else {
          fileIndex := fileIndex + 1;
          ReadFile(i);
        }
      }
      PushLastChunk();
    }

    /** The last, possibly partial chunk. */
    method PushLastChunk()
      requires Configured() && Buffered(BytesBefore(files, |files|)) && AtFile(|files|) && fileIndex == |files|
      modifies this`queue, this`chunk, this`pieceIndex
      ensures pieceIndex == PieceCount(files, pieceSize)
      ensures RightChunks(files, pieceSize, chunkSize, queue, PieceCount(files, pieceSize))
    {
      hide RightChunks, Joined, BytesBefore, PieceCount, Begun, Noted, U32;
      ghost var total := BytesBefore(files, |files|);
      assert PushedAt(files, pieceSize, chunkSize, |files|, total - chunkOffset, total);
      PiecesAtEnd(files, pieceSize, pieceIndex, chunkOffset);
      if chunkOffset != 0 {
        chunk := chunk[..chunkOffset];
        var piecesInChunk := (chunkOffset + pieceSize - 1) / pieceSize;
        U32Fits(pieceIndex);
        ghost var pushed := Chunk(pieceIndex, U32(fileIndex - |fileOffsets|), Some(chunk));
        Push(pieceIndex, fileIndex - |fileOffsets|, Some(chunk));
        PushRight(files, pieceSize, chunkSize, old(queue), pieceIndex, pushed);
        pieceIndex := pieceIndex + piecesInChunk;
      }
    }

    lemma NothingRead()
      requires Configured() && pieceIndex == 0 && chunkOffset == 0 && queue == [] && |chunk| == chunkSize
      ensures Buffered(BytesBefore(files, 0)) && (fileOffsets == [] ==> AtFile(0))
    {
      assert chunk[..0] == [] && Joined(files, |files|)[0..0] == [];
    }
  }

  /**
   * A file on disk and a missing one that fill a chunk between them: the index in the chunk is one before the first
   * file, and there is none.
   */
  method FileIndexWrapsAround(content: seq<byte>, pieceSize: nat) returns (reader: V1ChunkReader)
    requires 0 < |content| < pieceSize
    ensures reader.files == [DiskFile(|content|, false, Some(content)), DiskFile(pieceSize - |content|, false, None)]
    ensures |reader.queue| == 1 && reader.queue[0].fileIndex == U32_MAX
  {
    var files := [DiskFile(|content|, false, Some(content)), DiskFile(pieceSize - |content|, false, None)];
    OnePieceStorage(files, pieceSize);
    reader := new V1ChunkReader(files, pieceSize, pieceSize);
    reader.NewChunk();
    reader.NothingRead();
    ReadBoth(reader);
  }

  /** The two rounds of the reader over a file on disk and a missing one that fill one chunk. */
  method ReadBoth(reader: V1ChunkReader)
    requires reader.Configured() && |reader.files| == 2 && !reader.files[0].Unread() && reader.files[1].Unread()
    requires 0 < reader.files[0].size < reader.chunkSize == reader.files[0].size + reader.files[1].size
    requires reader.Buffered(0) && reader.AtFile(0) && reader.queue == []
    requires reader.chunkOffset == 0 && reader.fileOffsets == []
    modifies reader
    ensures |reader.queue| == 1 && reader.queue[0].fileIndex == U32_MAX
  {
    hide PieceCount, Joined, Begun, Noted, RightChunks, ToFill;
    hide V1ChunkReader.Buffered, V1ChunkReader.Configured, V1ChunkReader.AtFile;
    reader.fileIndex := 1;
    reader.ReadFile(0);
    reader.HandleMissingFile(1);
  }

  lemma OnePieceStorage(files: seq<DiskFile>, pieceSize: nat)
    requires pieceSize > 0 && |files| == 2 && files[0].size + files[1].size == pieceSize
    ensures PieceCount(files, pieceSize) == 1 < U32_MAX
  {
    assert BytesBefore(files, 2) == BytesBefore(files, 1) + files[1].size;
    assert BytesBefore(files, 1) == files[0].size;
    DivUnique(2 * pieceSize - 1, 1, pieceSize - 1, pieceSize);
  }

  /** Whole pieces and the pieces of what is left make all pieces. */
  lemma PiecesAtEnd(files: seq<DiskFile>, pieceSize: nat, pieces: nat, rest: nat)
    requires pieceSize > 0 && pieces * pieceSize + rest == BytesBefore(files, |files|)
    ensures pieces + DivCeil(rest, pieceSize) == PieceCount(files, pieceSize)
    ensures DivCeil(rest, pieceSize) == (rest + pieceSize - 1) / pieceSize
    ensures rest > 0 ==> pieces < PieceCount(files, pieceSize)
    ensures rest == 0 ==> pieces == PieceCount(files, pieceSize)
  {
    var total := BytesBefore(files, |files|);
    DivCeilAsQuotient(total, pieceSize);
    DivCeilAsQuotient(rest, pieceSize);
    var q, r := rest / pieceSize, rest % pieceSize;
    assert (pieces + q) * pieceSize == pieces * pieceSize + q * pieceSize;
    DivUnique(total, pieces + q, r, pieceSize);
    PieceExists(files, pieceSize, pieces);
  }

  lemma PieceFitsChunk(pieceSize: nat, piecesPerChunk: nat)
    requires piecesPerChunk * pieceSize > 0
    ensures pieceSize <= piecesPerChunk * pieceSize
  {
  }

  /** A full chunk has as many pieces as a chunk holds, and its first piece exists. */
  lemma ChunkBeforeEnd(files: seq<DiskFile>, pieceSize: nat, chunkSize: nat, piecesPerChunk: nat, piece: nat)
    requires pieceSize > 0 && chunkSize > 0 && chunkSize == piecesPerChunk * pieceSize
    requires piece * pieceSize + chunkSize <= BytesBefore(files, |files|)
    ensures piece < PieceCount(files, pieceSize)
    ensures DivCeil(chunkSize, pieceSize) == piecesPerChunk
    ensures (piece + piecesPerChunk) * pieceSize == piece * pieceSize + chunkSize
  {
    PieceExists(files, pieceSize, piece);
    DivUnique(chunkSize, piecesPerChunk, 0, pieceSize);
    assert (piece + piecesPerChunk) * pieceSize == piece * pieceSize + piecesPerChunk * pieceSize;
  }

  lemma PieceExists(files: seq<DiskFile>, pieceSize: nat, piece: nat)
    requires pieceSize > 0
    ensures piece < PieceCount(files, pieceSize) <==> piece * pieceSize < BytesBefore(files, |files|)
  {
    DivCeilAsQuotient(BytesBefore(files, |files|), pieceSize);
    DivCeilCounts(BytesBefore(files, |files|), pieceSize, piece);
  }

  /** A missing file is zero bytes wherever one looks. */
  lemma ZeroSlice(files: seq<DiskFile>, i: nat, from: nat, n: nat)
    requires ValidFiles(files) && i < |files| && files[i].Unread() && from + n <= files[i].size
    ensures var at := BytesBefore(files, i) + from;
            at + n <= BytesBefore(files, |files|) && Joined(files, |files|)[at..at + n] == Zeros(n)
  {
    hide Joined, BytesBefore;
    FileInJoined(files, i);
    assert files[i] in files;
    SliceOfSlice(Joined(files, |files|), BytesBefore(files, i), files[i].size, from, from + n);
    assert Zeros(files[i].size)[from..from + n] == Zeros(n);
  }

  ghost function Times(y: nat, n: nat): nat {
    if n == 0 then 0 else Times(y, n - 1) + y
  }

  lemma {:induction false} TimesIsProduct(y: nat, n: nat)
    ensures Times(y, n) == y * n
  {
    if n > 0 {
      TimesIsProduct(y, n - 1);
    }
  }

  lemma NoTimes(y: nat)
    ensures Times(y, 0) == 0
  {
  }

  lemma TimesStep(y: nat, n: nat)
    requires n > 0
    ensures Times(y, n) == Times(y, n - 1) + y
  {
  }

  lemma WholeAndRest(x: nat, y: nat, n: nat)
    requires y > 0 && n == x / y
    ensures 0 <= x - y * n < y && Times(y, n) == y * n
  {
    TimesIsProduct(y, n);
  }
}
