/** The v1 side of a hybrid torrent: padding entries align files to pieces (src/file_storage.cpp:413-462). */
module HybridLayout {
  import opened Arith
  import opened Digests
  import opened FileHashes
  import opened Options
  import opened Pieces
  import opened Storage
  import opened V2Reader
  import opened V2Hasher

  // ---- The storage -------------------------------------------------------------------------------------------

  /** `make_padding_file_entry` */
  function PaddingFile(size: nat): DiskFile { DiskFile(size, true, None) }

  /** The first n files, each followed by the padding up to the next piece boundary. */
  function AlignedPrefix(files: seq<DiskFile>, n: nat, pieceSize: nat): seq<DiskFile>
    requires n <= |files| && pieceSize > 0
  {
    if n == 0 then []
    else
      AlignedPrefix(files, n - 1, pieceSize) + [files[n - 1]] + PaddingAfter(files[n - 1].size, pieceSize)
  }

  function PaddingAfter(size: nat, pieceSize: nat): seq<DiskFile>
    requires pieceSize > 0
  {
    if size % pieceSize != 0 then [PaddingFile(pieceSize - size % pieceSize)] else []
  }

  function PaddingSize(size: nat, pieceSize: nat): nat
    requires pieceSize > 0
  {
    if size % pieceSize != 0 then pieceSize - size % pieceSize else 0
  }

  /** The padding behind the first n files. */
  function PaddingBytes(files: seq<DiskFile>, n: nat, pieceSize: nat): nat
    requires n <= |files| && pieceSize > 0
  {
    if n == 0 then 0 else PaddingBytes(files, n - 1, pieceSize) + PaddingSize(files[n - 1].size, pieceSize)
  }

  function Aligned(files: seq<DiskFile>, pieceSize: nat): seq<DiskFile>
    requires files != [] && pieceSize > 0
  {
    AlignedPrefix(files, |files| - 1, pieceSize) + [files[|files| - 1]]
  }

  /** `total_regular_file_size` */
  function RegularBytes(files: seq<DiskFile>, n: nat): nat
    requires n <= |files|
  {
    if n == 0 then 0 else RegularBytes(files, n - 1) + if files[n - 1].padding then 0 else files[n - 1].size
  }

  class FileStorage {
    var files: seq<DiskFile>
    var totalFileSize: nat
    var totalRegularFileSize: nat
    var pieceSize: nat

    ghost predicate Valid()
      reads this
    {
      totalFileSize == BytesBefore(files, |files|) && totalRegularFileSize == RegularBytes(files, |files|)
    }

    constructor (pieceSize: nat)
      ensures Valid() && files == [] && this.pieceSize == pieceSize
    {
      files, totalFileSize, totalRegularFileSize, this.pieceSize := [], 0, 0, pieceSize;
    }

    method AddFile(file: DiskFile)
      requires Valid()
      modifies this`files, this`totalFileSize, this`totalRegularFileSize
      ensures Valid() && files == old(files) + [file]
    {
      hide BytesBefore, RegularBytes;
      totalFileSize := totalFileSize + file.size;
      if !file.padding {
        totalRegularFileSize := totalRegularFileSize + file.size;
      }
      files := files + [file];
      BytesWithNext(old(files), file);
    }

    method AddFiles(more: seq<DiskFile>)
      requires Valid()
      modifies this`files, this`totalFileSize, this`totalRegularFileSize
      ensures Valid() && files == old(files) + more
    {
      hide BytesBefore, RegularBytes;
      for i := 0 to |more|
        invariant Valid() && files == old(files) + more[..i]
      {
        AddFile(more[i]);
        PushNext(old(files), more, i);
      }
      assert more[..|more|] == more;
    }

    method Clear()
      modifies this`files, this`totalFileSize, this`totalRegularFileSize
      ensures Valid() && files == []
    {
      files, totalFileSize, totalRegularFileSize := [], 0, 0;
    }

    /** `is_piece_aligned` */
    method IsPieceAligned() returns (aligned: bool)
      requires pieceSize > 0
      ensures aligned <==> PieceAligned(files, pieceSize)
    {
      var bytesOffset := 0;
      aligned := true;
      for i := 0 to |files|
        invariant bytesOffset == BytesBefore(files, i)
        invariant aligned <==> forall j :: 0 <= j < i && !files[j].padding ==> BytesBefore(files, j) % pieceSize == 0
      {
        if !files[i].padding {
          aligned := aligned && bytesOffset % pieceSize == 0;
        }
        bytesOffset := bytesOffset + files[i].size;
      }
    }

    /**
     * `optimize_alignment`; needs at least one file. The result says whether its closing contract holds: exactly when
     * no padding was there already.
     */
    method OptimizeAlignment() returns (ok: bool)
      requires Valid() && pieceSize > 0 && files != []
      modifies this`files, this`totalFileSize, this`totalRegularFileSize
      ensures Valid() && files == Aligned(old(files), pieceSize)
      ensures totalRegularFileSize == old(totalRegularFileSize)
      ensures ok <==> old(totalFileSize) == old(totalRegularFileSize)
    {
      hide BytesBefore, RegularBytes, AlignedPrefix;
      ghost var original := files;
      var aligned, totalPaddingBytes := PushAllWithPadding(files, pieceSize);
      AlignedTotals(original, pieceSize, totalPaddingBytes);
      Clear();
      AddFiles(aligned);
      assert files == aligned == Aligned(original, pieceSize);
      ok := totalFileSize == totalRegularFileSize + totalPaddingBytes;
    }

    /** The loop of `optimize_alignment`: every file but the last with its padding, then the last file. */
    static method PushAllWithPadding(files: seq<DiskFile>, pieceSize: nat)
      returns (aligned: seq<DiskFile>, totalPaddingBytes: nat)
      requires pieceSize > 0 && files != []
      ensures aligned == Aligned(files, pieceSize)
      ensures totalPaddingBytes == PaddingBytes(files, |files| - 1, pieceSize)
    {
      hide PaddingAfter;
      totalPaddingBytes := 0;
      aligned := [];
      for i := 0 to |files| - 1
        invariant aligned == AlignedPrefix(files, i, pieceSize)
        invariant totalPaddingBytes == PaddingBytes(files, i, pieceSize)
      {
        var padding;
        aligned, padding := PushWithPadding(aligned, files[i], pieceSize);
        totalPaddingBytes := totalPaddingBytes + padding;
      }
      aligned := aligned + [files[|files| - 1]];
    }

    /** One round of that loop: the file, and padding up to the next piece if it needs any. */
    static method PushWithPadding(aligned: seq<DiskFile>, file: DiskFile, pieceSize: nat)
      returns (next: seq<DiskFile>, padding: nat)
      requires pieceSize > 0
      ensures next == aligned + [file] + PaddingAfter(file.size, pieceSize)
      ensures padding == PaddingSize(file.size, pieceSize)
    {
      padding := 0;
      next := aligned + [file];
      var bytesTillNextPiece := pieceSize - file.size % pieceSize;
      if bytesTillNextPiece != pieceSize {
        next := next + [PaddingFile(bytesTillNextPiece)];
        padding := bytesTillNextPiece;
      }
    }

    /** `get_pieces_offsets` */
    method GetPiecesOffsets(fileIndex: nat) returns (first: nat, last: nat)
      requires pieceSize > 0 && fileIndex < |files|
      ensures first == BytesBefore(files, fileIndex) / pieceSize &&
                last == first + PiecesOf(files[fileIndex].size, pieceSize)
    {
      hide PiecesOf;
      var cumulativeSize := 0;
      for i := 0 to fileIndex
        invariant cumulativeSize == BytesBefore(files, i)
      {
        cumulativeSize := cumulativeSize + files[i].size;
      }
      first := cumulativeSize / pieceSize;
      last := first + PiecesOf(files[fileIndex].size, pieceSize);
    }
  }

  lemma {:induction false} BytesOfPrefix(a: seq<DiskFile>, b: seq<DiskFile>, n: nat)
    requires n <= |a|
    ensures BytesBefore(a + b, n) == BytesBefore(a, n)
  {
    if n > 0 {
      BytesOfPrefix(a, b, n - 1);
    }
  }

  lemma {:induction false} RegularOfPrefix(a: seq<DiskFile>, b: seq<DiskFile>, n: nat)
    requires n <= |a|
    ensures RegularBytes(a + b, n) == RegularBytes(a, n)
  {
    if n > 0 {
      RegularOfPrefix(a, b, n - 1);
    }
  }

  lemma BytesWithNext(a: seq<DiskFile>, f: DiskFile)
    ensures BytesBefore(a + [f], |a + [f]|) == BytesBefore(a, |a|) + f.size
    ensures RegularBytes(a + [f], |a + [f]|) == RegularBytes(a, |a|) + if f.padding then 0 else f.size
  {
    BytesOfPrefix(a, [f], |a|);
    RegularOfPrefix(a, [f], |a|);
  }

  /** A file and its padding. */
  lemma BytesWithFile(a: seq<DiskFile>, f: DiskFile, pieceSize: nat)
    requires pieceSize > 0
    ensures var all := a + [f] + PaddingAfter(f.size, pieceSize);
            && BytesBefore(all, |all|) == BytesBefore(a, |a|) + f.size + PaddingSize(f.size, pieceSize)
            && RegularBytes(all, |all|) == RegularBytes(a, |a|) + if f.padding then 0 else f.size
  {
    hide BytesBefore, RegularBytes;
    var pad := PaddingAfter(f.size, pieceSize);
    BytesWithNext(a, f);
    if pad != [] {
      BytesWithNext(a + [f], pad[0]);
      assert a + [f] + [pad[0]] == a + [f] + pad;
    } else {
      assert a + [f] + pad == a + [f];
    }
  }

  /** Padding adds its bytes to the files that were there, and none to the regular ones. */
  lemma AlignedTotals(files: seq<DiskFile>, pieceSize: nat, padding: nat)
    requires files != [] && pieceSize > 0 && padding == PaddingBytes(files, |files| - 1, pieceSize)
    ensures var all := Aligned(files, pieceSize);
            && RegularBytes(all, |all|) == RegularBytes(files, |files|)
            && BytesBefore(all, |all|) == BytesBefore(files, |files|) + padding
  {
    var n := |files| - 1;
    assert BytesBefore(files, n + 1) == BytesBefore(files, n) + files[n].size;
    assert RegularBytes(files, n + 1) == RegularBytes(files, n) + if files[n].padding then 0 else files[n].size;
    hide BytesBefore, RegularBytes, AlignedPrefix, PaddingBytes;
    BytesWithNext(AlignedPrefix(files, n, pieceSize), files[n]);
    PrefixTotals(files, n, pieceSize);
  }

  lemma {:induction false} PrefixTotals(files: seq<DiskFile>, n: nat, pieceSize: nat)
    requires n <= |files| && pieceSize > 0
    ensures var a := AlignedPrefix(files, n, pieceSize);
            && RegularBytes(a, |a|) == RegularBytes(files, n)
            && BytesBefore(a, |a|) == BytesBefore(files, n) + PaddingBytes(files, n, pieceSize)
  {
    hide PaddingAfter, PaddingSize;
    if n > 0 {
      PrefixTotals(files, n - 1, pieceSize);
      BytesWithFile(AlignedPrefix(files, n - 1, pieceSize), files[n - 1], pieceSize);
    }
  }

  /** Every regular file starts at a piece boundary. */
  ghost predicate PieceAligned(files: seq<DiskFile>, pieceSize: nat)
    requires pieceSize > 0
  {
    forall j :: 0 <= j < |files| && !files[j].padding ==> BytesBefore(files, j) % pieceSize == 0
  }

  // ---- Bytes done ----------------------------------------------------------------------------------------------

  /** The bytes a list of chunks reports as done. */
  ghost function BytesDone(files: seq<DiskFile>, chunks: seq<Chunk>): nat
    requires OfFirst(chunks, |files|)
  {
    if chunks == [] then 0 else BytesIn(files, chunks[0]) + BytesDone(files, chunks[1..])
  }

  lemma {:induction false} BytesDoneJoin(files: seq<DiskFile>, a: seq<Chunk>, b: seq<Chunk>)
    requires OfFirst(a, |files|) && OfFirst(b, |files|)
    ensures OfFirst(a + b, |files|) && BytesDone(files, a + b) == BytesDone(files, a) + BytesDone(files, b)
  {
    hide BytesIn;
    if a == [] {
      assert a + b == b;
    } else {
      assert (a + b)[1..] == a[1..] + b;
      BytesDoneJoin(files, a[1..], b);
    }
  }

  lemma {:induction false} FileBytesDone(files: seq<DiskFile>, i: nat, content: seq<byte>, piece: nat, chunkSize: nat,
                                         piecesPerChunk: nat)
    requires i < |files| && chunkSize > 0
    ensures var chunks := FileChunks(i, content, piece, chunkSize, piecesPerChunk);
            OfFirst(chunks, |files|) && BytesDone(files, chunks) == |content|
    decreases |content|
  {
    if |content| < chunkSize {
      var last := [Chunk(piece, i, Some(content))];
      assert last[1..] == [];
    } else {
      FileBytesDone(files, i, content[chunkSize..], piece + piecesPerChunk, chunkSize, piecesPerChunk);
    }
  }

  lemma OneFileDone(files: seq<DiskFile>, i: nat, chunkSize: nat, piecesPerChunk: nat)
    requires i < |files| && chunkSize > 0 && files[i].Valid()
    ensures var chunks := ChunksOf(files, i, chunkSize, piecesPerChunk);
            OfFirst(chunks, |files|) && BytesDone(files, chunks) == if files[i].padding then 0 else files[i].size
  {
    hide FileChunks;
    var f := files[i];
    if !f.padding && f.content.Some? {
      FileBytesDone(files, i, f.content.value, 0, chunkSize, piecesPerChunk);
    } else if !f.padding {
      assert [Chunk(0, i, None)][1..] == [];
    }
  }

  /** Over a run the chunks report the bytes of all regular files, missing ones included. */
  lemma {:induction false} RegularBytesDone(files: seq<DiskFile>, n: nat, chunkSize: nat, piecesPerChunk: nat)
    requires n <= |files| && chunkSize > 0 && ValidFiles(files)
    ensures OfFirst(AllChunks(files, n, chunkSize, piecesPerChunk), |files|)
    ensures BytesDone(files, AllChunks(files, n, chunkSize, piecesPerChunk)) == RegularBytes(files, n)
  {
    hide ChunksOf, BytesDone;
    if n == 0 {
      NothingDone(files);
    } else {
      assert files[n - 1] in files;
      RegularBytesDone(files, n - 1, chunkSize, piecesPerChunk);
      OneFileDone(files, n - 1, chunkSize, piecesPerChunk);
      BytesDoneJoin(files, AllChunks(files, n - 1, chunkSize, piecesPerChunk),
                    ChunksOf(files, n - 1, chunkSize, piecesPerChunk));
    }
  }

  lemma NothingDone(files: seq<DiskFile>)
    ensures OfFirst([], |files|) && BytesDone(files, []) == 0
  {
  }

  // ---- What alignment achieves -------------------------------------------------------------------------------

  /** File i starts at the first byte of the piece the offset table gives it. */
  ghost predicate StartsAtPiece(files: seq<DiskFile>, i: nat, pieceSize: nat)
    requires i <= |files| && pieceSize > 0
  {
    BytesBefore(files, i) == PiecesBefore(files, i, pieceSize) * pieceSize
  }

  /** The entry after file i fills its last piece, if that is incomplete. */
  ghost predicate FilledUp(files: seq<DiskFile>, i: nat, pieceSize: nat)
    requires i < |files| && pieceSize > 0
  {
    files[i].size % pieceSize != 0 ==>
      i + 1 < |files| && files[i + 1] == PaddingFile(pieceSize - files[i].size % pieceSize)
  }

  ghost predicate Layout(files: seq<DiskFile>, pieceSize: nat)
    requires pieceSize > 0
  {
    && files != [] && !files[|files| - 1].padding
    && forall i: nat :: i < |files| && !files[i].padding ==>
      StartsAtPiece(files, i, pieceSize) && (i < |files| - 1 ==> FilledUp(files, i, pieceSize))
  }

  ghost predicate PrefixLayout(files: seq<DiskFile>, pieceSize: nat)
    requires pieceSize > 0
  {
    && StartsAtPiece(files, |files|, pieceSize)
    && forall i: nat :: i < |files| && !files[i].padding ==>
      StartsAtPiece(files, i, pieceSize) && FilledUp(files, i, pieceSize)
  }

  lemma {:induction false} PiecesOfPrefix(a: seq<DiskFile>, b: seq<DiskFile>, n: nat, pieceSize: nat)
    requires n <= |a| && pieceSize > 0
    ensures PiecesBefore(a + b, n, pieceSize) == PiecesBefore(a, n, pieceSize)
  {
    hide PiecesOf;
    if n > 0 {
      PiecesOfPrefix(a, b, n - 1, pieceSize);
    }
  }

  lemma LayoutOfPrefix(a: seq<DiskFile>, b: seq<DiskFile>, pieceSize: nat, i: nat)
    requires pieceSize > 0 && i <= |a|
    ensures StartsAtPiece(a + b, i, pieceSize) == StartsAtPiece(a, i, pieceSize)
    ensures i < |a| && FilledUp(a, i, pieceSize) ==> FilledUp(a + b, i, pieceSize)
  {
    BytesOfPrefix(a, b, i);
    PiecesOfPrefix(a, b, i, pieceSize);
  }

  /** A regular file and its padding take whole pieces, as many as the table counts. */
  lemma PaddedSize(size: nat, pieceSize: nat)
    requires pieceSize > 0
    ensures PiecesOf(size, pieceSize) == DivCeil(size, pieceSize)
    ensures size + (if size % pieceSize != 0 then pieceSize - size % pieceSize else 0)
              == PiecesOf(size, pieceSize) * pieceSize
  {
    DivCeilAsQuotient(size, pieceSize);
    assert size == size / pieceSize * pieceSize + size % pieceSize;
    assert (size / pieceSize + 1) * pieceSize == size / pieceSize * pieceSize + pieceSize;
  }

  lemma {:induction false} AlignedPrefixLayout(files: seq<DiskFile>, n: nat, pieceSize: nat)
    requires n <= |files| && pieceSize > 0 && forall f :: f in files ==> !f.padding
    ensures PrefixLayout(AlignedPrefix(files, n, pieceSize), pieceSize)
  {
    if n > 0 {
      AlignedPrefixLayout(files, n - 1, pieceSize);
      ExtendLayout(AlignedPrefix(files, n - 1, pieceSize), files[n - 1], pieceSize);
    }
  }

  lemma ExtendLayout(a: seq<DiskFile>, f: DiskFile, pieceSize: nat)
    requires pieceSize > 0 && PrefixLayout(a, pieceSize) && !f.padding
    ensures PrefixLayout(a + [f] + PaddingAfter(f.size, pieceSize), pieceSize)
  {
    var pad := PaddingAfter(f.size, pieceSize);
    var all := a + [f] + pad;
    assert all == a + ([f] + pad);
    TotalsOfExtension(a, f, pieceSize);
    forall i: nat | i < |all| && !all[i].padding
      ensures StartsAtPiece(all, i, pieceSize) && FilledUp(all, i, pieceSize)
    {
      assert i <= |a|;
      LayoutOfPrefix(a, [f] + pad, pieceSize, i);
    }
  }

  lemma TotalsOfExtension(a: seq<DiskFile>, f: DiskFile, pieceSize: nat)
    requires pieceSize > 0 && StartsAtPiece(a, |a|, pieceSize) && !f.padding
    ensures var all := a + [f] + PaddingAfter(f.size, pieceSize); StartsAtPiece(all, |all|, pieceSize)
  {
    hide PiecesOf, PiecesBefore, BytesBefore, RegularBytes, PaddingAfter;
    PaddedSize(f.size, pieceSize);
    BytesWithFile(a, f, pieceSize);
    PiecesWithFile(a, f, pieceSize);
    AddPieces(BytesBefore(a, |a|), PiecesBefore(a, |a|, pieceSize), PiecesOf(f.size, pieceSize), pieceSize);
  }

  lemma AddPieces(bytes: nat, p: nat, q: nat, pieceSize: nat)
    requires bytes == p * pieceSize
    ensures bytes + q * pieceSize == (p + q) * pieceSize
  {
  }

  lemma PiecesWithFile(a: seq<DiskFile>, f: DiskFile, pieceSize: nat)
    requires pieceSize > 0 && !f.padding
    ensures var all := a + [f] + PaddingAfter(f.size, pieceSize);
            PiecesBefore(all, |all|, pieceSize) == PiecesBefore(a, |a|, pieceSize) + PiecesOf(f.size, pieceSize)
  {
    hide PiecesOf;
    var pad := PaddingAfter(f.size, pieceSize);
    var all := a + [f] + pad;
    assert all == a + ([f] + pad);
    PiecesOfPrefix(a, [f] + pad, |a|, pieceSize);
    assert PiecesBefore(all, |a| + 1, pieceSize) == PiecesBefore(all, |a|, pieceSize) + PiecesOf(f.size, pieceSize);
  }

  /**
   * After `optimize_alignment` every regular file starts at the piece the hasher's table says, and is padded to the
   * next.
   */
  lemma AlignedLayout(files: seq<DiskFile>, pieceSize: nat)
    requires files != [] && pieceSize > 0 && forall f :: f in files ==> !f.padding
    ensures Layout(Aligned(files, pieceSize), pieceSize) && PieceAligned(Aligned(files, pieceSize), pieceSize)
  {
    var n := |files| - 1;
    var a := AlignedPrefix(files, n, pieceSize);
    var all := Aligned(files, pieceSize);
    AlignedPrefixLayout(files, n, pieceSize);
    assert files[n] in files;
    forall i: nat | i < |all| && !all[i].padding
      ensures StartsAtPiece(all, i, pieceSize) && (i < |all| - 1 ==> FilledUp(all, i, pieceSize))
    {
      LayoutOfPrefix(a, [files[n]], pieceSize, i);
    }
    LayoutIsAligned(all, pieceSize);
  }

  lemma LayoutIsAligned(files: seq<DiskFile>, pieceSize: nat)
    requires pieceSize > 0 && Layout(files, pieceSize)
    ensures PieceAligned(files, pieceSize)
    ensures forall i: nat :: i < |files| && !files[i].padding ==>
              BytesBefore(files, i) / pieceSize == PiecesBefore(files, i, pieceSize)
  {
    forall i: nat | i < |files| && !files[i].padding
      ensures BytesBefore(files, i) % pieceSize == 0 &&
                BytesBefore(files, i) / pieceSize == PiecesBefore(files, i, pieceSize)
    {
      assert StartsAtPiece(files, i, pieceSize);
      DivUnique(BytesBefore(files, i), PiecesBefore(files, i, pieceSize), 0, pieceSize);
    }
  }

  /** How entry `next` follows entry `from`: at once, or behind one padding entry that fills up the last piece. */
  ghost predicate Follows(file: DiskFile, all: seq<DiskFile>, from: nat, next: nat, pieceSize: nat)
    requires pieceSize > 0
  {
    if file.size % pieceSize == 0 then next == from + 1
    else
      && next == from + 2 <= |all| && all[from + 1].padding && all[from + 1].content.None?
      && 0 < all[from + 1].size < pieceSize && (file.size + all[from + 1].size) % pieceSize == 0
  }

  /** The first n files stand at these positions, one behind the other, and nothing else is there but their padding. */
  ghost predicate PaddedUpTo(files: seq<DiskFile>, all: seq<DiskFile>, at: seq<nat>, n: nat, pieceSize: nat)
    requires pieceSize > 0
  {
    && n <= |files| && |at| == n + 1 && at[0] == 0 && at[n] == |all|
    && (forall i: nat :: i < n ==> at[i] < |all| && all[at[i]] == files[i])
    && (forall i: nat :: i < n ==> Follows(files[i], all, at[i], at[i + 1], pieceSize))
  }

  lemma {:induction false} PrefixPadded(files: seq<DiskFile>, n: nat, pieceSize: nat) returns (at: seq<nat>)
    requires n <= |files| && pieceSize > 0
    ensures PaddedUpTo(files, AlignedPrefix(files, n, pieceSize), at, n, pieceSize)
  {
    at := [0];
    if n > 0 {
      hide PaddedUpTo, PaddingAfter;
      var before := PrefixPadded(files, n - 1, pieceSize);
      at := ExtendPadded(files, AlignedPrefix(files, n - 1, pieceSize), before, n, pieceSize);
    }
  }

  lemma ExtendPadded(files: seq<DiskFile>, all: seq<DiskFile>, before: seq<nat>, n: nat, pieceSize: nat)
    returns (at: seq<nat>)
    requires 0 < n <= |files| && pieceSize > 0 && PaddedUpTo(files, all, before, n - 1, pieceSize)
    ensures PaddedUpTo(files, all + [files[n - 1]] + PaddingAfter(files[n - 1].size, pieceSize), at, n, pieceSize)
  {
    hide Follows;
    var f := files[n - 1];
    var pad := PaddingAfter(f.size, pieceSize);
    at := before + [|all| + 1 + |pad|];
    LastFollows(f, all, pieceSize);
    forall i: nat | i < n
      ensures Follows(files[i], all + [f] + pad, at[i], at[i + 1], pieceSize)
    {
      if i < n - 1 {
        StillFollows(files[i], all, [f] + pad, at[i], at[i + 1], pieceSize);
        assert all + ([f] + pad) == all + [f] + pad;
      }
    }
  }

  lemma LastFollows(f: DiskFile, all: seq<DiskFile>, pieceSize: nat)
    requires pieceSize > 0
    ensures var pad := PaddingAfter(f.size, pieceSize);
            Follows(f, all + [f] + pad, |all|, |all| + 1 + |pad|, pieceSize)
  {
    PaddingFits(f.size, pieceSize);
  }

  lemma StillFollows(f: DiskFile, all: seq<DiskFile>, more: seq<DiskFile>, from: nat, next: nat, pieceSize: nat)
    requires pieceSize > 0 && next <= |all| && Follows(f, all, from, next, pieceSize)
    ensures Follows(f, all + more, from, next, pieceSize)
  {
  }

  lemma PaddingFits(size: nat, pieceSize: nat)
    requires pieceSize > 0
    ensures size % pieceSize != 0 ==> 0 < pieceSize - size % pieceSize < pieceSize
    ensures size % pieceSize != 0 ==> (size + (pieceSize - size % pieceSize)) % pieceSize == 0
  {
    PaddedSize(size, pieceSize);
    if size % pieceSize != 0 {
      DivUnique(size + (pieceSize - size % pieceSize), PiecesOf(size, pieceSize), 0, pieceSize);
    }
  }

  /**
   * What `optimize_alignment` makes of a storage: its files in their order, the last one at the end, and between two of
   * them one padding entry when the first is not a whole number of pieces, shorter than a piece and filling it up, and
   * nothing otherwise.
   */
  lemma AlignedShape(files: seq<DiskFile>, pieceSize: nat) returns (at: seq<nat>)
    requires files != [] && pieceSize > 0
    ensures var all := Aligned(files, pieceSize);
            && |at| == |files| && at[0] == 0 && at[|files| - 1] == |all| - 1
            && (forall i: nat :: i < |files| ==> at[i] < |all| && all[at[i]] == files[i])
            && (forall i: nat :: i + 1 < |files| ==> Follows(files[i], all, at[i], at[i + 1], pieceSize))
  {
    hide AlignedPrefix;
    at := PrefixPadded(files, |files| - 1, pieceSize);
  }

  /** The entries that are no padding. */
  function Regular(files: seq<DiskFile>): seq<DiskFile> {
    if files == [] then []
    else Regular(files[..|files| - 1]) + if files[|files| - 1].padding then [] else [files[|files| - 1]]
  }

  lemma RegularOfNext(files: seq<DiskFile>, f: DiskFile)
    ensures Regular(files + [f]) == Regular(files) + if f.padding then [] else [f]
  {
    assert (files + [f])[..|files|] == files;
  }

  lemma {:induction false} RegularOfAlignedPrefix(files: seq<DiskFile>, n: nat, pieceSize: nat)
    requires n <= |files| && pieceSize > 0
    ensures Regular(AlignedPrefix(files, n, pieceSize)) == Regular(files[..n])
  {
    if n > 0 {
      RegularOfAlignedPrefix(files, n - 1, pieceSize);
      hide Regular, AlignedPrefix, PaddingAfter;
      PrefixOfNext(files, n, pieceSize);
      RegularWithPadding(AlignedPrefix(files, n - 1, pieceSize), files[n - 1], pieceSize);
      RegularOfFirst(files, n);
    }
  }

  lemma RegularOfFirst(files: seq<DiskFile>, n: nat)
    requires 0 < n <= |files|
    ensures Regular(files[..n]) == Regular(files[..n - 1]) + if files[n - 1].padding then [] else [files[n - 1]]
  {
    hide Regular;
    assert files[..n] == files[..n - 1] + [files[n - 1]];
    RegularOfNext(files[..n - 1], files[n - 1]);
  }

  lemma RegularWithPadding(before: seq<DiskFile>, f: DiskFile, pieceSize: nat)
    requires pieceSize > 0
    ensures Regular(before + [f] + PaddingAfter(f.size, pieceSize)) == Regular(before + [f])
         == Regular(before) + if f.padding then [] else [f]
  {
    hide Regular;
    RegularOfNext(before, f);
    var pad := PaddingAfter(f.size, pieceSize);
    if pad == [] {
      assert before + [f] + pad == before + [f];
    } else {
      RegularOfNext(before + [f], pad[0]);
      assert before + [f] + [pad[0]] == before + [f] + pad;
    }
  }

  lemma PrefixOfNext(files: seq<DiskFile>, n: nat, pieceSize: nat)
    requires 0 < n <= |files| && pieceSize > 0
    ensures AlignedPrefix(files, n, pieceSize)
            == AlignedPrefix(files, n - 1, pieceSize) + [files[n - 1]] + PaddingAfter(files[n - 1].size, pieceSize)
  {
  }

  /** Without its padding entries an aligned storage is the storage it was made of, without those it had. */
  lemma RegularOfAligned(files: seq<DiskFile>, pieceSize: nat)
    requires files != [] && pieceSize > 0
    ensures Regular(Aligned(files, pieceSize)) == Regular(files)
    ensures (forall f :: f in files ==> !f.padding) ==> Regular(Aligned(files, pieceSize)) == files
  {
    hide Regular, AlignedPrefix;
    var n := |files| - 1;
    RegularOfAlignedPrefix(files, n, pieceSize);
    RegularOfNext(AlignedPrefix(files, n, pieceSize), files[n]);
    RegularOfNext(files[..n], files[n]);
    assert files == files[..n] + [files[n]];
    if forall f :: f in files ==> !f.padding {
      AllRegular(files);
    }
  }

  lemma {:induction false} AllRegular(files: seq<DiskFile>)
    requires forall f :: f in files ==> !f.padding
    ensures Regular(files) == files
  {
    if files != [] {
      AllRegular(files[..|files| - 1]);
    }
  }

  // ---- The v1 pieces of a hybrid run -------------------------------------------------------------------------

  /** The v1 messages of a list of chunks, in order. */
  ghost function AllPieces(files: seq<DiskFile>, chunks: seq<Chunk>, pieceSize: nat): seq<HashedPiece>
    requires pieceSize > 0 && OfFirst(chunks, |files|)
  {
    if chunks == [] then []
    else ChunkPieces(files, chunks[0], pieceSize) + AllPieces(files, chunks[1..], pieceSize)
  }

  lemma {:induction false} AllPiecesJoin(files: seq<DiskFile>, a: seq<Chunk>, b: seq<Chunk>, pieceSize: nat)
    requires pieceSize > 0 && OfFirst(a, |files|) && OfFirst(b, |files|)
    ensures OfFirst(a + b, |files|)
    ensures AllPieces(files, a + b, pieceSize) == AllPieces(files, a, pieceSize) + AllPieces(files, b, pieceSize)
  {
    hide ChunkPieces;
    if a == [] {
      assert a + b == b;
    } else {
      assert (a + b)[1..] == a[1..] + b;
      AllPiecesJoin(files, a[1..], b, pieceSize);
    }
  }

  /** Chunks of whole pieces leave the pieces of the file as they are. */
  lemma PiecesSplit(first: nat, content: seq<byte>, pieceSize: nat, pieces: nat, pad: bool)
    requires pieceSize > 0 && pieces * pieceSize <= |content|
    ensures PieceMessages(first, content, pieceSize, pad)
         == PieceMessages(first, content[..pieces * pieceSize], pieceSize, pad)
          + PieceMessages(first + pieces, content[pieces * pieceSize..], pieceSize, pad)
  {
    hide DivCeil;
    var cut := pieces * pieceSize;
    var head, tail := content[..cut], content[cut..];
    SplitCounts(|content|, pieceSize, pieces);
    forall k: nat | k < DivCeil(|content|, pieceSize)
      ensures PieceMessages(first, content, pieceSize, pad)[k]
           == (PieceMessages(first, head, pieceSize, pad) + PieceMessages(first + pieces, tail, pieceSize, pad))[k]
    {
      if k < pieces {
        PieceOfHead(content, pieceSize, pieces, k, pad);
      } else {
        DivCeilCounts(|tail|, pieceSize, k - pieces);
        PieceOfTail(content, pieceSize, pieces, k - pieces, pad);
      }
    }
  }

  lemma SplitCounts(size: nat, pieceSize: nat, pieces: nat)
    requires pieceSize > 0 && pieces * pieceSize <= size
    ensures DivCeil(pieces * pieceSize, pieceSize) == pieces
    ensures DivCeil(size - pieces * pieceSize, pieceSize) + pieces == DivCeil(size, pieceSize)
  {
    DivUnique(pieces * pieceSize, pieces, 0, pieceSize);
    var q, r := (size - pieces * pieceSize) / pieceSize, (size - pieces * pieceSize) % pieceSize;
    assert (q + pieces) * pieceSize == q * pieceSize + pieces * pieceSize;
    DivUnique(size, q + pieces, r, pieceSize);
  }

  lemma PieceOfHead(content: seq<byte>, pieceSize: nat, pieces: nat, k: nat, pad: bool)
    requires pieceSize > 0 && pieces * pieceSize <= |content| && k < pieces
    ensures k * pieceSize + pieceSize <= pieces * pieceSize
    ensures PaddedPiece(content, pieceSize, k, pad) == PaddedPiece(content[..pieces * pieceSize], pieceSize, k, pad)
  {
    MulMonotone(k + 1, pieces, pieceSize);
    assert (k + 1) * pieceSize == k * pieceSize + pieceSize;
  }

  lemma PieceOfTail(content: seq<byte>, pieceSize: nat, pieces: nat, k: nat, pad: bool)
    requires pieceSize > 0 && pieces * pieceSize + k * pieceSize <= |content|
    ensures (k + pieces) * pieceSize == pieces * pieceSize + k * pieceSize
    ensures PaddedPiece(content, pieceSize, k + pieces, pad)
              == PaddedPiece(content[pieces * pieceSize..], pieceSize, k, pad)
  {
    hide PaddedFrom;
    assert (k + pieces) * pieceSize == pieces * pieceSize + k * pieceSize;
    PaddedFromTail(content, pieceSize, pieces * pieceSize, k * pieceSize, pad);
  }

  lemma PaddedFromTail(content: seq<byte>, pieceSize: nat, cut: nat, at: nat, pad: bool)
    requires cut + at <= |content|
    ensures PaddedFrom(content, pieceSize, cut + at, pad) == PaddedFrom(content[cut..], pieceSize, at, pad)
  {
    assert PieceFrom(content, pieceSize, cut + at) == PieceFrom(content[cut..], pieceSize, at);
  }

  /** The chunks of a file yield the pieces of the file. */
  lemma {:induction false} FilePieces(files: seq<DiskFile>, i: nat, content: seq<byte>, piece: nat, pieceSize: nat,
                                      chunkSize: nat, piecesPerChunk: nat)
    requires pieceSize > 0 && i < |files| && chunkSize == piecesPerChunk * pieceSize > 0
    ensures OfFirst(FileChunks(i, content, piece, chunkSize, piecesPerChunk), |files|)
    ensures AllPieces(files, FileChunks(i, content, piece, chunkSize, piecesPerChunk), pieceSize)
         == PieceMessages(PiecesBefore(files, i, pieceSize) + piece, content, pieceSize, PadsLastPiece(files, i))
    decreases |content|
  {
    hide PieceMessages, PiecesBefore;
    var chunks := FileChunks(i, content, piece, chunkSize, piecesPerChunk);
    var first := PiecesBefore(files, i, pieceSize) + piece;
    if |content| < chunkSize {
      assert chunks == [Chunk(piece, i, Some(content))] && chunks[1..] == [];
    } else {
      var rest := FileChunks(i, content[chunkSize..], piece + piecesPerChunk, chunkSize, piecesPerChunk);
      assert chunks == [Chunk(piece, i, Some(content[..chunkSize]))] + rest && chunks[1..] == rest;
      FilePieces(files, i, content[chunkSize..], piece + piecesPerChunk, pieceSize, chunkSize, piecesPerChunk);
      PiecesSplit(first, content, pieceSize, piecesPerChunk, PadsLastPiece(files, i));
    }
  }

  /** A storage laid out for a hybrid torrent, and chunks of whole pieces. */
  ghost predicate HybridRun(files: seq<DiskFile>, pieceSize: nat, chunkSize: nat, piecesPerChunk: nat) {
    && pieceSize > 0 && chunkSize == piecesPerChunk * pieceSize > 0
    && ValidFiles(files) && Layout(files, pieceSize)
  }

  /** Piece k belongs to a file that is on disk. */
  ghost predicate OnDisk(files: seq<DiskFile>, pieceSize: nat, k: nat)
    requires pieceSize > 0
  {
    exists i: nat :: i < |files| && !files[i].Unread() && PieceOf(files, pieceSize, i, k)
  }

  ghost predicate PieceOf(files: seq<DiskFile>, pieceSize: nat, i: nat, k: nat)
    requires pieceSize > 0 && i < |files|
  {
    PiecesBefore(files, i, pieceSize) <= k < PiecesBefore(files, i + 1, pieceSize)
  }

  /** Among the first n pieces of the joined bytes, those of files on disk, in order. */
  ghost function Present(files: seq<DiskFile>, pieceSize: nat, n: nat): seq<HashedPiece>
    requires pieceSize > 0 && ValidFiles(files) && n <= DivCeil(BytesBefore(files, |files|), pieceSize)
  {
    if n == 0 then []
    else
      DivCeilCounts(BytesBefore(files, |files|), pieceSize, n - 1);
      var rest := Present(files, pieceSize, n - 1);
      if OnDisk(files, pieceSize, n - 1) then
        rest + [HashedPiece(n - 1, Sha1(Piece(Joined(files, |files|), pieceSize, n - 1)))]
      else rest
  }

  /** The padded content of a regular file is what the joined bytes hold from its offset on. */
  lemma PieceInJoined(files: seq<DiskFile>, i: nat, pieceSize: nat, at: nat)
    requires pieceSize > 0 && ValidFiles(files) && Layout(files, pieceSize)
    requires i < |files| && !files[i].Unread() && files[i].Valid()
    requires at < files[i].size && (at + pieceSize > files[i].size ==> files[i].size % pieceSize == files[i].size - at)
    ensures BytesBefore(files, i) + at <= BytesBefore(files, |files|)
    ensures PaddedFrom(files[i].content.value, pieceSize, at, PadsLastPiece(files, i))
         == PieceFrom(Joined(files, |files|), pieceSize, BytesBefore(files, i) + at)
  {
    hide PaddedFrom, PieceFrom, Joined, Zeros, BytesBefore, PadsLastPiece, Layout;
    var all, off, content := Joined(files, |files|), BytesBefore(files, i), files[i].content.value;
    FileInJoined(files, i);
    if at + pieceSize <= |content| {
      WholePieceOfPart(all, off, content, pieceSize, at, PadsLastPiece(files, i));
    } else {
      AfterIncompletePiece(files, i, pieceSize, at);
      if i == |files| - 1 {
        assert all[off..] == all[off..off + |content|];
        LastPieceOfPart(all, off, content, pieceSize, at);
      } else {
        FilledPieceOfPart(all, off, content, pieceSize, at);
      }
    }
  }

  /** What follows a file with an incomplete last piece: nothing, or zero bytes up to the next piece. */
  lemma AfterIncompletePiece(files: seq<DiskFile>, i: nat, pieceSize: nat, at: nat)
    requires pieceSize > 0 && ValidFiles(files) && Layout(files, pieceSize)
    requires i < |files| && !files[i].padding && at < files[i].size < at + pieceSize
    requires files[i].size % pieceSize == files[i].size - at
    ensures PadsLastPiece(files, i) <==> i < |files| - 1
    ensures i == |files| - 1 ==> BytesBefore(files, |files|) == BytesBefore(files, i) + files[i].size
    ensures i < |files| - 1 ==>
              var end := BytesBefore(files, i) + files[i].size;
              var pad := pieceSize - (files[i].size - at);
              end + pad <= BytesBefore(files, |files|) && Joined(files, |files|)[end..end + pad] == Zeros(pad)
  {
    hide Joined, Zeros, BytesBefore, Layout;
    BytesOfNext(files, i);
    FilledInLayout(files, i, pieceSize);
    if i < |files| - 1 {
      FileInJoined(files, i + 1);
      assert files[i + 1].Bytes() == Zeros(files[i + 1].size);
    }
  }

  lemma FilledInLayout(files: seq<DiskFile>, i: nat, pieceSize: nat)
    requires pieceSize > 0 && Layout(files, pieceSize) && i < |files| && !files[i].padding
    ensures !files[|files| - 1].padding
    ensures i < |files| - 1 && files[i].size % pieceSize != 0 ==>
              files[i + 1] == PaddingFile(pieceSize - files[i].size % pieceSize)
  {
    hide StartsAtPiece;
    if i < |files| - 1 {
      assert FilledUp(files, i, pieceSize);
    }
  }

  /** The table counts the pieces of the joined bytes. */
  lemma TableCountsPieces(files: seq<DiskFile>, pieceSize: nat)
    requires pieceSize > 0 && Layout(files, pieceSize)
    ensures PiecesBefore(files, |files|, pieceSize) == PieceCount(files, pieceSize)
              == DivCeil(BytesBefore(files, |files|), pieceSize)
  {
    hide PiecesOf, DivCeil;
    var n := |files| - 1;
    assert StartsAtPiece(files, n, pieceSize);
    var p, size := PiecesBefore(files, n, pieceSize), files[n].size;
    PaddedSize(size, pieceSize);
    SplitCounts(p * pieceSize + size, pieceSize, p);
    DivCeilAsQuotient(BytesBefore(files, |files|), pieceSize);
  }

  lemma {:induction false} PiecesBeforeGrows(files: seq<DiskFile>, m: nat, n: nat, pieceSize: nat)
    requires pieceSize > 0 && m <= n <= |files|
    ensures PiecesBefore(files, m, pieceSize) <= PiecesBefore(files, n, pieceSize)
  {
    hide PiecesOf;
    if m < n {
      PiecesBeforeGrows(files, m, n - 1, pieceSize);
    }
  }

  /** Piece k of a regular file is piece PiecesBefore + k of the joined bytes. */
  lemma OnePiece(files: seq<DiskFile>, i: nat, pieceSize: nat, k: nat)
    requires pieceSize > 0 && ValidFiles(files) && Layout(files, pieceSize)
    requires i < |files| && !files[i].Unread() && files[i].Valid()
    requires k < DivCeil(files[i].size, pieceSize)
    ensures k * pieceSize < files[i].size
    ensures (PiecesBefore(files, i, pieceSize) + k) * pieceSize <= BytesBefore(files, |files|)
    ensures PaddedPiece(files[i].content.value, pieceSize, k, PadsLastPiece(files, i))
         == Piece(Joined(files, |files|), pieceSize, PiecesBefore(files, i, pieceSize) + k)
  {
    hide PaddedFrom, PieceFrom, PadsLastPiece, DivCeil, PiecesBefore, BytesBefore, Joined;
    var size := files[i].size;
    assert StartsAtPiece(files, i, pieceSize);
    DivCeilCounts(size, pieceSize, k);
    Remainder(size, pieceSize, k);
    AddPieces(BytesBefore(files, i), PiecesBefore(files, i, pieceSize), k, pieceSize);
    PieceInJoined(files, i, pieceSize, k * pieceSize);
  }

  /** The ranges of the offset table do not overlap. */
  lemma OwnerOfPiece(files: seq<DiskFile>, i: nat, pieceSize: nat, k: nat)
    requires pieceSize > 0 && i < |files| && PieceOf(files, pieceSize, i, k)
    ensures OnDisk(files, pieceSize, k) <==> !files[i].Unread()
  {
    hide PiecesBefore;
    if OnDisk(files, pieceSize, k) {
      var j: nat :| j < |files| && !files[j].Unread() && PieceOf(files, pieceSize, j, k);
      if j < i {
        PiecesBeforeGrows(files, j + 1, i, pieceSize);
      } else if i < j {
        PiecesBeforeGrows(files, i + 1, j, pieceSize);
      }
    }
  }

  /** A file on disk contributes its pieces, a missing one or padding none. */
  lemma {:induction false} FileIsItsPieces(files: seq<DiskFile>, i: nat, pieceSize: nat, count: nat)
    requires pieceSize > 0 && ValidFiles(files) && Layout(files, pieceSize) && i < |files| && files[i].Valid()
    requires PiecesBefore(files, i, pieceSize) + count <= PiecesBefore(files, i + 1, pieceSize)
    requires PiecesBefore(files, i + 1, pieceSize) <= DivCeil(BytesBefore(files, |files|), pieceSize)
    requires !files[i].Unread() ==> PiecesBefore(files, i, pieceSize) + DivCeil(files[i].size, pieceSize)
                                    == PiecesBefore(files, i + 1, pieceSize)
    ensures var p := PiecesBefore(files, i, pieceSize);
            Present(files, pieceSize, p + count)
            == Present(files, pieceSize, p)
             + if files[i].Unread() then []
               else PieceMessages(p, files[i].content.value, pieceSize, PadsLastPiece(files, i))[..count]
  {
    hide DivCeil, PiecesOf, PadsLastPiece, Joined, PaddedPiece, Piece, BytesBefore, PiecesBefore, OnDisk, Layout;
    var p := PiecesBefore(files, i, pieceSize);
    if count > 0 {
      FileIsItsPieces(files, i, pieceSize, count - 1);
      OwnerOfPiece(files, i, pieceSize, p + count - 1);
      if !files[i].Unread() {
        var messages := PieceMessages(p, files[i].content.value, pieceSize, PadsLastPiece(files, i));
        OnePiece(files, i, pieceSize, count - 1);
        PushNext(Present(files, pieceSize, p), messages, count - 1);
      }
    }
  }

  lemma Remainder(size: nat, pieceSize: nat, k: nat)
    requires pieceSize > 0 && k * pieceSize < size
    ensures k * pieceSize + pieceSize > size ==> size % pieceSize == size - k * pieceSize
  {
    if k * pieceSize + pieceSize > size {
      DivUnique(size, k, size - k * pieceSize, pieceSize);
    }
  }

  /**
   * A hybrid run over an aligned storage emits the v1 pieces of the files on disk, each exactly once, in order, hashed
   * over exactly its bytes of the zero-padded concatenation.
   */
  lemma {:induction false} HybridPieces(files: seq<DiskFile>, n: nat, pieceSize: nat, chunkSize: nat,
                                        piecesPerChunk: nat)
    requires HybridRun(files, pieceSize, chunkSize, piecesPerChunk) && n <= |files|
    ensures OfFirst(AllChunks(files, n, chunkSize, piecesPerChunk), |files|)
    ensures PiecesBefore(files, n, pieceSize) <= DivCeil(BytesBefore(files, |files|), pieceSize)
    ensures AllPieces(files, AllChunks(files, n, chunkSize, piecesPerChunk), pieceSize)
         == Present(files, pieceSize, PiecesBefore(files, n, pieceSize))
  {
    hide PiecesOf, PiecesBefore, DivCeil, ChunksOf, AllPieces, Joined, BytesBefore, Present;
    TableCountsPieces(files, pieceSize);
    PiecesBeforeGrows(files, n, |files|, pieceSize);
    if n > 0 {
      HybridPieces(files, n - 1, pieceSize, chunkSize, piecesPerChunk);
      PiecesOfNext(files, n - 1, pieceSize, chunkSize, piecesPerChunk);
      AllPiecesJoin(files, AllChunks(files, n - 1, chunkSize, piecesPerChunk),
                    ChunksOf(files, n - 1, chunkSize, piecesPerChunk), pieceSize);
    } else {
      NoPieces(files, pieceSize);
    }
  }

  lemma NoPieces(files: seq<DiskFile>, pieceSize: nat)
    requires pieceSize > 0 && ValidFiles(files)
    ensures AllPieces(files, [], pieceSize) == []
    ensures PiecesBefore(files, 0, pieceSize) == 0 && Present(files, pieceSize, 0) == []
  {
  }

  lemma NoChunkPieces(files: seq<DiskFile>, i: nat, pieceSize: nat)
    requires pieceSize > 0 && i < |files|
    ensures OfFirst([Chunk(0, i, None)], |files|) && AllPieces(files, [Chunk(0, i, None)], pieceSize) == []
  {
    assert [Chunk(0, i, None)][1..] == [];
  }

  lemma PiecesOfNext(files: seq<DiskFile>, i: nat, pieceSize: nat, chunkSize: nat, piecesPerChunk: nat)
    requires HybridRun(files, pieceSize, chunkSize, piecesPerChunk) && i < |files|
    requires PiecesBefore(files, i + 1, pieceSize) <= DivCeil(BytesBefore(files, |files|), pieceSize)
    ensures OfFirst(ChunksOf(files, i, chunkSize, piecesPerChunk), |files|)
    ensures PiecesBefore(files, i, pieceSize) <= PiecesBefore(files, i + 1, pieceSize)
    ensures Present(files, pieceSize, PiecesBefore(files, i + 1, pieceSize))
         == Present(files, pieceSize, PiecesBefore(files, i, pieceSize))
          + AllPieces(files, ChunksOf(files, i, chunkSize, piecesPerChunk), pieceSize)
  {
    hide PiecesOf, DivCeil, FileChunks, PieceMessages, Present, Joined, BytesBefore, AllPieces, PadsLastPiece, Layout;
    var f := files[i];
    var p, q := PiecesBefore(files, i, pieceSize), PiecesBefore(files, i + 1, pieceSize);
    assert f in files;
    PaddedSize(f.size, pieceSize);
    FileIsItsPieces(files, i, pieceSize, q - p);
    if f.padding {
      NoPieces(files, pieceSize);
    } else if f.content.None? {
      NoChunkPieces(files, i, pieceSize);
    } else {
      FilePieces(files, i, f.content.value, 0, pieceSize, chunkSize, piecesPerChunk);
      var messages := PieceMessages(p, f.content.value, pieceSize, PadsLastPiece(files, i));
      assert messages[..q - p] == messages;
    }
  }

  lemma {:induction false} AlignedFiles(files: seq<DiskFile>, n: nat, pieceSize: nat, f: DiskFile)
    requires n <= |files| && pieceSize > 0
    requires f in AlignedPrefix(files, n, pieceSize)
    ensures f in files || (f.padding && f.Valid())
  {
    if f !in AlignedPrefix(files, n - 1, pieceSize) && f != files[n - 1] {
      assert f in PaddingAfter(files[n - 1].size, pieceSize);
    } else if f != files[n - 1] {
      AlignedFiles(files, n - 1, pieceSize, f);
    }
  }

  lemma {:induction false} FilesAligned(files: seq<DiskFile>, n: nat, pieceSize: nat, i: nat)
    requires i < n <= |files| && pieceSize > 0
    ensures files[i] in AlignedPrefix(files, n, pieceSize)
  {
    if i < n - 1 {
      FilesAligned(files, n - 1, pieceSize, i);
    }
  }

  /** Alignment adds padding entries, and nothing else. */
  lemma AlignedMembers(files: seq<DiskFile>, pieceSize: nat)
    requires files != [] && pieceSize > 0
    ensures forall f :: f in files ==> f in Aligned(files, pieceSize)
    ensures forall f :: f in Aligned(files, pieceSize) ==> f in files || (f.padding && f.Valid())
  {
    hide AlignedPrefix;
    var n := |files| - 1;
    forall i: nat | i < |files| ensures files[i] in Aligned(files, pieceSize) {
      if i < n {
        FilesAligned(files, n, pieceSize, i);
      }
    }
    forall f | f in Aligned(files, pieceSize) ensures f in files || (f.padding && f.Valid()) {
      if f in AlignedPrefix(files, n, pieceSize) {
        AlignedFiles(files, n, pieceSize, f);
      }
    }
  }

  /** Every piece is one of a file, and none of padding. */
  lemma {:induction false} EveryPieceOnDisk(files: seq<DiskFile>, n: nat, pieceSize: nat, k: nat)
    requires pieceSize > 0 && n <= |files| && k < PiecesBefore(files, n, pieceSize)
    requires forall f :: f in files && !f.padding ==> f.content.Some?
    ensures OnDisk(files, pieceSize, k)
  {
    hide PiecesOf;
    if k < PiecesBefore(files, n - 1, pieceSize) {
      EveryPieceOnDisk(files, n - 1, pieceSize, k);
    } else {
      assert files[n - 1] in files && PieceOf(files, pieceSize, n - 1, k);
    }
  }

  /** A chunk that ends inside a piece is the last one of a file that does. */
  lemma {:induction false} ChunkTails(i: nat, content: seq<byte>, piece: nat, pieceSize: nat, chunkSize: nat,
                                      piecesPerChunk: nat)
    requires pieceSize > 0 && chunkSize == piecesPerChunk * pieceSize > 0
    ensures forall c :: c in FileChunks(i, content, piece, chunkSize, piecesPerChunk) ==>
              && c.fileIndex == i && c.data.Some?
              && (|c.data.value| % pieceSize == 0 || |content| % pieceSize != 0)
    decreases |content|
  {
    if |content| >= chunkSize {
      ChunkTails(i, content[chunkSize..], piece + piecesPerChunk, pieceSize, chunkSize, piecesPerChunk);
      DivUnique(chunkSize, piecesPerChunk, 0, pieceSize);
      TailRemainder(|content|, pieceSize, piecesPerChunk);
    }
  }

  lemma TailRemainder(size: nat, pieceSize: nat, pieces: nat)
    requires pieceSize > 0 && pieces * pieceSize <= size
    ensures (size - pieces * pieceSize) % pieceSize == size % pieceSize
  {
    var rest := size - pieces * pieceSize;
    assert (rest / pieceSize + pieces) * pieceSize == rest / pieceSize * pieceSize + pieces * pieceSize;
    DivUnique(size, rest / pieceSize + pieces, rest % pieceSize, pieceSize);
  }

  lemma FileAccepted(files: seq<DiskFile>, i: nat, pieceSize: nat, chunkSize: nat, piecesPerChunk: nat)
    requires pieceSize > 0 && chunkSize == piecesPerChunk * pieceSize > 0 && i < |files| && files[i].Valid()
    requires !files[i].padding && i < |files| - 1 ==> FilledUp(files, i, pieceSize)
    ensures AllAccepted(files, pieceSize, true, ChunksOf(files, i, chunkSize, piecesPerChunk))
  {
    hide FileChunks;
    if !files[i].Unread() {
      ChunkTails(i, files[i].content.value, 0, pieceSize, chunkSize, piecesPerChunk);
    }
  }

  lemma AcceptedJoin(files: seq<DiskFile>, pieceSize: nat, a: seq<Chunk>, b: seq<Chunk>)
    requires AllAccepted(files, pieceSize, true, a) && AllAccepted(files, pieceSize, true, b)
    ensures AllAccepted(files, pieceSize, true, a + b)
  {
    hide Accepts;
  }

  /** Where a file's last piece is padded, padding follows: `hash_chunk` accepts every chunk of an aligned storage. */
  lemma {:induction false} ChunksAccepted(files: seq<DiskFile>, n: nat, pieceSize: nat, chunkSize: nat,
                                          piecesPerChunk: nat)
    requires HybridRun(files, pieceSize, chunkSize, piecesPerChunk) && n <= |files|
    ensures AllAccepted(files, pieceSize, true, AllChunks(files, n, chunkSize, piecesPerChunk))
  {
    hide ChunksOf, FilledUp, StartsAtPiece, AllAccepted;
    if n > 0 {
      ChunksAccepted(files, n - 1, pieceSize, chunkSize, piecesPerChunk);
      assert files[n - 1] in files;
      FileAccepted(files, n - 1, pieceSize, chunkSize, piecesPerChunk);
      AcceptedJoin(files, pieceSize, AllChunks(files, n - 1, chunkSize, piecesPerChunk),
                   ChunksOf(files, n - 1, chunkSize, piecesPerChunk));
    } else {
      NoneAccepted(files, pieceSize);
    }
  }

  lemma NoneAccepted(files: seq<DiskFile>, pieceSize: nat)
    ensures AllAccepted(files, pieceSize, true, [])
  {
  }

  /**
   * Hashing a hybrid torrent: `optimize_alignment`, the v2 reader and the hasher together produce the v1 piece hashes
   * of the padded storage, piece 0 to piece_count - 1, each once, except those of missing files; and no chunk fails a
   * contract of the hasher.
   */
  lemma HybridTorrent(files: seq<DiskFile>, pieceSize: nat, chunkSize: nat, piecesPerChunk: nat)
    requires files != [] && pieceSize > 0 && chunkSize == piecesPerChunk * pieceSize > 0
    requires ValidFiles(files) && forall f :: f in files ==> !f.padding
    ensures var storage := Aligned(files, pieceSize);
            var chunks := AllChunks(storage, |storage|, chunkSize, piecesPerChunk);
            && ValidFiles(storage)
            && AllAccepted(storage, pieceSize, true, chunks)
            && PieceCount(storage, pieceSize) == DivCeil(BytesBefore(storage, |storage|), pieceSize)
            && OfFirst(chunks, |storage|)
            && AllPieces(storage, chunks, pieceSize) == Present(storage, pieceSize, PieceCount(storage, pieceSize))
            && ((forall f :: f in files ==> f.content.Some?) ==>
                 forall k: nat :: k < PieceCount(storage, pieceSize) ==> OnDisk(storage, pieceSize, k))
  {
    hide AlignedPrefix, AllChunks, AllPieces, Joined, BytesBefore, Present, PiecesBefore, DivCeil, PieceCount;
    hide AllAccepted, OnDisk, Aligned;
    var storage := Aligned(files, pieceSize);
    AlignedMembers(files, pieceSize);
    AlignedLayout(files, pieceSize);
    TableCountsPieces(storage, pieceSize);
    HybridPieces(storage, |storage|, pieceSize, chunkSize, piecesPerChunk);
    ChunksAccepted(storage, |storage|, pieceSize, chunkSize, piecesPerChunk);
    if forall f :: f in files ==> f.content.Some? {
      forall k: nat | k < PieceCount(storage, pieceSize) ensures OnDisk(storage, pieceSize, k) {
        EveryPieceOnDisk(storage, |storage|, pieceSize, k);
      }
    }
  }
}
