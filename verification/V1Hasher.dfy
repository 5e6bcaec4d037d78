/** The v1 chunk hasher of src/v1_chunk_hasher_sb.cpp and the v1 piece writer: chunks become piece hashes. */
module V1Hasher {
  import opened Arith
  import opened Digests
  import opened Flatten
  import opened Options
  import opened Storage
  import opened Pieces
  import opened V1Reader

  /** What a chunk does to its pieces: hashed ones get a digest, those of missing files none. */
  datatype Delivery = Delivery(index: nat, hash: Option<PieceHash>)

  function ChunkDeliveries(chunk: Chunk, pieceSize: nat): (r: seq<Delivery>)
    requires pieceSize > 0
    ensures |r| == PiecesIn(chunk, pieceSize)
  {
    if chunk.data.None? then [Delivery(chunk.pieceIndex, None)]
    else
      var messages := PieceMessages(chunk.pieceIndex, chunk.data.value, pieceSize, false);
      seq(|messages|, k requires 0 <= k < |messages| => Delivery(messages[k].index, Some(messages[k].hash)))
  }

  function ChunkHashes(chunk: Chunk, pieceSize: nat): seq<HashedPiece> {
    if chunk.data.None? || pieceSize == 0 then []
    else PieceMessages(chunk.pieceIndex, chunk.data.value, pieceSize, false)
  }

  function Emit(pieceSize: nat): Chunk -> seq<HashedPiece> {
    chunk => ChunkHashes(chunk, pieceSize)
  }

  /** The piece bytes a chunk reports as done; pieces of missing files count in full. */
  function BytesIn(chunk: Chunk, pieceSize: nat): nat {
    if chunk.data.None? then pieceSize else |chunk.data.value|
  }

  /** The contract of `hash_chunk`: at least one piece in a chunk that has data. */
  ghost predicate Accepts(chunk: Chunk, pieceSize: nat)
    requires pieceSize > 0
  {
    chunk.data.Some? ==> DivCeil(|chunk.data.value|, pieceSize) >= 1
  }

  /** It holds for every chunk of the reader. */
  lemma {:induction false} ChunksAccepted(files: seq<DiskFile>, pieceSize: nat, chunkSize: nat, chunks: seq<Chunk>,
                                          pieces: nat)
    requires ValidFiles(files) && pieceSize > 0 && chunkSize > 0
    requires RightChunks(files, pieceSize, chunkSize, chunks, pieces)
    ensures forall c :: c in chunks ==> Accepts(c, pieceSize)
  {
    hide Joined, BytesBefore, NullIn, RightIndex, PiecesIn;
    if chunks != [] {
      var last := chunks[|chunks| - 1];
      ChunksAccepted(files, pieceSize, chunkSize, chunks[..|chunks| - 1], last.pieceIndex);
      if last.data.Some? {
        DivCeilCounts(|last.data.value|, pieceSize, 0);
      }
    }
  }

  class V1ChunkHasherSb {
    const pieceSize: nat
    const hasher: Hasher
    var queue: seq<HashedPiece>
    var bytesDone: nat
    var bytesHashed: nat

    ghost predicate Valid()
      reads hasher
    {
      pieceSize > 0 && hasher.pending == []
    }

    constructor (pieceSize: nat)
      requires pieceSize > 0
      ensures Valid() && this.pieceSize == pieceSize && queue == [] && bytesDone == 0 && bytesHashed == 0 &&
                fresh(hasher)
    {
      this.pieceSize := pieceSize;
      hasher := new Hasher();
      queue, bytesDone, bytesHashed := [], 0, 0;
    }

    method HashChunk(chunk: Chunk)
      requires Valid() && Accepts(chunk, pieceSize)
      modifies this, hasher
      ensures Valid()
      ensures queue == old(queue) + ChunkHashes(chunk, pieceSize)
      ensures bytesDone == old(bytesDone) + BytesIn(chunk, pieceSize)
      ensures bytesHashed == old(bytesHashed) + if chunk.data.None? then 0 else |chunk.data.value|
    {
      hide DivCeil, PieceMessages;
      if chunk.data.None? {
        bytesDone := bytesDone + pieceSize;
        return;
      }
      var data := chunk.data.value;
      var piecesInChunk := DivCeil(|data|, pieceSize);
      FirstPiece(|data|, pieceSize);
      ghost var all := PieceMessages(chunk.pieceIndex, data, pieceSize, false);
      var k := 0;
      while k < piecesInChunk - 1
        invariant 0 <= k <= piecesInChunk - 1 && hasher.pending == []
        invariant queue == old(queue) + all[..k]
        invariant bytesDone == old(bytesDone) + k * pieceSize && bytesHashed == old(bytesHashed)
      {
        HashPiece(data, chunk.pieceIndex, k);
        PushNext(old(queue), all, k);
        NextMultiple(k, pieceSize);
        PieceBeforeLast(|data|, pieceSize, k);
        k := k + 1;
      }
      HashPiece(data, chunk.pieceIndex, k);
      PushNext(old(queue), all, k);
      bytesHashed := bytesHashed + |data|;
      LastPieceBytes(data, pieceSize, chunk.pieceIndex, k);
    }

    method HashPiece(data: seq<byte>, pieceIndex: nat, k: nat)
      requires Valid() && k < DivCeil(|data|, pieceSize)
      modifies this`queue, this`bytesDone, hasher
      ensures Valid()
      ensures queue == old(queue) + [PieceMessages(pieceIndex, data, pieceSize, false)[k]]
      ensures k * pieceSize < |data|
      ensures bytesDone == old(bytesDone) + Min(pieceSize, |data| - k * pieceSize)
    {
      hide DivCeil, PieceMessages;
      PieceAt(pieceIndex, data, pieceSize, false, k);
      var piece := data[k * pieceSize..k * pieceSize + Min(pieceSize, |data| - k * pieceSize)];
      assert k * pieceSize + pieceSize > |data| ==> piece == data[k * pieceSize..] == data[k * pieceSize..] + [];
      hasher.Update(piece);
      assert hasher.pending == piece;
      var pieceHash := hasher.FinalizeTo();
      queue := queue + [HashedPiece(pieceIndex + k, Sha1(pieceHash))];
      bytesDone := bytesDone + |piece|;
    }
  }

  lemma FirstPiece(size: nat, pieceSize: nat)
    requires pieceSize > 0 && DivCeil(size, pieceSize) >= 1
    ensures size > 0
  {
    hide DivCeil;
    DivCeilCounts(size, pieceSize, 0);
  }

  lemma PieceBeforeLast(size: nat, pieceSize: nat, k: nat)
    requires pieceSize > 0 && k < DivCeil(size, pieceSize) - 1
    ensures k * pieceSize + pieceSize <= size
  {
    hide DivCeil;
    DivCeilCounts(size, pieceSize, k + 1);
    NextMultiple(k, pieceSize);
  }

  lemma NextMultiple(k: nat, y: nat)
    ensures (k + 1) * y == k * y + y
  {
  }

  lemma LastPieceBytes(data: seq<byte>, pieceSize: nat, first: nat, k: nat)
    requires pieceSize > 0 && k == DivCeil(|data|, pieceSize) - 1
    ensures k * pieceSize + Min(pieceSize, |data| - k * pieceSize) == |data|
  {
    hide DivCeil;
    WholePieces(data, pieceSize);
    NextMultiple(k, pieceSize);
  }

  // ---- Every piece is delivered once -------------------------------------------------------------------------

  /** The deliveries of a list of chunks, in order. */
  function Deliveries(chunks: seq<Chunk>, pieceSize: nat): seq<Delivery>
    requires pieceSize > 0
  {
    if chunks == [] then []
    else Deliveries(chunks[..|chunks| - 1], pieceSize) + ChunkDeliveries(chunks[|chunks| - 1], pieceSize)
  }

  /** Piece k is hashed over exactly its bytes, unless it is one of those sent without data, which are not hashed. */
  ghost predicate RightDelivery(files: seq<DiskFile>, pieceSize: nat, chunkSize: nat, d: Delivery, k: nat)
    requires ValidFiles(files) && pieceSize > 0 && chunkSize > 0
  {
    && d.index == k
    && k * pieceSize < BytesBefore(files, |files|)
    && match d.hash
       case None => SentNull(files, pieceSize, chunkSize, k)
       case Some(hash) =>
         && !SentNull(files, pieceSize, chunkSize, k)
         && hash == Sha1(Piece(Joined(files, |files|), pieceSize, k))
  }

  /**
   * The chunks of the reader deliver piece 0, 1, ... piece_count - 1, each once and each right: hashed over exactly
   * its bytes of the zero-substituted concatenation, except those sent without data.
   */
  lemma {:induction false} EveryPieceOnce(files: seq<DiskFile>, pieceSize: nat, chunkSize: nat, piecesPerChunk: nat,
                                          chunks: seq<Chunk>, pieces: nat)
    requires ValidFiles(files) && pieceSize > 0 && chunkSize > 0 && chunkSize == piecesPerChunk * pieceSize
    requires RightChunks(files, pieceSize, chunkSize, chunks, pieces)
    ensures |Deliveries(chunks, pieceSize)| == pieces
    ensures forall k: nat :: k < pieces ==>
              RightDelivery(files, pieceSize, chunkSize, Deliveries(chunks, pieceSize)[k], k)
  {
    hide RightDelivery, RightChunk, ChunkDeliveries, PiecesIn, BytesBefore, Joined;
    if chunks != [] {
      var last := chunks[|chunks| - 1];
      EveryPieceOnce(files, pieceSize, chunkSize, piecesPerChunk, chunks[..|chunks| - 1], last.pieceIndex);
      LastDelivers(files, pieceSize, chunkSize, piecesPerChunk, last);
      DeliveriesGrow(files, pieceSize, chunkSize, Deliveries(chunks[..|chunks| - 1], pieceSize), last);
    }
  }

  lemma LastDelivers(files: seq<DiskFile>, pieceSize: nat, chunkSize: nat, piecesPerChunk: nat, last: Chunk)
    requires ValidFiles(files) && pieceSize > 0 && chunkSize > 0 && chunkSize == piecesPerChunk * pieceSize
    requires RightChunk(files, pieceSize, chunkSize, last, last.pieceIndex * pieceSize)
    ensures forall k: nat :: k < PiecesIn(last, pieceSize) ==>
              RightDelivery(files, pieceSize, chunkSize, ChunkDeliveries(last, pieceSize)[k], last.pieceIndex + k)
  {
    hide RightDelivery, RightChunk, ChunkDeliveries, PiecesIn, BytesBefore, Joined;
    forall k: nat | k < PiecesIn(last, pieceSize)
      ensures RightDelivery(files, pieceSize, chunkSize, ChunkDeliveries(last, pieceSize)[k], last.pieceIndex + k)
    {
      ChunkDelivers(files, pieceSize, chunkSize, piecesPerChunk, last, k);
    }
  }

  lemma DeliveriesGrow(files: seq<DiskFile>, pieceSize: nat, chunkSize: nat, before: seq<Delivery>, last: Chunk)
    requires ValidFiles(files) && pieceSize > 0 && chunkSize > 0 && |before| == last.pieceIndex
    requires forall k: nat :: k < |before| ==> RightDelivery(files, pieceSize, chunkSize, before[k], k)
    requires forall k: nat :: k < PiecesIn(last, pieceSize) ==>
               RightDelivery(files, pieceSize, chunkSize, ChunkDeliveries(last, pieceSize)[k], last.pieceIndex + k)
    ensures var all := before + ChunkDeliveries(last, pieceSize);
            forall k: nat :: k < |all| ==> RightDelivery(files, pieceSize, chunkSize, all[k], k)
  {
    hide RightDelivery, ChunkDeliveries, PiecesIn;
    var all := before + ChunkDeliveries(last, pieceSize);
    forall k: nat | |before| <= k < |all|
      ensures RightDelivery(files, pieceSize, chunkSize, all[k], k)
    {
      assert all[k] == ChunkDeliveries(last, pieceSize)[k - |before|];
    }
  }

  lemma ChunkDelivers(files: seq<DiskFile>, pieceSize: nat, chunkSize: nat, piecesPerChunk: nat, chunk: Chunk, k: nat)
    requires ValidFiles(files) && pieceSize > 0 && chunkSize > 0 && chunkSize == piecesPerChunk * pieceSize
    requires RightChunk(files, pieceSize, chunkSize, chunk, chunk.pieceIndex * pieceSize) &&
               k < PiecesIn(chunk, pieceSize)
    ensures RightDelivery(files, pieceSize, chunkSize, ChunkDeliveries(chunk, pieceSize)[k], chunk.pieceIndex + k)
  {
    hide Joined, BytesBefore, DivCeil, PaddedFrom, PieceFrom, SentNull, RightIndex, NoneNull;
    PieceFitsChunk(pieceSize, piecesPerChunk);
    if chunk.data.None? {
      var i: nat :| NullIn(files, pieceSize, chunkSize, chunk.pieceIndex, i);
      IsSentNull(files, pieceSize, chunkSize, chunk.pieceIndex, i);
      SentNullInside(files, pieceSize, chunkSize, chunk.pieceIndex);
      UnreadPieceExists(files, pieceSize, chunk.pieceIndex);
    } else {
      var data, base := chunk.data.value, chunk.pieceIndex * pieceSize;
      DataIsNotNull(files, pieceSize, chunkSize, chunk.fileIndex, base, base + |data|);
      NotNullAt(files, pieceSize, chunkSize, base, base + |data|, chunk.pieceIndex + k);
      PieceAt(chunk.pieceIndex, data, pieceSize, false, k);
      assert (chunk.pieceIndex + k) * pieceSize == base + k * pieceSize;
      if k * pieceSize + pieceSize <= |data| {
        WholePieceOfPart(Joined(files, |files|), base, data, pieceSize, k * pieceSize, false);
      } else {
        if |data| == chunkSize {
          PieceOfFullChunk(pieceSize, piecesPerChunk, k);
        }
        assert Joined(files, |files|)[base..] == data;
        LastPieceOfPart(Joined(files, |files|), base, data, pieceSize, k * pieceSize);
      }
    }
  }

  lemma IsSentNull(files: seq<DiskFile>, pieceSize: nat, chunkSize: nat, k: nat, i: nat)
    requires pieceSize > 0 && chunkSize > 0 && NullIn(files, pieceSize, chunkSize, k, i)
    ensures SentNull(files, pieceSize, chunkSize, k)
  {
  }

  lemma DataIsNotNull(files: seq<DiskFile>, pieceSize: nat, chunkSize: nat, index: nat, from: nat, to: nat)
    requires pieceSize > 0 && chunkSize > 0 && RightIndex(files, pieceSize, chunkSize, index, from, to)
    ensures NoneNull(files, pieceSize, chunkSize, from, to)
  {
    hide PushedAt, NoneNull;
    var i: nat :| PushedAt(files, pieceSize, chunkSize, i, from, to);
    DataBetween(files, pieceSize, chunkSize, i, from, to);
  }

  lemma NotNullAt(files: seq<DiskFile>, pieceSize: nat, chunkSize: nat, from: int, to: int, k: nat)
    requires pieceSize > 0 && chunkSize > 0 && NoneNull(files, pieceSize, chunkSize, from, to)
    ensures from <= k * pieceSize < to ==> !SentNull(files, pieceSize, chunkSize, k)
  {
    hide SentNull;
  }

  lemma UnreadPieceExists(files: seq<DiskFile>, pieceSize: nat, k: nat)
    requires ValidFiles(files) && pieceSize > 0 && InsideUnread(files, pieceSize, k)
    ensures k * pieceSize < BytesBefore(files, |files|)
  {
    var i: nat :| i < |files| && files[i].Unread()
      && BytesBefore(files, i) <= k * pieceSize && k * pieceSize + pieceSize <= BytesBefore(files, i) + files[i].size;
    FileInJoined(files, i);
  }

  /** A full chunk ends at a piece boundary. */
  lemma PieceOfFullChunk(pieceSize: nat, piecesPerChunk: nat, k: nat)
    requires pieceSize > 0 && k < DivCeil(piecesPerChunk * pieceSize, pieceSize)
    ensures k * pieceSize + pieceSize <= piecesPerChunk * pieceSize
  {
    DivUnique(piecesPerChunk * pieceSize, piecesPerChunk, 0, pieceSize);
    MulMonotone(k + 1, piecesPerChunk, pieceSize);
    NextMultiple(k, pieceSize);
  }

  /** The bytes a list of chunks reports as done. */
  function BytesDone(chunks: seq<Chunk>, pieceSize: nat): nat {
    if chunks == [] then 0 else BytesDone(chunks[..|chunks| - 1], pieceSize) + BytesIn(chunks[|chunks| - 1], pieceSize)
  }

  /** All chunks of a run report all bytes of the storage, once. */
  lemma {:induction false} AllBytesDone(files: seq<DiskFile>, pieceSize: nat, chunkSize: nat, piecesPerChunk: nat,
                                        chunks: seq<Chunk>, pieces: nat)
    requires ValidFiles(files) && pieceSize > 0 && chunkSize > 0 && chunkSize == piecesPerChunk * pieceSize
    requires RightChunks(files, pieceSize, chunkSize, chunks, pieces)
    ensures BytesDone(chunks, pieceSize) == Min(pieces * pieceSize, BytesBefore(files, |files|))
    ensures pieces == PieceCount(files, pieceSize) ==> BytesDone(chunks, pieceSize) == BytesBefore(files, |files|)
  {
    hide BytesBefore, RightChunk, PieceCount, PiecesIn, BytesIn;
    PieceExists(files, pieceSize, pieces);
    if chunks != [] {
      var last := chunks[|chunks| - 1];
      AllBytesDone(files, pieceSize, chunkSize, piecesPerChunk, chunks[..|chunks| - 1], last.pieceIndex);
      ChunkBytes(files, pieceSize, chunkSize, piecesPerChunk, last);
    } else {
      assert 0 * pieceSize == 0;
    }
  }

  /** In whatever order the chunks are hashed. */
  lemma {:induction false} BytesDoneAnyOrder(a: seq<Chunk>, b: seq<Chunk>, pieceSize: nat)
    requires multiset(a) == multiset(b)
    ensures BytesDone(a, pieceSize) == BytesDone(b, pieceSize)
  {
    hide BytesIn, BytesDone;
    if a == [] {
      assert |multiset(b)| == 0 && b == [];
    } else {
      var x := a[0];
      assert x in multiset(a) && x in b;
      var j :| 0 <= j < |b| && b[j] == x;
      assert a == [x] + a[1..] && b == b[..j] + [x] + b[j + 1..];
      RemoveOne(a[1..], b[..j], b[j + 1..], x);
      BytesDoneAnyOrder(a[1..], b[..j] + b[j + 1..], pieceSize);
      BytesDoneJoin([x], a[1..], pieceSize);
      BytesDoneJoin(b[..j], b[j + 1..], pieceSize);
      BytesDoneJoin(b[..j], [x], pieceSize);
      BytesDoneJoin(b[..j] + [x], b[j + 1..], pieceSize);
    }
  }

  lemma {:induction false} BytesDoneJoin(a: seq<Chunk>, b: seq<Chunk>, pieceSize: nat)
    ensures BytesDone(a + b, pieceSize) == BytesDone(a, pieceSize) + BytesDone(b, pieceSize)
  {
    hide BytesIn;
    if b == [] {
      assert a + b == a;
    } else {
      assert (a + b)[..|a + b| - 1] == a + b[..|b| - 1];
      BytesDoneJoin(a, b[..|b| - 1], pieceSize);
    }
  }

  lemma ChunkBytes(files: seq<DiskFile>, pieceSize: nat, chunkSize: nat, piecesPerChunk: nat, chunk: Chunk)
    requires ValidFiles(files) && pieceSize > 0 && chunkSize > 0 && chunkSize == piecesPerChunk * pieceSize
    requires RightChunk(files, pieceSize, chunkSize, chunk, chunk.pieceIndex * pieceSize)
    ensures chunk.pieceIndex * pieceSize <= BytesBefore(files, |files|)
    ensures chunk.pieceIndex * pieceSize + BytesIn(chunk, pieceSize)
            == Min((chunk.pieceIndex + PiecesIn(chunk, pieceSize)) * pieceSize, BytesBefore(files, |files|))
  {
    hide Joined, BytesBefore, DivCeil, RightIndex, SentNull, Begun;
    PieceFitsChunk(pieceSize, piecesPerChunk);
    var n := PiecesIn(chunk, pieceSize);
    TimesOfSum(chunk.pieceIndex, n, pieceSize);
    if chunk.data.None? {
      var i: nat :| NullIn(files, pieceSize, chunkSize, chunk.pieceIndex, i);
      BegunFits(files, pieceSize, chunkSize, i);
      FileInJoined(files, i);
    } else {
      PiecesCoverData(|chunk.data.value|, piecesPerChunk, pieceSize);
    }
  }

  lemma TimesOfSum(a: nat, b: nat, y: nat)
    ensures (a + b) * y == a * y + b * y
    ensures b == 1 ==> b * y == y
  {
  }

  /** The pieces of some bytes cover them, and a full chunk exactly. */
  lemma PiecesCoverData(size: nat, piecesPerChunk: nat, pieceSize: nat)
    requires pieceSize > 0
    ensures size <= DivCeil(size, pieceSize) * pieceSize
    ensures size == piecesPerChunk * pieceSize ==> size == DivCeil(size, pieceSize) * pieceSize
  {
    DivCeilCounts(size, pieceSize, DivCeil(size, pieceSize));
    if size == piecesPerChunk * pieceSize {
      DivUnique(size, piecesPerChunk, 0, pieceSize);
    }
  }

  // ---- The piece table ---------------------------------------------------------------------------------------

  /**
   * `set_piece_hash` for every message, in arrival order; `None` once an index is outside the table, where a contract
   * fails.
   */
  function SetPieces(pieces: seq<PieceHash>, messages: seq<HashedPiece>): (r: Option<seq<PieceHash>>)
    ensures r.Some? ==> |r.value| == |pieces|
  {
    if messages == [] then Some(pieces)
    else
      var before := SetPieces(pieces, messages[..|messages| - 1]);
      var m := messages[|messages| - 1];
      if before.None? || m.index >= |pieces| then None else Some(before.value[m.index := m.hash])
  }

  /** Messages that agree on each index leave, in any order, each index with its hash and the others as they were. */
  lemma {:induction false} SetPiecesAnyOrder(pieces: seq<PieceHash>, messages: seq<HashedPiece>)
    requires forall m :: m in messages ==> m.index < |pieces|
    requires forall m, n :: m in messages && n in messages && m.index == n.index ==> m == n
    ensures SetPieces(pieces, messages).Some?
    ensures forall m :: m in messages ==> SetPieces(pieces, messages).value[m.index] == m.hash
    ensures forall k: nat :: k < |pieces| && (forall m :: m in messages ==> m.index != k) ==>
              SetPieces(pieces, messages).value[k] == pieces[k]
  {
    if messages != [] {
      var init := messages[..|messages| - 1];
      assert messages == init + [messages[|messages| - 1]];
      SetPiecesAnyOrder(pieces, init);
    }
  }

  /** The hash messages are the deliveries that carry a hash. */
  lemma {:induction false} MessagesAreDeliveries(chunks: seq<Chunk>, pieceSize: nat)
    requires pieceSize > 0
    ensures forall m :: m in FlatMap(Emit(pieceSize), chunks) ==>
              Delivery(m.index, Some(m.hash)) in Deliveries(chunks, pieceSize)
    ensures forall d :: d in Deliveries(chunks, pieceSize) && d.hash.Some? ==>
              HashedPiece(d.index, d.hash.value) in FlatMap(Emit(pieceSize), chunks)
  {
    if chunks != [] {
      hide FlatMap, PieceMessages;
      var init, last := chunks[..|chunks| - 1], chunks[|chunks| - 1];
      MessagesAreDeliveries(init, pieceSize);
      assert chunks == init + [last];
      FlatMapJoin(Emit(pieceSize), init, [last]);
      FlatMapOne(Emit(pieceSize), last);
      MessagesOfChunk(last, pieceSize);
    }
  }

  lemma MessagesOfChunk(chunk: Chunk, pieceSize: nat)
    requires pieceSize > 0
    ensures forall m :: m in ChunkHashes(chunk, pieceSize) ==>
              Delivery(m.index, Some(m.hash)) in ChunkDeliveries(chunk, pieceSize)
    ensures forall d :: d in ChunkDeliveries(chunk, pieceSize) && d.hash.Some? ==>
              HashedPiece(d.index, d.hash.value) in ChunkHashes(chunk, pieceSize)
  {
    hide PieceMessages;
    forall m | m in ChunkHashes(chunk, pieceSize)
      ensures Delivery(m.index, Some(m.hash)) in ChunkDeliveries(chunk, pieceSize)
    {
      var k :| 0 <= k < |ChunkHashes(chunk, pieceSize)| && ChunkHashes(chunk, pieceSize)[k] == m;
      assert ChunkDeliveries(chunk, pieceSize)[k] == Delivery(m.index, Some(m.hash));
    }
  }

  /** The right table: a slot is unset exactly when its piece was sent without data, and any other has its hash. */
  ghost predicate RightTable(files: seq<DiskFile>, pieceSize: nat, chunkSize: nat, table: seq<PieceHash>)
    requires ValidFiles(files) && pieceSize > 0 && chunkSize > 0
  {
    |table| == PieceCount(files, pieceSize) && forall k: nat :: k < |table| ==>
      && k * pieceSize <= BytesBefore(files, |files|)
      && (table[k] == Unset <==> SentNull(files, pieceSize, chunkSize, k))
      && (table[k] != Unset ==> table[k] == Sha1(Piece(Joined(files, |files|), pieceSize, k)))
  }

  /**
   * Setting the hashes of all chunks in any order gives the right table. With every file on disk, that is the hash of
   * each piece of the joined files.
   */
  lemma TableFromMessages(files: seq<DiskFile>, pieceSize: nat, chunkSize: nat, piecesPerChunk: nat,
                          chunks: seq<Chunk>, log: seq<HashedPiece>)
    requires ValidFiles(files) && pieceSize > 0 && chunkSize > 0 && chunkSize == piecesPerChunk * pieceSize
    requires RightChunks(files, pieceSize, chunkSize, chunks, PieceCount(files, pieceSize))
    requires multiset(log) == multiset(FlatMap(Emit(pieceSize), chunks))
    ensures var r := SetPieces(seq(PieceCount(files, pieceSize), _ => Unset), log);
            r.Some? && RightTable(files, pieceSize, chunkSize, r.value)
  {
    hide RightChunks, FlatMap, Deliveries, SetPieces, Joined, BytesBefore, PieceCount, Piece, SentNull;
    var n := PieceCount(files, pieceSize);
    var all := Deliveries(chunks, pieceSize);
    EveryPieceOnce(files, pieceSize, chunkSize, piecesPerChunk, chunks, n);
    MessagesAreDeliveries(chunks, pieceSize);
    forall m | m in log
      ensures m.index < n && all[m.index] == Delivery(m.index, Some(m.hash))
    {
      assert m in multiset(log) && m in FlatMap(Emit(pieceSize), chunks);
      var k: nat :| k < |all| && all[k] == Delivery(m.index, Some(m.hash));
      assert RightDelivery(files, pieceSize, chunkSize, all[k], k);
    }
    SetPiecesAnyOrder(seq(n, _ => Unset), log);
    var table := SetPieces(seq(n, _ => Unset), log).value;
    forall k: nat | k < n
      ensures k * pieceSize <= BytesBefore(files, |files|) && (table[k] == Unset <==> all[k].hash.None?)
      ensures table[k] != Unset ==> table[k] == Sha1(Piece(Joined(files, |files|), pieceSize, k))
      ensures all[k].hash.None? <==> SentNull(files, pieceSize, chunkSize, k)
    {
      assert RightDelivery(files, pieceSize, chunkSize, all[k], k);
      if all[k].hash.Some? {
        var m := HashedPiece(k, all[k].hash.value);
        assert all[k] in all && m in FlatMap(Emit(pieceSize), chunks);
        assert m in multiset(log) && m in log;
      }
    }
  }
}
