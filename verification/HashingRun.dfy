/**
 * A whole v2 hashing run (src/storage_hasher.cpp:93-158, 186-209): the reader feeds a pool of hashers, they feed the
 * piece writer, and the stages are stopped one after the other.
 */
module HashingRun {
  import opened Arith
  import opened Digests
  import opened Flatten
  import opened Merkle
  import opened FileHashes
  import opened Options
  import opened Storage
  import opened V2Reader
  import opened V2Hasher
  import opened PieceWriter
  import opened Pieces
  import opened HybridLayout
  import V1Reader
  import V1Hasher
  import PoolProtocol
  import PoolShutdown

  /**
   * `isal` is DOTTORRENT_USE_ISAL, which decides how the writer and the verifier hash their trees; `multi` is the
   * option for multi-buffer chunk hashers, which only those builds have.
   */
  datatype Parameters = Parameters(pieceSize: nat, chunkSize: nat, piecesPerChunk: nat, isal: bool, multi: bool)
  {
    ghost predicate Valid() {
      ValidPieceSize(pieceSize) && chunkSize == piecesPerChunk * pieceSize > 0 && (multi ==> isal)
    }
  }

  function FreshEntry(f: DiskFile): Entry { Entry(f.size, f.padding, None, []) }

  /** What the writer starts from. */
  function FreshStates(files: seq<DiskFile>): seq<FileState> {
    seq(|files|, i requires 0 <= i < |files| => FreshFile(FreshEntry(files[i])))
  }

  /** The chunks the reader pushes. */
  function Chunks(files: seq<DiskFile>, p: Parameters): seq<Chunk>
    requires p.Valid()
  {
    AllChunks(files, |files|, p.chunkSize, p.piecesPerChunk)
  }

  /** The leaf messages a file leads to. */
  function MessagesOf(files: seq<DiskFile>, i: nat, p: Parameters): seq<HashedBlock>
    requires p.Valid() && i < |files|
  {
    if files[i].Unread() then [] else LeafMessages(i, LeavesOf(files[i].content.value, p.chunkSize, p.multi))
  }

  // ---- The messages of each file -----------------------------------------------------------------------------

  lemma {:induction false} ProjectJoin(a: seq<HashedBlock>, b: seq<HashedBlock>, file: nat)
    ensures Project(a + b, file) == Project(a, file) + Project(b, file)
  {
    if b == [] {
      assert a + b == a;
    } else {
      assert (a + b)[..|a + b| - 1] == a + b[..|b| - 1];
      ProjectJoin(a, b[..|b| - 1], file);
    }
  }

  lemma {:induction false} ProjectUniform(messages: seq<HashedBlock>, owner: nat, file: nat)
    requires forall m :: m in messages ==> m.file == owner
    ensures Project(messages, file) == if owner == file then messages else []
  {
    if messages != [] {
      ProjectUniform(messages[..|messages| - 1], owner, file);
      assert messages == messages[..|messages| - 1] + [messages[|messages| - 1]];
    }
  }

  lemma MessagesOfFile(files: seq<DiskFile>, i: nat, p: Parameters)
    requires p.Valid() && i < |files|
    ensures AllMessages(ChunksOf(files, i, p.chunkSize, p.piecesPerChunk), p.pieceSize, p.multi)
              == MessagesOf(files, i, p)
    ensures forall m :: m in MessagesOf(files, i, p) ==> m.file == i
  {
    hide LeavesOf, FileChunks, BlocksPerPieceLog, Pow2, Log2Floor;
    if files[i].padding {
    } else if files[i].content.None? {
      FlatMapOne(Emit(p.pieceSize, p.multi), Chunk(0, i, None));
    } else {
      PieceIsBlocks(p.pieceSize);
      FileCoverage(i, files[i].content.value, 0, p.pieceSize, Pow2(BlocksPerPieceLog(p.pieceSize)), p.chunkSize,
                   p.piecesPerChunk, p.multi);
    }
  }

  /** The messages of the first n files, sorted by file. */
  lemma {:induction false} MessagesByFile(files: seq<DiskFile>, n: nat, p: Parameters, file: nat)
    requires p.Valid() && n <= |files| && file < |files|
    ensures Project(AllMessages(AllChunks(files, n, p.chunkSize, p.piecesPerChunk), p.pieceSize, p.multi), file)
         == if file < n then MessagesOf(files, file, p) else []
    ensures forall m :: m in AllMessages(AllChunks(files, n, p.chunkSize, p.piecesPerChunk), p.pieceSize, p.multi) ==>
              m.file < n
  {
    hide ChunksOf, MessagesOf, FlatMap, Project;
    if n == 0 {
      NoMessages(p, file);
    } else {
      var before := AllChunks(files, n - 1, p.chunkSize, p.piecesPerChunk);
      var next := ChunksOf(files, n - 1, p.chunkSize, p.piecesPerChunk);
      MessagesByFile(files, n - 1, p, file);
      MessagesOfFile(files, n - 1, p);
      FlatMapJoin(Emit(p.pieceSize, p.multi), before, next);
      ProjectJoin(AllMessages(before, p.pieceSize, p.multi), MessagesOf(files, n - 1, p), file);
      ProjectUniform(MessagesOf(files, n - 1, p), n - 1, file);
    }
  }

  lemma NoMessages(p: Parameters, file: nat)
    ensures AllMessages([], p.pieceSize, p.multi) == [] && Project([], file) == []
  {
  }

  // ---- What the run leaves behind ----------------------------------------------------------------------------

  /** A non-empty file on disk has the pieces root and piece layer of BEP 52. */
  ghost predicate Hashed(f: DiskFile, entry: Entry, p: Parameters)
    requires p.Valid() && f.Valid()
  {
    !f.Unread() && f.size > 0 ==>
      && entry.root == Some(PiecesRoot(BlockDigests(f.content.value)))
      && entry.layer == PieceLayer(BlockDigests(f.content.value), f.size, p.pieceSize)
  }

  /** The reader ends the file on a non-empty chunk, or the hasher skips the empty one. */
  predicate NoExtraLeaf(f: DiskFile, p: Parameters)
    requires p.chunkSize > 0
  {
    f.Unread() || f.size == 0 || p.multi || f.size % p.chunkSize != 0
  }

  /** The tree update of the build gives the root of BEP 52. */
  predicate TreeIsRight(f: DiskFile, p: Parameters) {
    f.Unread() || !p.isal || BlockCount(f.size) <= 2
  }

  /** What decides about the hashes of a file. */
  predicate HashesRight(f: DiskFile, p: Parameters)
    requires p.chunkSize > 0
  {
    NoExtraLeaf(f, p) && TreeIsRight(f, p)
  }

  /** The digest of no bytes in place of a zero leaf gives another root. */
  lemma ExtraLeafChangesRoot(blocks: seq<Digest>, h: nat)
    requires |blocks| < Pow2(h)
    ensures SubRoot(blocks + [Leaf([])], h, 0) != SubRoot(blocks, h, 0)
  {
    assert LeafAt(blocks + [Leaf([])], |blocks|) != LeafAt(blocks, |blocks|);
    FirstLeafIsProduct(h, 0);
    if SubRoot(blocks + [Leaf([])], h, 0) == SubRoot(blocks, h, 0) {
      SubRootInjective(blocks + [Leaf([])], blocks, h, 0, 0, |blocks|);
    }
  }

  /** One file, its messages arriving in any order. */
  lemma FileRun(files: seq<DiskFile>, i: nat, p: Parameters, arrivals: seq<HashedBlock>)
    requires p.Valid() && ValidFiles(files) && i < |files| && files[i].Valid()
    requires multiset(arrivals) == multiset(MessagesOf(files, i, p))
    ensures var r := RunFile(FreshFile(FreshEntry(files[i])), arrivals, p.pieceSize, p.isal);
            HashesRight(files[i], p) <==> r.Some? && Hashed(files[i], r.value.entry, p)
  {
    hide LeavesOf, LeafSlots, BlockDigests, RunFile, PiecesRoot, PieceLayer;
    var f := files[i];
    if f.Unread() {
      NothingArrives(f, p, arrivals);
    } else if f.size == 0 {
      EmptyFileRun(files, i, p, arrivals);
    } else if NoExtraLeaf(f, p) {
      LeavesAreBlocks(f.content.value, p);
      AnyOrderGivesBep52(i, FreshEntry(f), BlockDigests(f.content.value), arrivals, p.pieceSize, p.isal);
    } else {
      ExtraLeafRun(files, i, p, arrivals);
    }
  }

  lemma LeavesAreBlocks(content: seq<byte>, p: Parameters)
    requires p.Valid() && (p.multi || |content| % p.chunkSize != 0)
    ensures LeavesOf(content, p.chunkSize, p.multi) == BlockDigests(content)
    ensures |content| > 0 ==> |BlockDigests(content)| > 0
  {
  }

  lemma NothingArrives(f: DiskFile, p: Parameters, arrivals: seq<HashedBlock>)
    requires p.Valid() && multiset(arrivals) == multiset([])
    ensures RunFile(FreshFile(FreshEntry(f)), arrivals, p.pieceSize, p.isal) == Some(FreshFile(FreshEntry(f)))
  {
    assert |multiset(arrivals)| == 0;
  }

  /** An empty file gets no leaf, or one; either way no contract fails. */
  lemma EmptyFileRun(files: seq<DiskFile>, i: nat, p: Parameters, arrivals: seq<HashedBlock>)
    requires p.Valid() && i < |files| && files[i].Valid() && !files[i].Unread() && files[i].size == 0
    requires multiset(arrivals) == multiset(MessagesOf(files, i, p))
    ensures RunFile(FreshFile(FreshEntry(files[i])), arrivals, p.pieceSize, p.isal).Some?
  {
    hide RunFile, SubRoot;
    var f := files[i];
    assert f.content.value == [] && BlockCount(0) == 0 && BlockDigests([]) == [];
    if p.multi {
      assert LeavesOf([], p.chunkSize, true) == [];
      NothingArrives(f, p, arrivals);
    } else {
      assert LeavesOf([], p.chunkSize, false) == [Leaf([])];
      AnyOrderCompletesFile(i, FreshEntry(f), [Leaf([])], arrivals, p.pieceSize, p.isal);
    }
  }

  /** A size that is a multiple of the chunk size: no room for the extra leaf, or a wrong root. */
  lemma ExtraLeafRun(files: seq<DiskFile>, i: nat, p: Parameters, arrivals: seq<HashedBlock>)
    requires p.Valid() && i < |files| && files[i].Valid() && !NoExtraLeaf(files[i], p)
    requires multiset(arrivals) == multiset(MessagesOf(files, i, p))
    ensures var r := RunFile(FreshFile(FreshEntry(files[i])), arrivals, p.pieceSize, p.isal);
            r.None? || !Hashed(files[i], r.value.entry, p)
  {
    hide RunFile, TreeNode, SubRoot, BlockDigests, Pow2, Log2Floor;
    var f := files[i];
    var blocks := BlockDigests(f.content.value);
    var leaves := blocks + [Leaf([])];
    assert LeavesOf(f.content.value, p.chunkSize, p.multi) == leaves;
    AnyOrderCompletesFile(i, FreshEntry(f), leaves, arrivals, p.pieceSize, p.isal);
    SlotsOfBlocks(f.size);
    if |leaves| <= LeafSlots(f.size) {
      ExtraLeafChangesTree(blocks, Log2Ceil(|blocks|), p.isal);
    }
  }

  /** Whichever way the tree is hashed. */
  lemma ExtraLeafChangesTree(blocks: seq<Digest>, h: nat, isal: bool)
    requires 0 < |blocks| < Pow2(h) && (h <= 1 <==> |blocks| <= 2) && h == Log2Ceil(|blocks|)
    ensures TreeNode(blocks + [Leaf([])], h, h, 0, isal) != SubRoot(blocks, h, 0)
  {
    hide SubRoot, MultiNode, Log2Floor;
    if isal && h >= 2 {
      MultiRootIsLopsided(blocks + [Leaf([])], h);
      RootHasNodes(blocks, h);
    } else {
      ExtraLeafChangesRoot(blocks, h);
      if isal {
        MultiRootExactly(blocks + [Leaf([])], h);
      }
    }
  }

  /** Every interleaving of the files' messages: what the writer ends with. */
  lemma WriterRun(files: seq<DiskFile>, p: Parameters, log: seq<HashedBlock>)
    requires p.Valid() && ValidFiles(files)
    requires multiset(log) == multiset(AllMessages(Chunks(files, p), p.pieceSize, p.multi))
    ensures forall m :: m in log ==> m.file < |files|
    ensures var w := RunWriter(FreshStates(files), log, p.pieceSize, p.isal);
            (forall f :: f in files ==> HashesRight(f, p))
            <==> w.Some? && forall i: nat :: i < |files| ==> Hashed(files[i], w.value[i].entry, p)
  {
    hide Chunks, RunWriter, AllMessages, Hashed, HashesRight;
    LogOwners(files, p, log);
    var states := FreshStates(files);
    var w := RunWriter(states, log, p.pieceSize, p.isal);
    FilesAreIndependent(states, log, p.pieceSize, p.isal);
    forall i: nat | i < |files|
      ensures var r := RunFile(states[i], Project(log, i), p.pieceSize, p.isal);
              HashesRight(files[i], p) <==> r.Some? && Hashed(files[i], r.value.entry, p)
    {
      OneFile(files, p, log, i);
    }
  }

  lemma LogOwners(files: seq<DiskFile>, p: Parameters, log: seq<HashedBlock>)
    requires p.Valid() && multiset(log) == multiset(AllMessages(Chunks(files, p), p.pieceSize, p.multi))
    ensures forall m :: m in log ==> m.file < |files|
  {
    hide AllMessages, AllChunks;
    if files == [] {
      assert AllChunks(files, 0, p.chunkSize, p.piecesPerChunk) == [] by { NoChunks(files, p); }
      NoMessages(p, 0);
    } else {
      MessagesByFile(files, |files|, p, 0);
    }
    forall m | m in log
      ensures m in AllMessages(Chunks(files, p), p.pieceSize, p.multi)
    {
      assert m in multiset(log);
    }
  }

  lemma NoChunks(files: seq<DiskFile>, p: Parameters)
    requires p.Valid()
    ensures AllChunks(files, 0, p.chunkSize, p.piecesPerChunk) == []
  {
  }

  lemma OneFile(files: seq<DiskFile>, p: Parameters, log: seq<HashedBlock>, i: nat)
    requires p.Valid() && ValidFiles(files) && i < |files| && files[i].Valid()
    requires multiset(log) == multiset(AllMessages(Chunks(files, p), p.pieceSize, p.multi))
    ensures var r := RunFile(FreshStates(files)[i], Project(log, i), p.pieceSize, p.isal);
            HashesRight(files[i], p) <==> r.Some? && Hashed(files[i], r.value.entry, p)
  {
    hide RunFile, Project, AllMessages, AllChunks, MessagesOf, FreshFile, Hashed, HashesRight;
    MessagesOfLog(files, p, log, i);
    FileRun(files, i, p, Project(log, i));
  }

  /** In whatever order all messages come, those of one file are its own. */
  lemma MessagesOfLog(files: seq<DiskFile>, p: Parameters, log: seq<HashedBlock>, i: nat)
    requires p.Valid() && i < |files|
    requires multiset(log) == multiset(AllMessages(Chunks(files, p), p.pieceSize, p.multi))
    ensures multiset(Project(log, i)) == multiset(MessagesOf(files, i, p))
  {
    hide Project, AllMessages, AllChunks, MessagesOf;
    ProjectOfReordered(log, AllMessages(Chunks(files, p), p.pieceSize, p.multi), i);
    MessagesByFile(files, |files|, p, i);
  }

  /** A pool has run to the end: every worker is joined. */
  ghost predicate Completed<T>(c: PoolProtocol.Config, work: seq<T>, schedule: seq<PoolProtocol.Action>) {
    c.threads > 0 && PoolShutdown.Joins(c, work, schedule)
  }

  ghost function Log<T>(c: PoolProtocol.Config, work: seq<T>, schedule: seq<PoolProtocol.Action>): seq<T>
    requires Completed(c, work, schedule)
  {
    PoolProtocol.Exec(c, PoolProtocol.Init(c, work), schedule).value.log
  }

  /** The pools of a v2 run, their schedules, and the order in which the hashers' messages reach the writer. */
  datatype Run = Run(hashers: PoolProtocol.Config, hasherSchedule: seq<PoolProtocol.Action>, arrivals: seq<HashedBlock>,
                     writer: PoolProtocol.Config, writerSchedule: seq<PoolProtocol.Action>)

  /** The contract of the reader's `push` holds for every chunk, so the reader gets to the last one. */
  ghost predicate ReaderFinishes(files: seq<DiskFile>, p: Parameters)
    requires p.Valid()
  {
    Allowed(Chunks(files, p), PieceCount(files, p.pieceSize))
  }

  /** The stages end one after the other: the reader, the hashers, the writer. */
  ghost predicate Finishes(files: seq<DiskFile>, p: Parameters, run: Run)
    requires p.Valid()
  {
    && ReaderFinishes(files, p)
    && Completed(run.hashers, Chunks(files, p), run.hasherSchedule)
    && multiset(run.arrivals)
       == multiset(AllMessages(Log(run.hashers, Chunks(files, p), run.hasherSchedule), p.pieceSize, p.multi))
    && Completed(run.writer, run.arrivals, run.writerSchedule)
  }

  /** Every message is about a file of the storage, no contract of the writer fails, and every file has its hashes. */
  ghost predicate Right(files: seq<DiskFile>, p: Parameters, run: Run)
    requires p.Valid() && ValidFiles(files) && Finishes(files, p, run)
  {
    var log := Log(run.writer, run.arrivals, run.writerSchedule);
    && (forall m :: m in log ==> m.file < |files|)
    && var w := RunWriter(FreshStates(files), log, p.pieceSize, p.isal);
       w.Some? && forall i: nat :: i < |files| ==> Hashed(files[i], w.value[i].entry, p)
  }

  /**
   * For every schedule of the hashers, every order in which their messages reach the writer, and every schedule of
   * the writer, a finished run leaves each non-empty file on disk with the pieces root and piece layer of BEP 52
   * exactly when no such file gets an extra leaf, which only the single-buffer hasher makes, of sizes that are
   * multiples of the chunk size, and, in builds with multi-buffer hashing, none has more than two blocks. Otherwise a
   * contract of the writer fails or a root is wrong. The hashers' own contracts hold for every chunk.
   */
  lemma HashingRunIsCorrect(files: seq<DiskFile>, p: Parameters, run: Run)
    requires p.Valid() && ValidFiles(files) && Finishes(files, p, run)
    ensures AllAccepted(files, p.pieceSize, false, Chunks(files, p))
    ensures Right(files, p, run) <==> forall f :: f in files ==> HashesRight(f, p)
  {
    hide FlatMap, AllChunks, RunWriter, Hashed, HashesRight;
    ChunkOwners(files, |files|, p.chunkSize, p.piecesPerChunk);
    LogOfRun(files, p, run);
    WriterRun(files, p, Log(run.writer, run.arrivals, run.writerSchedule));
  }

  /** No message is lost or made up between the reader's chunks and what the last stage has done. */
  lemma LogOfRun(files: seq<DiskFile>, p: Parameters, run: Run)
    requires p.Valid() && Finishes(files, p, run)
    ensures multiset(Log(run.writer, run.arrivals, run.writerSchedule))
         == multiset(AllMessages(Chunks(files, p), p.pieceSize, p.multi))
  {
    hide FlatMap, AllChunks;
    var chunks := Chunks(files, p);
    PoolProtocol.NothingLost(run.hashers, chunks, run.hasherSchedule);
    PoolProtocol.NothingLost(run.writer, run.arrivals, run.writerSchedule);
    FlatMapReordered(Emit(p.pieceSize, p.multi), Log(run.hashers, chunks, run.hasherSchedule), chunks);
  }

  /**
   * What the caller can check before a run: the storage holds a byte if it has a file, a file that ends on an empty
   * chunk does not hold all bytes, and if it is not empty itself the hasher is the multi-buffer one; and in builds with
   * multi-buffer hashing no file has more than two blocks.
   */
  predicate Hashable(f: DiskFile, total: nat, p: Parameters)
    requires p.chunkSize > 0
  {
    PushAllowed(f, total, p.chunkSize) && HashesRight(f, p)
  }

  /**
   * With pools that cannot deadlock there are finished runs exactly when the reader's contract holds for every chunk.
   */
  lemma RunsFinish(files: seq<DiskFile>, p: Parameters, hashers: PoolProtocol.Config, writer: PoolProtocol.Config)
    requires p.Valid() && ValidFiles(files)
    requires PoolProtocol.Safe(hashers) && PoolProtocol.Safe(writer) && hashers.threads > 0 && writer.threads > 0
    ensures (exists run :: Uses(run, hashers, writer) && Finishes(files, p, run))
            <==> forall f :: f in files ==> PushAllowed(f, BytesBefore(files, |files|), p.chunkSize)
  {
    hide PoolProtocol.Safe, Completed, Log, AllMessages, Chunks, PieceCount, BytesBefore, PushAllowed;
    ReaderCondition(files, p);
    if ReaderFinishes(files, p) {
      var run := CompletedRunExists(files, p, hashers, writer);
      assert Uses(run, hashers, writer) && Finishes(files, p, run);
    }
  }

  /**
   * Hashing a storage with pools that cannot deadlock: all runs finish rightly, no contract failing in any stage,
   * exactly when every file is hashable.
   */
  lemma HashingSucceeds(files: seq<DiskFile>, p: Parameters, hashers: PoolProtocol.Config, writer: PoolProtocol.Config)
    requires p.Valid() && ValidFiles(files)
    requires PoolProtocol.Safe(hashers) && PoolProtocol.Safe(writer) && hashers.threads > 0 && writer.threads > 0
    ensures && (exists run :: Uses(run, hashers, writer) && Finishes(files, p, run))
            && (forall run :: Uses(run, hashers, writer) && Finishes(files, p, run) ==> Right(files, p, run))
            <==> forall f :: f in files ==> Hashable(f, BytesBefore(files, |files|), p)
  {
    hide PoolProtocol.Safe, Finishes, BytesBefore, Right, PushAllowed, HashesRight;
    RunsFinish(files, p, hashers, writer);
    forall run | Uses(run, hashers, writer) && Finishes(files, p, run)
      ensures Right(files, p, run) <==> forall f :: f in files ==> HashesRight(f, p)
    {
      HashingRunIsCorrect(files, p, run);
    }
  }

  predicate Uses(run: Run, hashers: PoolProtocol.Config, writer: PoolProtocol.Config) {
    run.hashers == hashers && run.writer == writer
  }

  lemma ReaderCondition(files: seq<DiskFile>, p: Parameters)
    requires p.Valid() && ValidFiles(files)
    ensures ReaderFinishes(files, p)
            <==> forall f :: f in files ==> PushAllowed(f, BytesBefore(files, |files|), p.chunkSize)
  {
    ReaderFinishesExactly(files, p.pieceSize, p.chunkSize, p.piecesPerChunk);
  }

  /**
   * Finished runs exist: with pools that cannot deadlock, a storage the reader gets through has a run that completes.
   */
  lemma CompletedRunExists(files: seq<DiskFile>, p: Parameters, hashers: PoolProtocol.Config,
                           writer: PoolProtocol.Config)
    returns (run: Run)
    requires p.Valid() && ReaderFinishes(files, p)
    requires PoolProtocol.Safe(hashers) && PoolProtocol.Safe(writer) && hashers.threads > 0 && writer.threads > 0
    ensures Uses(run, hashers, writer) && Finishes(files, p, run)
  {
    hide FlatMap, Chunks, PoolProtocol.Exec, PoolProtocol.Init, PoolProtocol.Safe;
    NothingDone(hashers, Chunks(files, p));
    var hasherSchedule := PoolShutdown.RunCompletes(hashers, Chunks(files, p), []);
    var arrivals := AllMessages(Log(hashers, Chunks(files, p), hasherSchedule), p.pieceSize, p.multi);
    NothingDone(writer, arrivals);
    var writerSchedule := PoolShutdown.RunCompletes(writer, arrivals, []);
    run := Run(hashers, hasherSchedule, arrivals, writer, writerSchedule);
  }

  /**
   * A file of three whole blocks: in a build with multi-buffer hashing every finished run leaves a wrong root, with the
   * multi-buffer chunk hasher, whose messages are right, as well.
   */
  lemma ThreeBlocks(content: seq<byte>, p: Parameters, run: Run)
    requires p.Valid() && p.isal && |content| == 3 * BLOCK_SIZE
    requires Finishes([DiskFile(|content|, false, Some(content))], p, run)
    ensures !Right([DiskFile(|content|, false, Some(content))], p, run)
  {
    hide Finishes, Right, NoExtraLeaf;
    var f := DiskFile(|content|, false, Some(content));
    HashingRunIsCorrect([f], p, run);
    assert BlockCount(f.size) == 3 by { DivUnique(3 * BLOCK_SIZE, 3, 0, BLOCK_SIZE); }
    assert f in [f] && !TreeIsRight(f, p);
  }

  /** One file of a whole chunk is the whole storage: its empty chunk has no piece, whichever hasher waits for it. */
  lemma OnlyFileOfOneChunk(content: seq<byte>, p: Parameters)
    requires p.Valid() && |content| == p.chunkSize
    ensures var f := DiskFile(p.chunkSize, false, Some(content));
            !ReaderFinishes([f], p) && (p.multi ==> NoExtraLeaf(f, p))
  {
    var f := DiskFile(p.chunkSize, false, Some(content));
    ReaderCondition([f], p);
    OneFileTotal(f);
    assert f in [f] && !PushAllowed(f, p.chunkSize, p.chunkSize) by {
      DivUnique(p.chunkSize, 1, 0, p.chunkSize);
    }
  }

  /** A storage of one empty file has no piece for the chunk of that file. */
  lemma OnlyFileIsEmpty(p: Parameters)
    requires p.Valid()
    ensures var f := DiskFile(0, false, Some([]));
            !ReaderFinishes([f], p) && HashesRight(f, p)
  {
    var f := DiskFile(0, false, Some([]));
    ReaderCondition([f], p);
    OneFileTotal(f);
    assert f in [f] && !PushAllowed(f, 0, p.chunkSize);
  }

  lemma OneFileTotal(f: DiskFile)
    ensures BytesBefore([f], |[f]|) == f.size
  {
    assert BytesBefore([f], 0) == 0;
  }

  lemma NothingDone<T>(c: PoolProtocol.Config, work: seq<T>)
    ensures PoolProtocol.Exec(c, PoolProtocol.Init(c, work), []).Some?
  {
  }

  // ---- v1 and hybrid runs ------------------------------------------------------------------------------------

  /**
   * A completed v1 run leaves a slot unset exactly when its piece is inside one missing or padding file and behind the
   * chunk that file found begun; every other slot has the hash of its bytes. No contract of the hashers or of the
   * writer fails, and all bytes are reported as done.
   */
  lemma V1RunIsCorrect(files: seq<DiskFile>, pieceSize: nat, chunkSize: nat, piecesPerChunk: nat, chunks: seq<Chunk>,
                       hashers: PoolProtocol.Config, hasherSchedule: seq<PoolProtocol.Action>,
                       arrivals: seq<HashedPiece>,
                       writer: PoolProtocol.Config, writerSchedule: seq<PoolProtocol.Action>)
    requires ValidFiles(files) && pieceSize > 0 && chunkSize > 0 && chunkSize == piecesPerChunk * pieceSize
    requires V1Reader.RightChunks(files, pieceSize, chunkSize, chunks, PieceCount(files, pieceSize))
    requires Completed(hashers, chunks, hasherSchedule)
    requires multiset(arrivals) == multiset(FlatMap(V1Hasher.Emit(pieceSize), Log(hashers, chunks, hasherSchedule)))
    requires Completed(writer, arrivals, writerSchedule)
    ensures forall c :: c in chunks ==> V1Hasher.Accepts(c, pieceSize)
    ensures var r := V1Hasher.SetPieces(seq(PieceCount(files, pieceSize), _ => Unset),
                                        Log(writer, arrivals, writerSchedule));
            && r.Some? && V1Hasher.RightTable(files, pieceSize, chunkSize, r.value)
            && (V1Reader.AllOnDisk(files) ==>
                  forall k: nat :: k < |r.value| ==>
                    k * pieceSize <= BytesBefore(files, |files|) &&
                      r.value[k] == Sha1(Piece(Joined(files, |files|), pieceSize, k)))
    ensures V1Hasher.BytesDone(Log(hashers, chunks, hasherSchedule), pieceSize) == BytesBefore(files, |files|)
  {
    hide FlatMap, PieceCount, V1Reader.RightChunks, V1Hasher.SetPieces, V1Hasher.Accepts, Joined, BytesBefore, Piece;
    hide V1Reader.SentNull, V1Reader.AllOnDisk, V1Hasher.BytesDone;
    V1Hasher.ChunksAccepted(files, pieceSize, chunkSize, chunks, PieceCount(files, pieceSize));
    PoolProtocol.NothingLost(hashers, chunks, hasherSchedule);
    PoolProtocol.NothingLost(writer, arrivals, writerSchedule);
    FlatMapReordered(V1Hasher.Emit(pieceSize), Log(hashers, chunks, hasherSchedule), chunks);
    V1Hasher.TableFromMessages(files, pieceSize, chunkSize, piecesPerChunk, chunks,
                               Log(writer, arrivals, writerSchedule));
    var table := V1Hasher.SetPieces(seq(PieceCount(files, pieceSize), _ => Unset),
                                    Log(writer, arrivals, writerSchedule)).value;
    if V1Reader.AllOnDisk(files) {
      forall k: nat | k < |table|
        ensures !V1Reader.SentNull(files, pieceSize, chunkSize, k)
      {
        V1Reader.NoNullOnDisk(files, pieceSize, chunkSize, k);
      }
    }
    V1Hasher.AllBytesDone(files, pieceSize, chunkSize, piecesPerChunk, chunks, PieceCount(files, pieceSize));
    V1Hasher.BytesDoneAnyOrder(Log(hashers, chunks, hasherSchedule), chunks, pieceSize);
  }

  /** With pools that cannot deadlock, whatever chunks the v1 reader has pushed have a run that completes. */
  lemma V1RunExists(chunks: seq<Chunk>, pieceSize: nat, hashers: PoolProtocol.Config, writer: PoolProtocol.Config)
    returns (hasherSchedule: seq<PoolProtocol.Action>, arrivals: seq<HashedPiece>,
             writerSchedule: seq<PoolProtocol.Action>)
    requires PoolProtocol.Safe(hashers) && PoolProtocol.Safe(writer) && hashers.threads > 0 && writer.threads > 0
    ensures Completed(hashers, chunks, hasherSchedule)
    ensures multiset(arrivals) == multiset(FlatMap(V1Hasher.Emit(pieceSize), Log(hashers, chunks, hasherSchedule)))
    ensures Completed(writer, arrivals, writerSchedule)
  {
    hide FlatMap, PoolProtocol.Exec, PoolProtocol.Init, PoolProtocol.Safe;
    NothingDone(hashers, chunks);
    hasherSchedule := PoolShutdown.RunCompletes(hashers, chunks, []);
    arrivals := FlatMap(V1Hasher.Emit(pieceSize), Log(hashers, chunks, hasherSchedule));
    NothingDone(writer, arrivals);
    writerSchedule := PoolShutdown.RunCompletes(writer, arrivals, []);
  }

  /** The v1 messages of a chunk of a hybrid run; the reader only makes chunks of known files. */
  function EmitPieces(files: seq<DiskFile>, pieceSize: nat): Chunk -> seq<HashedPiece> {
    (chunk: Chunk) => if chunk.fileIndex < |files| && pieceSize > 0 then ChunkPieces(files, chunk, pieceSize) else []
  }

  lemma {:induction false} EmittedPieces(files: seq<DiskFile>, chunks: seq<Chunk>, pieceSize: nat)
    requires pieceSize > 0 && OfFirst(chunks, |files|)
    ensures FlatMap(EmitPieces(files, pieceSize), chunks) == AllPieces(files, chunks, pieceSize)
  {
    hide ChunkPieces;
    if chunks != [] {
      EmittedPieces(files, chunks[1..], pieceSize);
    }
  }

  /** The v1 side of a hybrid run: the order in which the piece hashes reach their writer, and its schedule. */
  datatype V1Side = V1Side(arrivals: seq<HashedPiece>, writer: PoolProtocol.Config,
                           writerSchedule: seq<PoolProtocol.Action>)

  ghost predicate V1Finishes(files: seq<DiskFile>, p: Parameters, run: Run, v1: V1Side)
    requires p.Valid() && Finishes(files, p, run)
  {
    && multiset(v1.arrivals) == multiset(FlatMap(EmitPieces(files, p.pieceSize),
                                                 Log(run.hashers, Chunks(files, p), run.hasherSchedule)))
    && Completed(v1.writer, v1.arrivals, v1.writerSchedule)
  }

  /** Every piece of a file on disk has the hash of its bytes, a piece of a missing file none. */
  ghost predicate RightPieces(files: seq<DiskFile>, pieceSize: nat, table: seq<PieceHash>)
    requires pieceSize > 0 && ValidFiles(files)
  {
    forall k: nat :: k < |table| ==>
      && k * pieceSize <= BytesBefore(files, |files|)
      && table[k] == if OnDisk(files, pieceSize, k) then Sha1(Piece(Joined(files, |files|), pieceSize, k)) else Unset
  }

  /** The table of piece hashes a v1 writer leaves. */
  ghost function PieceTable(files: seq<DiskFile>, p: Parameters, v1: V1Side): Option<seq<PieceHash>>
    requires p.Valid() && Completed(v1.writer, v1.arrivals, v1.writerSchedule)
  {
    V1Hasher.SetPieces(seq(PieceCount(files, p.pieceSize), _ => Unset), Log(v1.writer, v1.arrivals, v1.writerSchedule))
  }

  /**
   * A finished hybrid run over an aligned storage: no contract of the hashers or of the v1 writer fails, every piece of
   * the padded storage has its v1 hash, except those of missing files, and the v2 side is right exactly when the hashes
   * of every file are.
   */
  lemma HybridRunIsCorrect(files: seq<DiskFile>, p: Parameters, run: Run, v1: V1Side)
    requires p.Valid() && files != [] && ValidFiles(files) && forall f :: f in files ==> !f.padding
    requires Finishes(Aligned(files, p.pieceSize), p, run) && V1Finishes(Aligned(files, p.pieceSize), p, run, v1)
    ensures var storage := Aligned(files, p.pieceSize);
            && ValidFiles(storage)
            && AllAccepted(storage, p.pieceSize, true, Chunks(storage, p))
            && PieceTable(storage, p, v1).Some?
            && RightPieces(storage, p.pieceSize, PieceTable(storage, p, v1).value)
            && (Right(storage, p, run) <==> forall f :: f in files ==> HashesRight(f, p))
    ensures (forall f :: f in files ==> f.content.Some?) ==>
              var storage := Aligned(files, p.pieceSize);
              forall k: nat :: k < PieceCount(storage, p.pieceSize) ==> OnDisk(storage, p.pieceSize, k)
  {
    hide FlatMap, PieceCount, Aligned, AllChunks, AllPieces, Present, V1Hasher.SetPieces, Joined, BytesBefore, Piece,
      DivCeil;
    hide OnDisk, AllAccepted, RightPieces, Right, HashesRight;
    var storage := Aligned(files, p.pieceSize);
    HybridTorrent(files, p.pieceSize, p.chunkSize, p.piecesPerChunk);
    HashingRunIsCorrect(storage, p, run);
    ExtraLeavesOfAligned(files, p);
    V1SideIsCorrect(files, p, run, v1);
  }

  lemma ExtraLeavesOfAligned(files: seq<DiskFile>, p: Parameters)
    requires p.Valid() && files != []
    ensures (forall f :: f in Aligned(files, p.pieceSize) ==> HashesRight(f, p))
            <==> forall f :: f in files ==> HashesRight(f, p)
  {
    hide Aligned;
    AlignedMembers(files, p.pieceSize);
  }

  lemma V1SideIsCorrect(files: seq<DiskFile>, p: Parameters, run: Run, v1: V1Side)
    requires p.Valid() && files != [] && ValidFiles(files) && forall f :: f in files ==> !f.padding
    requires Finishes(Aligned(files, p.pieceSize), p, run) && V1Finishes(Aligned(files, p.pieceSize), p, run, v1)
    ensures var storage := Aligned(files, p.pieceSize);
            && ValidFiles(storage) && PieceTable(storage, p, v1).Some?
            && RightPieces(storage, p.pieceSize, PieceTable(storage, p, v1).value)
  {
    hide FlatMap, PieceCount, Aligned, AllChunks, AllPieces, Present, V1Hasher.SetPieces, Joined, BytesBefore, Piece,
      DivCeil;
    hide OnDisk, AllAccepted, RightPieces;
    var storage := Aligned(files, p.pieceSize);
    PoolProtocol.NothingLost(run.hashers, Chunks(storage, p), run.hasherSchedule);
    PoolProtocol.NothingLost(v1.writer, v1.arrivals, v1.writerSchedule);
    FlatMapReordered(EmitPieces(storage, p.pieceSize), Log(run.hashers, Chunks(storage, p), run.hasherSchedule),
                     Chunks(storage, p));
    HybridTorrent(files, p.pieceSize, p.chunkSize, p.piecesPerChunk);
    EmittedPieces(storage, Chunks(storage, p), p.pieceSize);
    TableOfPresentPieces(storage, p.pieceSize, Log(v1.writer, v1.arrivals, v1.writerSchedule));
  }

  /** What the messages of the present pieces are. */
  lemma {:induction false} PresentMembers(files: seq<DiskFile>, pieceSize: nat, n: nat, m: HashedPiece)
    requires pieceSize > 0 && ValidFiles(files) && n <= DivCeil(BytesBefore(files, |files|), pieceSize)
    ensures m in Present(files, pieceSize, n)
            <==> && m.index < n && OnDisk(files, pieceSize, m.index)
                 && m.index * pieceSize <= BytesBefore(files, |files|)
                 && m.hash == Sha1(Piece(Joined(files, |files|), pieceSize, m.index))
  {
    hide OnDisk, Joined, BytesBefore, Piece, DivCeil;
    if n > 0 {
      DivCeilCounts(BytesBefore(files, |files|), pieceSize, n - 1);
      PresentMembers(files, pieceSize, n - 1, m);
    }
  }

  lemma TableOfPresentPieces(files: seq<DiskFile>, pieceSize: nat, log: seq<HashedPiece>)
    requires pieceSize > 0 && ValidFiles(files)
    requires PieceCount(files, pieceSize) == DivCeil(BytesBefore(files, |files|), pieceSize)
    requires multiset(log) == multiset(Present(files, pieceSize, PieceCount(files, pieceSize)))
    ensures var r := V1Hasher.SetPieces(seq(PieceCount(files, pieceSize), _ => Unset), log);
            r.Some? && RightPieces(files, pieceSize, r.value)
  {
    hide V1Hasher.SetPieces, Piece, DivCeil, OnDisk, Present, Joined, BytesBefore, PieceCount;
    var count := PieceCount(files, pieceSize);
    var all := Present(files, pieceSize, count);
    forall m
      ensures m in log <==> m in all
      ensures m in all <==> && m.index < count && OnDisk(files, pieceSize, m.index)
                            && m.index * pieceSize <= BytesBefore(files, |files|)
                            && m.hash == Sha1(Piece(Joined(files, |files|), pieceSize, m.index))
    {
      assert m in log <==> m in multiset(log);
      assert m in all <==> m in multiset(all);
      PresentMembers(files, pieceSize, count, m);
    }
    V1Hasher.SetPiecesAnyOrder(seq(count, _ => Unset), log);
    var table := V1Hasher.SetPieces(seq(count, _ => Unset), log).value;
    forall k: nat | k < count
      ensures k * pieceSize <= BytesBefore(files, |files|)
      ensures table[k] == if OnDisk(files, pieceSize, k) then Sha1(Piece(Joined(files, |files|), pieceSize, k))
                else Unset
    {
      DivCeilCounts(BytesBefore(files, |files|), pieceSize, k);
      var m := HashedPiece(k, Sha1(Piece(Joined(files, |files|), pieceSize, k)));
      assert OnDisk(files, pieceSize, k) ==> m in log;
    }
  }

  /** With pools that cannot deadlock, an aligned storage the reader gets through has a hybrid run that finishes. */
  lemma HybridRunExists(storage: seq<DiskFile>, p: Parameters, hashers: PoolProtocol.Config,
                        writer: PoolProtocol.Config, v1Writer: PoolProtocol.Config)
    returns (run: Run, v1: V1Side)
    requires p.Valid() && ReaderFinishes(storage, p)
    requires PoolProtocol.Safe(hashers) && PoolProtocol.Safe(writer) && PoolProtocol.Safe(v1Writer)
    requires hashers.threads > 0 && writer.threads > 0 && v1Writer.threads > 0
    ensures Uses(run, hashers, writer) && v1.writer == v1Writer
    ensures Finishes(storage, p, run) && V1Finishes(storage, p, run, v1)
  {
    hide FlatMap, Chunks, PoolProtocol.Exec, PoolProtocol.Init, PoolProtocol.Safe;
    run := CompletedRunExists(storage, p, hashers, writer);
    var arrivals := FlatMap(EmitPieces(storage, p.pieceSize), Log(run.hashers, Chunks(storage, p), run.hasherSchedule));
    NothingDone(v1Writer, arrivals);
    var schedule := PoolShutdown.RunCompletes(v1Writer, arrivals, []);
    v1 := V1Side(arrivals, v1Writer, schedule);
  }
}
