/**
 * A whole v2 verification run (src/storage_verifier.cpp:78-179): the reader feeds a pool of hashers, they feed the
 * piece verifier, and the stages are stopped one after the other.
 */
module VerifierRun {
  import opened Arith
  import opened Digests
  import opened Merkle
  import opened FileHashes
  import opened Options
  import opened Storage
  import opened V2Reader
  import opened V2Hasher
  import opened Pieces
  import opened PieceWriter
  import opened PieceVerifier
  import opened V2PieceVerifierObject
  import opened HashingRun
  import PoolProtocol

  // ---- The messages of all files -------------------------------------------------------------------------------

  /** What the verifier starts from. */
  function FreshChecks(entries: seq<Entry>): seq<FileCheck> {
    seq(|entries|, i requires 0 <= i < |entries| => FreshCheck(entries[i]))
  }

  /** The messages of all files in arrival order; `None` once a leaf index is outside its tree. */
  function RunChecks(states: seq<FileCheck>, messages: seq<HashedBlock>, pieceSize: nat,
                     isal: bool): (r: Option<seq<FileCheck>>)
    requires pieceSize >= BLOCK_SIZE && forall m :: m in messages ==> m.file < |states|
    ensures r.Some? ==> |r.value| == |states|
  {
    if messages == [] then Some(states)
    else
      var before := RunChecks(states, messages[..|messages| - 1], pieceSize, isal);
      var m := messages[|messages| - 1];
      if before.None? || m.leaf >= |before.value[m.file].leaves| then None
      else Some(before.value[m.file := CheckBlock(before.value[m.file], m.leaf, m.hash, pieceSize, isal)])
  }

  /** Interleaving files does not mix them up. */
  lemma {:induction false} ChecksAreIndependent(states: seq<FileCheck>, messages: seq<HashedBlock>, pieceSize: nat,
                                                isal: bool)
    requires pieceSize >= BLOCK_SIZE && forall m :: m in messages ==> m.file < |states|
    ensures var r := RunChecks(states, messages, pieceSize, isal);
            if r.Some? then
              forall f: nat :: f < |states| ==>
                RunCheck(states[f], Project(messages, f), pieceSize, isal) == Some(r.value[f])
            else exists f: nat :: f < |states| && RunCheck(states[f], Project(messages, f), pieceSize, isal).None?
  {
    hide CheckBlock;
    if messages != [] {
      var k := |messages| - 1;
      var m := messages[k];
      ChecksAreIndependent(states, messages[..k], pieceSize, isal);
      var before := RunChecks(states, messages[..k], pieceSize, isal);
      var mine := Project(messages, m.file);
      assert mine == Project(messages[..k], m.file) + [m];
      assert mine[..|mine| - 1] == Project(messages[..k], m.file);
      if before.None? {
        var f: nat :| f < |states| && RunCheck(states[f], Project(messages[..k], f), pieceSize, isal).None?;
        assert RunCheck(states[f], Project(messages, f), pieceSize, isal).None?;
      } else if m.leaf >= |before.value[m.file].leaves| {
        assert RunCheck(states[m.file], mine, pieceSize, isal).None?;
      }
    }
  }

  // ---- One file ------------------------------------------------------------------------------------------------

  /** An entry of the metafile for a file on disk, and the content a regular entry with v2 data was made from. */
  ghost predicate DescribesFile(f: DiskFile, e: Entry, original: seq<byte>, p: Parameters)
    requires p.Valid()
  {
    && e.size == f.size && e.padding == f.padding
    && (f.padding || f.size == 0 ==> e.layer == [])
    && (!f.padding && f.size > 0 && e.root.Some? ==> MadeFrom(e, original, p.pieceSize))
  }

  /**
   * The bits of a file: those of a missing one are clear, that of an empty one is set only by the extra leaf, and those
   * of the others say which pieces have the bytes of the original, as far as the tree update of the build allows.
   */
  ghost predicate FileBitsRight(f: DiskFile, e: Entry, original: seq<byte>, p: Parameters, bits: seq<bool>)
    requires p.Valid()
  {
    && |bits| == PieceSlots(e)
    && if f.Unread() then forall k :: 0 <= k < |bits| ==> !bits[k]
       else if f.size == 0 then bits == [!p.multi && e.root == Some(Node(Leaf([]), Zero))]
       else Verdict(original, f.content.value, p.pieceSize, p.isal, bits)
  }

  /** The tree of the file has a slot for every leaf that comes. */
  predicate LeavesFit(f: DiskFile, p: Parameters)
    requires p.chunkSize > 0
  {
    f.Unread() || !TreeOverflows(f.size, p.chunkSize, p.multi)
  }

  lemma FileVerified(files: seq<DiskFile>, i: nat, e: Entry, original: seq<byte>, p: Parameters,
                     arrivals: seq<HashedBlock>)
    requires p.Valid() && i < |files| && files[i].Valid() && DescribesFile(files[i], e, original, p)
    requires !e.padding ==> e.root.Some?
    requires multiset(arrivals) == multiset(MessagesOf(files, i, p))
    ensures var r := RunCheck(FreshCheck(e), arrivals, p.pieceSize, p.isal);
            && (r.Some? <==> LeavesFit(files[i], p))
            && (r.Some? ==> FileBitsRight(files[i], e, original, p, r.value.bits))
  {
    hide LeavesOf, LeafSlots, BlockDigests, RunCheck, PiecesRoot, PieceLayer, Verdict, TreeOverflows;
    var f := files[i];
    if f.Unread() {
      NothingToCheck(e, p, arrivals);
    } else if f.size == 0 {
      EmptyFileVerified(files, i, e, p, arrivals);
    } else {
      BitsTellTheBytes(i, e, original, f.content.value, arrivals, p.pieceSize, p.chunkSize, p.piecesPerChunk, p.multi,
                       p.isal);
    }
  }

  lemma NothingToCheck(e: Entry, p: Parameters, arrivals: seq<HashedBlock>)
    requires p.Valid() && multiset(arrivals) == multiset([])
    ensures RunCheck(FreshCheck(e), arrivals, p.pieceSize, p.isal) == Some(FreshCheck(e))
  {
    assert |multiset(arrivals)| == 0;
  }

  /** An empty file gets the leaf of no bytes, or none. */
  lemma EmptyFileVerified(files: seq<DiskFile>, i: nat, e: Entry, p: Parameters, arrivals: seq<HashedBlock>)
    requires p.Valid() && i < |files| && files[i].Valid() && !files[i].Unread() && files[i].size == 0
    requires e.size == 0 && !e.padding && e.layer == []
    requires multiset(arrivals) == multiset(MessagesOf(files, i, p))
    ensures !TreeOverflows(0, p.chunkSize, p.multi)
    ensures var r := RunCheck(FreshCheck(e), arrivals, p.pieceSize, p.isal);
            r.Some? && r.value.bits == [!p.multi && e.root == Some(Node(Leaf([]), Zero))]
  {
    hide RunCheck, SubRoot, NewBits;
    assert files[i].content.value == [] && BlockCount(0) == 0 && BlockDigests([]) == [];
    if p.multi {
      assert LeavesOf([], p.chunkSize, true) == [];
      NothingToCheck(e, p, arrivals);
    } else {
      assert LeavesOf([], p.chunkSize, false) == [Leaf([])];
      var leaves, bits := AnyOrderChecksFile(i, e, [Leaf([])], arrivals, p.pieceSize, p.isal);
      RootOfNoBytes(leaves, p.isal);
      OneBit(e, leaves, bits, p.pieceSize, p.isal);
    }
  }

  lemma RootOfNoBytes(leaves: seq<Digest>, isal: bool)
    requires |leaves| == 2 && forall x: nat :: LeafAt(leaves, x) == LeafAt([Leaf([])], x)
    ensures TreeRoot(leaves, isal) == Node(Leaf([]), Zero)
  {
    Log2FloorUnique(2, 1);
    assert LeafAt(leaves, 0) == Leaf([]) && LeafAt(leaves, 1) == Zero;
    assert SubRoot(leaves, 1, 0) == Node(SubRoot(leaves, 0, 0), SubRoot(leaves, 0, 1));
    LowTreeNodes(leaves, 1, 1, 0, isal);
  }

  lemma OneBit(e: Entry, leaves: seq<Digest>, bits: seq<bool>, pieceSize: nat, isal: bool)
    requires pieceSize >= BLOCK_SIZE && e.layer == [] && |bits| == 1
    ensures NewBits(e, leaves, bits, pieceSize, isal) == [e.root == Some(TreeRoot(leaves, isal))]
  {
  }

  // ---- The v1 queue of a hybrid storage ------------------------------------------------------------------------

  /** Only the multi-buffer hasher of a hybrid verification makes v1 pieces. */
  predicate MakesPieces(p: Parameters, hybrid: bool) {
    p.multi && hybrid
  }

  /** The v2 verifier has no queue for v1 pieces, so pushing one fails a contract of the hasher. */
  ghost predicate HashersAccept(files: seq<DiskFile>, p: Parameters, hybrid: bool)
    requires p.Valid()
  {
    && AllAccepted(files, p.pieceSize, MakesPieces(p, hybrid), Chunks(files, p))
    && forall c :: c in Chunks(files, p) && MakesPieces(p, hybrid) && c.fileIndex < |files| ==>
      ChunkPieces(files, c, p.pieceSize) == []
  }

  predicate NothingOnDisk(f: DiskFile) {
    f.Unread() || f.size == 0
  }

  lemma {:induction false} FileChunksIn(files: seq<DiskFile>, i: nat, n: nat, p: Parameters, c: Chunk)
    requires p.Valid() && i < n <= |files| && c in ChunksOf(files, i, p.chunkSize, p.piecesPerChunk)
    ensures c in AllChunks(files, n, p.chunkSize, p.piecesPerChunk)
  {
    hide ChunksOf;
    if i < n - 1 {
      FileChunksIn(files, i, n - 1, p, c);
    }
  }

  /** A file with bytes has a chunk with bytes. */
  lemma ChunkWithBytes(files: seq<DiskFile>, i: nat, p: Parameters) returns (c: Chunk)
    requires p.Valid() && i < |files| && files[i].Valid() && !NothingOnDisk(files[i])
    ensures c in Chunks(files, p) && c.fileIndex == i && ChunkPieces(files, c, p.pieceSize) != []
  {
    c := FileChunks(i, files[i].content.value, 0, p.chunkSize, p.piecesPerChunk)[0];
    assert c in ChunksOf(files, i, p.chunkSize, p.piecesPerChunk);
    FileChunksIn(files, i, |files|, p, c);
    DivCeilCounts(|c.data.value|, p.pieceSize, 0);
  }

  /** Files without bytes have no chunk with bytes. */
  lemma {:induction false} NoChunkWithBytes(files: seq<DiskFile>, n: nat, p: Parameters)
    requires p.Valid() && n <= |files| && ValidFiles(files) && forall f :: f in files ==> NothingOnDisk(f)
    ensures forall c :: c in AllChunks(files, n, p.chunkSize, p.piecesPerChunk) ==> c.data.None? || c.data.value == []
  {
    if n > 0 {
      NoChunkWithBytes(files, n - 1, p);
      assert NothingOnDisk(files[n - 1]) && files[n - 1] in files;
    }
  }

  lemma NoPieces(files: seq<DiskFile>, c: Chunk, p: Parameters)
    requires p.Valid() && c.fileIndex < |files| && (c.data.None? || c.data.value == [])
    ensures ChunkPieces(files, c, p.pieceSize) == [] && Accepts(files, p.pieceSize, true, c)
  {
  }

  lemma HashersAcceptExactly(files: seq<DiskFile>, p: Parameters, hybrid: bool)
    requires p.Valid() && ValidFiles(files)
    ensures HashersAccept(files, p, hybrid)
            <==> !MakesPieces(p, hybrid) || forall f :: f in files ==> NothingOnDisk(f)
  {
    hide AllChunks, NothingOnDisk, ChunkPieces;
    ChunkOwners(files, |files|, p.chunkSize, p.piecesPerChunk);
    if MakesPieces(p, hybrid) {
      if forall f :: f in files ==> NothingOnDisk(f) {
        NoChunkWithBytes(files, |files|, p);
        forall c | c in Chunks(files, p)
          ensures Accepts(files, p.pieceSize, true, c) && ChunkPieces(files, c, p.pieceSize) == []
        {
          NoPieces(files, c, p);
        }
      } else {
        var f :| f in files && !NothingOnDisk(f);
        var i: nat :| i < |files| && files[i] == f;
        var c := ChunkWithBytes(files, i, p);
      }
    }
  }

  // ---- The whole run -------------------------------------------------------------------------------------------

  ghost predicate Describes(files: seq<DiskFile>, entries: seq<Entry>, originals: seq<seq<byte>>, p: Parameters)
    requires p.Valid()
  {
    && |files| == |entries| == |originals|
    && forall i: nat :: i < |files| ==> DescribesFile(files[i], entries[i], originals[i], p)
  }

  /** What the pool of the verifier leaves; None when a leaf has no slot. */
  ghost function Checked(files: seq<DiskFile>, entries: seq<Entry>, p: Parameters,
                         run: Run): (r: Option<seq<FileCheck>>)
    requires p.Valid() && |files| == |entries| && Finishes(files, p, run)
    ensures r.Some? ==> |r.value| == |entries|
  {
    var log := Log(run.writer, run.arrivals, run.writerSchedule);
    if forall m :: m in log ==> m.file < |entries| then RunChecks(FreshChecks(entries), log, p.pieceSize, p.isal)
    else None
  }

  /** The constructor of the verifier does not throw, and no contract of the hashers or of the verifier fails. */
  ghost predicate NothingFails(files: seq<DiskFile>, entries: seq<Entry>, p: Parameters, hybrid: bool, run: Run)
    requires p.Valid() && |files| == |entries| && Finishes(files, p, run)
  {
    HasV2Data(entries) && HashersAccept(files, p, hybrid) && Checked(files, entries, p, run).Some?
  }

  /** What the caller can check about one file before a run. */
  predicate Verifiable(f: DiskFile, e: Entry, p: Parameters, hybrid: bool)
    requires p.chunkSize > 0
  {
    (e.padding || e.root.Some?) && LeavesFit(f, p) && (MakesPieces(p, hybrid) ==> NothingOnDisk(f))
  }

  /**
   * For every schedule of the hashers and of the verifier and every order of arrival, a finished verification run fails
   * nowhere exactly when every file is verifiable, and then the bits of every file are right.
   */
  lemma VerifierRunIsCorrect(files: seq<DiskFile>, entries: seq<Entry>, originals: seq<seq<byte>>, p: Parameters,
                             hybrid: bool, run: Run)
    requires p.Valid() && ValidFiles(files) && Describes(files, entries, originals, p) && Finishes(files, p, run)
    ensures NothingFails(files, entries, p, hybrid, run)
            <==> forall i: nat :: i < |files| ==> Verifiable(files[i], entries[i], p, hybrid)
    ensures NothingFails(files, entries, p, hybrid, run) ==>
              forall i: nat :: i < |files| ==>
                FileBitsRight(files[i], entries[i], originals[i], p, Checked(files, entries, p, run).value[i].bits)
  {
    hide AllMessages, AllChunks, HashersAccept, HasV2Data, LeavesFit, FileBitsRight, NothingOnDisk, RunChecks;
    DataOfEntries(entries);
    HashersAcceptExactly(files, p, hybrid);
    if HasV2Data(entries) {
      AllChecked(files, entries, originals, p, run);
    }
  }

  lemma DataOfEntries(entries: seq<Entry>)
    ensures HasV2Data(entries) <==> forall i: nat :: i < |entries| ==> entries[i].padding || entries[i].root.Some?
  {
    assert forall i: nat :: i < |entries| ==> entries[i] in entries;
  }

  lemma AllChecked(files: seq<DiskFile>, entries: seq<Entry>, originals: seq<seq<byte>>, p: Parameters, run: Run)
    requires p.Valid() && ValidFiles(files) && Describes(files, entries, originals, p) && Finishes(files, p, run)
    requires HasV2Data(entries)
    ensures var r := Checked(files, entries, p, run);
            && (r.Some? <==> forall i: nat :: i < |files| ==> LeavesFit(files[i], p))
            && (r.Some? ==> forall i: nat :: i < |files| ==>
                 FileBitsRight(files[i], entries[i], originals[i], p, r.value[i].bits))
  {
    hide AllMessages, AllChunks, LeavesFit, FileBitsRight, RunChecks, DescribesFile, FreshCheck;
    var chunks := Chunks(files, p);
    var log := Log(run.writer, run.arrivals, run.writerSchedule);
    DataOfEntries(entries);
    LogOfRun(files, p, run);
    LogOwners(files, p, log);
    ChecksAreIndependent(FreshChecks(entries), log, p.pieceSize, p.isal);
    forall i: nat | i < |files|
      ensures var r := RunCheck(FreshCheck(entries[i]), Project(log, i), p.pieceSize, p.isal);
              && (r.Some? <==> LeavesFit(files[i], p))
              && (r.Some? ==> FileBitsRight(files[i], entries[i], originals[i], p, r.value.bits))
    {
      assert files[i] in files;
      MessagesOfLog(files, p, log, i);
      FileVerified(files, i, entries[i], originals[i], p, Project(log, i));
    }
  }

  /**
   * With pools that cannot deadlock, verification runs all finish, and none fails, exactly for the storages that allow
   * it.
   */
  lemma VerificationSucceeds(files: seq<DiskFile>, entries: seq<Entry>, originals: seq<seq<byte>>, p: Parameters,
                             hybrid: bool, hashers: PoolProtocol.Config, verifier: PoolProtocol.Config)
    requires p.Valid() && ValidFiles(files) && Describes(files, entries, originals, p)
    requires PoolProtocol.Safe(hashers) && PoolProtocol.Safe(verifier) && hashers.threads > 0 && verifier.threads > 0
    ensures && (exists run :: Uses(run, hashers, verifier) && Finishes(files, p, run))
            && (forall run :: Uses(run, hashers, verifier) && Finishes(files, p, run) ==>
                 NothingFails(files, entries, p, hybrid, run))
            <==> && (forall f :: f in files ==> PushAllowed(f, BytesBefore(files, |files|), p.chunkSize))
                 && (forall i: nat :: i < |files| ==> Verifiable(files[i], entries[i], p, hybrid))
  {
    hide PoolProtocol.Safe, Finishes, NothingFails, DescribesFile, BytesBefore, PushAllowed, Verifiable, FileBitsRight;
    RunsFinish(files, p, hashers, verifier);
    forall run | Uses(run, hashers, verifier) && Finishes(files, p, run)
      ensures NothingFails(files, entries, p, hybrid, run)
              <==> forall i: nat :: i < |files| ==> Verifiable(files[i], entries[i], p, hybrid)
    {
      VerifierRunIsCorrect(files, entries, originals, p, hybrid, run);
    }
  }
}
