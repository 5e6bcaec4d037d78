/** The v2 piece writer of src/v2_piece_writer.cpp: leaf digests arrive in any order and complete their file. */
module PieceWriter {
  import opened Arith
  import opened Digests
  import opened Merkle
  import opened FileHashes
  import opened Options

  /** What the writer reads and sets in a storage entry. */
  datatype Entry = Entry(size: nat, padding: bool, root: Option<Digest>, layer: seq<Digest>)

  /** The digest of one 16 KiB block: `v2_hashed_piece`. */
  datatype HashedBlock = HashedBlock(file: nat, leaf: nat, hash: Digest)

  // ---- What one message does to its file ---------------------------------------------------------------------

  /** The leaf layer of the file's tree, how many messages it has had, and its storage entry. */
  datatype FileState = FileState(leaves: seq<Digest>, hashed: nat, entry: Entry)

  /** Leaf slots of the tree made for a file of that many bytes. */
  function LeafSlots(size: nat): nat {
    if BlockCount(size) == 0 then 2 else Pow2(Log2Ceil(BlockCount(size)))
  }

  /** A file nothing has arrived for; padding files get an empty tree. */
  function FreshFile(entry: Entry): FileState {
    FileState(if entry.padding then [] else seq(LeafSlots(entry.size), _ => Zero), 0, entry)
  }

  /** The root of a hashed tree whose leaf layer is given. */
  function TreeRoot(leaves: seq<Digest>, isal: bool): Digest {
    TreeNode(leaves, Log2Floor(|leaves|), Log2Floor(|leaves|), 0, isal)
  }

  /**
   * The piece layer the source cuts out of a hashed tree. Builds with DOTTORRENT_USE_ISAL hash it with the multi-buffer
   * update, the others with the single-buffer one.
   */
  function CutLayer(leaves: seq<Digest>, size: nat, pieceSize: nat, isal: bool): seq<Digest>
    requires pieceSize >= BLOCK_SIZE
  {
    var g := BlocksPerPieceLog(pieceSize);
    if g >= Log2Floor(|leaves|) then []
    else seq(DivCeil(size, pieceSize), j requires 0 <= j => TreeNode(leaves, Log2Floor(|leaves|), g, j, isal))
  }

  function Complete(s: FileState, pieceSize: nat, isal: bool): FileState
    requires pieceSize >= BLOCK_SIZE
  {
    s.(entry := s.entry.(root := Some(TreeRoot(s.leaves, isal)),
                         layer := CutLayer(s.leaves, s.entry.size, pieceSize, isal)))
  }

  function FinishBlock(s: FileState, leaf: nat, hash: Digest, pieceSize: nat, isal: bool): FileState
    requires pieceSize >= BLOCK_SIZE && leaf < |s.leaves|
  {
    var t := s.(leaves := s.leaves[leaf := hash], hashed := s.hashed + 1);
    if BlockCount(s.entry.size) <= t.hashed then Complete(t, pieceSize, isal) else t
  }

  /**
   * The messages of one file in arrival order; `None` once a leaf index is outside the tree, where a contract fails.
   */
  function RunFile(s: FileState, messages: seq<HashedBlock>, pieceSize: nat, isal: bool): Option<FileState>
    requires pieceSize >= BLOCK_SIZE
  {
    if messages == [] then Some(s)
    else
      var before := RunFile(s, messages[..|messages| - 1], pieceSize, isal);
      var m := messages[|messages| - 1];
      if before.None? || m.leaf >= |before.value.leaves| then None
      else Some(FinishBlock(before.value, m.leaf, m.hash, pieceSize, isal))
  }

  /** One message per leaf, in leaf order, starting at leaf `first`. */
  function LeafMessagesFrom(file: nat, first: nat, leaves: seq<Digest>): (r: seq<HashedBlock>)
    ensures |r| == |leaves|
  {
    seq(|leaves|, i requires 0 <= i < |leaves| => HashedBlock(file, first + i, leaves[i]))
  }

  function LeafMessages(file: nat, leaves: seq<Digest>): (r: seq<HashedBlock>)
    ensures |r| == |leaves|
  {
    LeafMessagesFrom(file, 0, leaves)
  }

  // ---- Arrival order does not matter -------------------------------------------------------------------------

  /** After some of the messages, exactly the leaves they name are filled. */
  ghost predicate Filled(s: FileState, file: nat, leaves: seq<Digest>, seen: seq<HashedBlock>) {
    && s.hashed == |seen|
    && forall i: nat :: i < |s.leaves| ==>
      s.leaves[i] == if i < |leaves| && HashedBlock(file, i, leaves[i]) in seen then leaves[i] else Zero
  }

  ghost predicate Genuine(file: nat, leaves: seq<Digest>, messages: seq<HashedBlock>) {
    forall m :: m in messages ==> m.file == file && m.leaf < |leaves| && m.hash == leaves[m.leaf]
  }

  lemma {:induction false} RunFileFills(file: nat, entry: Entry, leaves: seq<Digest>, seen: seq<HashedBlock>,
                                        pieceSize: nat, isal: bool)
    requires pieceSize >= BLOCK_SIZE && !entry.padding && |leaves| <= LeafSlots(entry.size)
    requires Genuine(file, leaves, seen)
    ensures var r := RunFile(FreshFile(entry), seen, pieceSize, isal);
            && r.Some? && |r.value.leaves| == LeafSlots(entry.size)
            && r.value.entry.(root := entry.root, layer := entry.layer) == entry
            && Filled(r.value, file, leaves, seen)
            && (seen != [] && BlockCount(entry.size) <= |seen| ==> r.value == Complete(r.value, pieceSize, isal))
            && (seen == [] || BlockCount(entry.size) > |seen| ==> r.value.entry == entry)
  {
    hide Log2Floor, Pow2, TreeNode, CutLayer, LeafSlots, BlockCount;
    if seen != [] {
      var k := |seen| - 1;
      var m := seen[k];
      RunFileFills(file, entry, leaves, seen[..k], pieceSize, isal);
      var before := RunFile(FreshFile(entry), seen[..k], pieceSize, isal).value;
      var after := FinishBlock(before, m.leaf, m.hash, pieceSize, isal);
      assert seen == seen[..k] + [m];
      FillOne(before, after, file, leaves, seen[..k], m);
    }
  }

  lemma FillOne(before: FileState, after: FileState, file: nat, leaves: seq<Digest>, seen: seq<HashedBlock>,
                m: HashedBlock)
    requires Filled(before, file, leaves, seen)
    requires m.file == file && m.leaf < |leaves| && m.hash == leaves[m.leaf] && m.leaf < |before.leaves|
    requires after.leaves == before.leaves[m.leaf := m.hash] && after.hashed == before.hashed + 1
    ensures Filled(after, file, leaves, seen + [m])
  {
  }

  lemma LeafMessagesAreGenuine(file: nat, leaves: seq<Digest>, messages: seq<HashedBlock>)
    requires multiset(messages) == multiset(LeafMessages(file, leaves))
    ensures Genuine(file, leaves, messages) && |messages| == |leaves|
    ensures forall i: nat :: i < |leaves| ==> HashedBlock(file, i, leaves[i]) in messages
  {
    var all := LeafMessages(file, leaves);
    assert |multiset(messages)| == |messages| && |multiset(all)| == |all|;
    forall m | m in messages
      ensures m in all
    {
      assert m in multiset(messages);
    }
    forall i: nat | i < |leaves|
      ensures HashedBlock(file, i, leaves[i]) in messages
    {
      assert all[i] in multiset(all);
    }
  }

  /** A message outside the tree fails a contract whatever came before it. */
  lemma {:induction false} RunFileAborts(s: FileState, messages: seq<HashedBlock>, pieceSize: nat, m: HashedBlock,
                                         isal: bool)
    requires pieceSize >= BLOCK_SIZE && m in messages && m.leaf >= |s.leaves|
    ensures RunFile(s, messages, pieceSize, isal).None?
  {
    var k := |messages| - 1;
    assert messages == messages[..k] + [messages[k]];
    RunFileKeepsTree(s, messages[..k], pieceSize, isal);
    if m in messages[..k] {
      RunFileAborts(s, messages[..k], pieceSize, m, isal);
    }
  }

  lemma {:induction false} RunFileKeepsTree(s: FileState, messages: seq<HashedBlock>, pieceSize: nat, isal: bool)
    requires pieceSize >= BLOCK_SIZE
    ensures var r := RunFile(s, messages, pieceSize, isal); r.Some? ==> |r.value.leaves| == |s.leaves|
  {
    if messages != [] {
      RunFileKeepsTree(s, messages[..|messages| - 1], pieceSize, isal);
    }
  }

  /** What the file's entry ends with when the tree's first leaves are `leaves`. */
  ghost predicate HashedAs(entry: Entry, leaves: seq<Digest>, pieceSize: nat, isal: bool)
    requires pieceSize >= BLOCK_SIZE
  {
    var g, h := BlocksPerPieceLog(pieceSize), Log2Floor(LeafSlots(entry.size));
    && !entry.padding
    && entry.root == Some(TreeNode(leaves, h, h, 0, isal))
    && entry.layer == (if g >= h then []
                       else seq(DivCeil(entry.size, pieceSize), j requires 0 <= j => TreeNode(leaves, h, g, j, isal)))
  }

  /**
   * Any arrival order of the messages for leaves 0.. of a file, at least as many as it has blocks, ends in the same
   * entry, unless there are more leaves than the tree has slots: then a contract fails.
   */
  lemma AnyOrderCompletesFile(file: nat, entry: Entry, leaves: seq<Digest>, messages: seq<HashedBlock>, pieceSize: nat,
                              isal: bool)
    requires pieceSize >= BLOCK_SIZE && !entry.padding
    requires |leaves| > 0 && BlockCount(entry.size) <= |leaves|
    requires multiset(messages) == multiset(LeafMessages(file, leaves))
    ensures var r := RunFile(FreshFile(entry), messages, pieceSize, isal);
            if |leaves| > LeafSlots(entry.size) then r.None?
            else r.Some? && r.value.entry.size == entry.size && HashedAs(r.value.entry, leaves, pieceSize, isal)
  {
    LeafMessagesAreGenuine(file, leaves, messages);
    if |leaves| > LeafSlots(entry.size) {
      var last := |leaves| - 1;
      RunFileAborts(FreshFile(entry), messages, pieceSize, HashedBlock(file, last, leaves[last]), isal);
    } else {
      hide Log2Floor, LeafSlots;
      RunFileFills(file, entry, leaves, messages, pieceSize, isal);
      FilledIsHashed(RunFile(FreshFile(entry), messages, pieceSize, isal).value, file, leaves, messages, pieceSize,
                     isal);
    }
  }

  lemma FilledIsHashed(s: FileState, file: nat, leaves: seq<Digest>, messages: seq<HashedBlock>, pieceSize: nat,
                       isal: bool)
    requires pieceSize >= BLOCK_SIZE && |leaves| <= |s.leaves| == LeafSlots(s.entry.size)
    requires Filled(s, file, leaves, messages) && s == Complete(s, pieceSize, isal) && !s.entry.padding
    requires forall i: nat :: i < |leaves| ==> HashedBlock(file, i, leaves[i]) in messages
    ensures HashedAs(s.entry, leaves, pieceSize, isal)
  {
    hide Log2Floor, LeafSlots, TreeNode, BlocksPerPieceLog;
    forall x: nat
      ensures LeafAt(s.leaves, x) == LeafAt(leaves, x)
    {
      assert x < |s.leaves| ==> s.leaves[x] == LeafAt(leaves, x);
    }
    var h := Log2Floor(|s.leaves|);
    SameLeavesSameNodes(s.leaves, leaves, h, h, 0, isal);
    var g := BlocksPerPieceLog(pieceSize);
    forall j: nat
      ensures TreeNode(s.leaves, h, g, j, isal) == TreeNode(leaves, h, g, j, isal)
    {
      SameLeavesSameNodes(s.leaves, leaves, h, g, j, isal);
    }
    if g < h {
      assert s.entry.layer
        == seq(DivCeil(s.entry.size, pieceSize), j requires 0 <= j => TreeNode(leaves, h, g, j, isal));
    }
  }

  lemma SameLeavesSameNodes(a: seq<Digest>, b: seq<Digest>, height: nat, h: nat, i: nat, isal: bool)
    requires forall x: nat :: LeafAt(a, x) == LeafAt(b, x)
    ensures TreeNode(a, height, h, i, isal) == TreeNode(b, height, h, i, isal)
  {
    SameLeavesSameRoots(a, b, h, i);
    SameLeavesSameMultiNodes(a, b, height, h, i);
  }

  /** In a tree of at most two leaves both updates do the same. */
  lemma LowTreeNodes(leaves: seq<Digest>, height: nat, h: nat, i: nat, isal: bool)
    requires height <= 1 && (h == 0 || (h == height && i == 0))
    ensures TreeNode(leaves, height, h, i, isal) == SubRoot(leaves, h, i)
  {
    MultiRootExactly(leaves, height);
  }

  /**
   * A non-empty file whose own blocks arrive once each, in any order, gets the pieces root and the piece layer of
   * BEP 52, but with the multi-buffer update only when it has at most two blocks.
   */
  lemma AnyOrderGivesBep52(file: nat, entry: Entry, blocks: seq<Digest>, messages: seq<HashedBlock>, pieceSize: nat,
                           isal: bool)
    requires ValidPieceSize(pieceSize) && !entry.padding && entry.size > 0 && |blocks| == BlockCount(entry.size)
    requires multiset(messages) == multiset(LeafMessages(file, blocks))
    ensures var r := RunFile(FreshFile(entry), messages, pieceSize, isal);
            && r.Some? && r.value.entry.size == entry.size
            && (r.value.entry.root == Some(PiecesRoot(blocks))
                && r.value.entry.layer == PieceLayer(blocks, entry.size, pieceSize)
                <==> !isal || |blocks| <= 2)
  {
    hide BlocksPerPieceLog, LeafSlots, Log2Floor, Pow2, RunFile, TreeNode, SubRoot;
    AnyOrderCompletesFile(file, entry, blocks, messages, pieceSize, isal);
    SlotsOfBlocks(entry.size);
    PieceLevelFits(entry.size, pieceSize);
    HashedIsBep52(RunFile(FreshFile(entry), messages, pieceSize, isal).value.entry, blocks, pieceSize, isal);
  }

  lemma SlotsOfBlocks(size: nat)
    requires size > 0
    ensures BlockCount(size) > 0 && LeafSlots(size) == Pow2(Log2Ceil(BlockCount(size)))
    ensures BlockCount(size) <= LeafSlots(size)
    ensures Log2Floor(LeafSlots(size)) == Log2Ceil(BlockCount(size))
    ensures Log2Ceil(BlockCount(size)) <= 1 <==> BlockCount(size) <= 2
  {
    assert BlockCount(size) > 0;
    Log2CeilLeast(BlockCount(size));
    Log2FloorUnique(LeafSlots(size), Log2Ceil(BlockCount(size)));
    assert Pow2(1) == 2;
  }

  lemma HashedIsBep52(entry: Entry, blocks: seq<Digest>, pieceSize: nat, isal: bool)
    requires ValidPieceSize(pieceSize) && entry.size > 0 && |blocks| == BlockCount(entry.size) > 0
    requires HashedAs(entry, blocks, pieceSize, isal)
    requires Log2Floor(LeafSlots(entry.size)) == Log2Ceil(|blocks|)
    requires Log2Ceil(|blocks|) <= 1 <==> |blocks| <= 2
    requires BlocksPerPieceLog(pieceSize) >= Log2Ceil(|blocks|) <==> entry.size <= pieceSize
    ensures entry.root == Some(PiecesRoot(blocks)) && entry.layer == PieceLayer(blocks, entry.size, pieceSize)
            <==> !isal || |blocks| <= 2
  {
    hide BlocksPerPieceLog, LeafSlots, Log2Floor, Log2Ceil, BlockCount, MultiNode, SubRoot;
    var h, g := Log2Ceil(|blocks|), BlocksPerPieceLog(pieceSize);
    if isal {
      MultiRootExactly(blocks, h);
      if |blocks| <= 2 && g < h {
        forall j: nat
          ensures TreeNode(blocks, h, g, j, true) == SubRoot(blocks, g, j)
        {
          LowTreeNodes(blocks, h, g, j, true);
        }
      }
    }
  }

  // ---- All files together ------------------------------------------------------------------------------------

  /** The messages of all files in arrival order. */
  function RunWriter(states: seq<FileState>, messages: seq<HashedBlock>, pieceSize: nat,
                     isal: bool): (r: Option<seq<FileState>>)
    requires pieceSize >= BLOCK_SIZE && forall m :: m in messages ==> m.file < |states|
    ensures r.Some? ==> |r.value| == |states|
  {
    if messages == [] then Some(states)
    else
      var before := RunWriter(states, messages[..|messages| - 1], pieceSize, isal);
      var m := messages[|messages| - 1];
      if before.None? || m.leaf >= |before.value[m.file].leaves| then None
      else Some(before.value[m.file := FinishBlock(before.value[m.file], m.leaf, m.hash, pieceSize, isal)])
  }

  /** The messages of one file, in arrival order. */
  function Project(messages: seq<HashedBlock>, file: nat): seq<HashedBlock> {
    if messages == [] then []
    else
      var rest := Project(messages[..|messages| - 1], file);
      var m := messages[|messages| - 1];
      if m.file == file then rest + [m] else rest
  }

  /** Interleaving files does not mix them up: each file sees its own messages, and a contract fails for one of them. */
  lemma {:induction false} FilesAreIndependent(states: seq<FileState>, messages: seq<HashedBlock>, pieceSize: nat,
                                               isal: bool)
    requires pieceSize >= BLOCK_SIZE && forall m :: m in messages ==> m.file < |states|
    ensures var r := RunWriter(states, messages, pieceSize, isal);
            if r.Some? then
              forall f: nat :: f < |states| ==>
                RunFile(states[f], Project(messages, f), pieceSize, isal) == Some(r.value[f])
            else exists f: nat :: f < |states| && RunFile(states[f], Project(messages, f), pieceSize, isal).None?
  {
    if messages != [] {
      var k := |messages| - 1;
      var m := messages[k];
      FilesAreIndependent(states, messages[..k], pieceSize, isal);
      var before := RunWriter(states, messages[..k], pieceSize, isal);
      var mine := Project(messages, m.file);
      assert mine == Project(messages[..k], m.file) + [m];
      assert mine[..|mine| - 1] == Project(messages[..k], m.file);
      if before.None? {
        var f: nat :| f < |states| && RunFile(states[f], Project(messages[..k], f), pieceSize, isal).None?;
        assert RunFile(states[f], Project(messages, f), pieceSize, isal).None?;
      } else if m.leaf >= |before.value[m.file].leaves| {
        assert RunFile(states[m.file], mine, pieceSize, isal).None?;
      }
    }
  }

  lemma {:induction false} ProjectCounts(messages: seq<HashedBlock>, file: nat, m: HashedBlock)
    ensures multiset(Project(messages, file))[m] == if m.file == file then multiset(messages)[m] else 0
  {
    if messages != [] {
      var k := |messages| - 1;
      ProjectCounts(messages[..k], file, m);
      assert messages == messages[..k] + [messages[k]];
    }
  }

  /** Reordering the messages only reorders each file's own. */
  lemma ProjectOfReordered(a: seq<HashedBlock>, b: seq<HashedBlock>, file: nat)
    requires multiset(a) == multiset(b)
    ensures multiset(Project(a, file)) == multiset(Project(b, file))
  {
    forall m
      ensures multiset(Project(a, file))[m] == multiset(Project(b, file))[m]
    {
      ProjectCounts(a, file, m);
      ProjectCounts(b, file, m);
    }
  }

  // ---- The writer object -------------------------------------------------------------------------------------

  class V2PieceWriter {
    const pieceSize: nat
    const isal: bool
    var storage: seq<Entry>
    const trees: seq<MerkleTree>
    var blocksHashed: seq<nat>

    ghost predicate TreeOf(i: nat)
      requires i < |trees| && i < |storage|
      reads this, trees
    {
      if storage[i].padding then trees[i].data == []
      else trees[i].Valid() && |trees[i].Leaves()| == LeafSlots(storage[i].size) && (isal ==> trees[i].MultiReady())
    }

    ghost predicate Valid()
      reads this, trees
    {
      && ValidPieceSize(pieceSize)
      && |storage| == |trees| == |blocksHashed|
      && (forall i, j :: 0 <= i < j < |trees| ==> trees[i] != trees[j])
      && (forall i: nat :: i < |storage| ==> TreeOf(i))
    }

    ghost function FileAt(i: nat): FileState
      requires Valid() && i < |storage|
      reads this, trees
    {
      assert TreeOf(i);
      FileState(if storage[i].padding then [] else trees[i].Leaves(), blocksHashed[i], storage[i])
    }

    ghost function State(): (s: seq<FileState>)
      requires Valid()
      reads this, trees
      ensures |s| == |storage|
    {
      seq(|storage|, i requires 0 <= i < |storage| && Valid() reads this, trees => FileAt(i))
    }

    /** `initialize_trees`: one tree per entry, an empty one for padding, so that file indices match. */
    constructor (storage: seq<Entry>, pieceSize: nat, isal: bool)
      requires ValidPieceSize(pieceSize)
      requires forall e :: e in storage ==> BlockCount(e.size) <= Pow2(MAX_HEIGHT)
      ensures Valid() && this.pieceSize == pieceSize && this.isal == isal && this.storage == storage && fresh(trees)
      ensures State() == seq(|storage|, i requires 0 <= i < |storage| => FreshFile(storage[i]))
    {
      hide Log2Floor, Pow2;
      this.pieceSize, this.isal := pieceSize, isal;
      this.storage := storage;
      var made: seq<MerkleTree> := [];
      var i := 0;
      while i < |storage|
        invariant 0 <= i == |made| <= |storage| && fresh(made)
        invariant forall j, k :: 0 <= j < k < |made| ==> made[j] != made[k]
        invariant forall j :: 0 <= j < |made| ==> FreshTree(made[j], storage[j])
      {
        var tree: MerkleTree;
        if storage[i].padding {
          tree := new MerkleTree.Default();
        } else {
          tree := new MerkleTree(BlockCount(storage[i].size));
          SlotsOfNewTree(tree, storage[i].size);
        }
        made := made + [tree];
        i := i + 1;
      }
      trees := made;
      blocksHashed := seq(|storage|, _ => 0);
      new;
      assert forall j: nat :: j < |storage| ==> FreshTree(trees[j], storage[j]) && TreeOf(j);
      forall j: nat | j < |storage|
        ensures FileAt(j) == FreshFile(storage[j])
      {
      }
    }

    static ghost predicate FreshTree(tree: MerkleTree, entry: Entry)
      reads tree
    {
      if entry.padding then tree.data == []
      else tree.Valid() && tree.Leaves() == seq(LeafSlots(entry.size), _ => Zero) && tree.MultiReady()
    }

    static lemma SlotsOfNewTree(tree: MerkleTree, size: nat)
      requires tree.Valid()
      requires tree.TreeHeight() == if BlockCount(size) == 0 then 1 else Log2Ceil(BlockCount(size))
      requires forall i :: 0 <= i < |tree.Leaves()| ==> tree.Leaves()[i] == Zero
      ensures tree.Leaves() == seq(LeafSlots(size), _ => Zero)
    {
    }

    /** Stores the leaf and, once as many leaves as blocks have come, completes the file. */
    method SetFinishedPiece(piece: HashedBlock)
      requires Valid() && piece.file < |storage| && !storage[piece.file].padding
      requires piece.leaf < |State()[piece.file].leaves|
      modifies this, trees
      ensures Valid()
      ensures State() == old(State())[
                           piece.file := FinishBlock(old(State())[piece.file], piece.leaf, piece.hash, pieceSize, isal)]
    {
      hide Log2Floor, Pow2, SubRoot, MultiNode;
      var f := piece.file;
      ghost var before := State();
      assert forall i: nat :: i < |storage| ==> TreeOf(i) && before[i] == FileAt(i);
      trees[f].SetLeaf(piece.leaf, piece.hash);
      var blocksInFile := BlockCount(storage[f].size);
      var earlier := blocksHashed[f];
      blocksHashed := blocksHashed[f := earlier + 1];
      forall i: nat | i < |storage|
        ensures TreeOf(i)
      {
        assert old(TreeOf(i));
      }
      assert forall i: nat :: i < |storage| && i != f ==> FileAt(i) == before[i];
      if blocksInFile <= earlier + 1 {
        SetPieceLayersAndRoot(f);
      }
      assert State()[f] == FinishBlock(before[f], piece.leaf, piece.hash, pieceSize, isal);
    }

    /** Hashes the tree of file f, sets the entry's root and cuts its piece layer out of the tree. */
    method SetPieceLayersAndRoot(f: nat)
      requires Valid() && f < |storage| && !storage[f].padding
      modifies this`storage, trees[f]
      ensures Valid() && |storage| == |old(storage)|
      ensures forall i: nat :: i < |storage| && i != f ==> FileAt(i) == old(FileAt(i))
      ensures FileAt(f) == Complete(old(FileAt(f)), pieceSize, isal)
    {
      hide Log2Floor, Pow2, SubRoot, MultiNode, LeafSlots, DivCeil;
      assert TreeOf(f);
      if isal {
        trees[f].UpdateMulti();
      } else {
        trees[f].Update();
      }
      forall i: nat | i < |storage|
        ensures TreeOf(i)
      {
        assert old(TreeOf(i));
      }
      HeightOfSlots(trees[f]);
      var root := trees[f].Root();
      var layer := CutPieceLayer(f);
      storage := storage[f := storage[f].(root := Some(root), layer := layer)];
      forall i: nat | i < |storage|
        ensures TreeOf(i)
      {
        assert old(TreeOf(i));
      }
    }

    /** The piece layer of a hashed tree, empty when the file is not larger than a piece. */
    method CutPieceLayer(f: nat) returns (layer: seq<Digest>)
      requires Valid() && f < |storage| && !storage[f].padding && trees[f].Valid()
      requires if isal then trees[f].MultiHashed() else trees[f].Hashed()
      ensures layer == CutLayer(trees[f].Leaves(), storage[f].size, pieceSize, isal)
    {
      hide Log2Floor, Pow2, SubRoot, MultiNode, LeafSlots, DivCeil;
      assert TreeOf(f);
      HeightOfSlots(trees[f]);
      Log2Monotone(BLOCK_SIZE, pieceSize);
      var layerOffset := Log2Floor(pieceSize) - Log2Floor(BLOCK_SIZE);
      layer := [];
      if layerOffset < trees[f].TreeHeight() {
        var layerDepth := trees[f].TreeHeight() - layerOffset;
        layer := trees[f].GetLayer(layerDepth);
        var pieces := (storage[f].size + pieceSize - 1) / pieceSize;
        CutFits(storage[f].size, pieceSize);
        if |layer| != pieces {
          layer := layer[..pieces];
        }
      }
    }

    static lemma HeightOfSlots(tree: MerkleTree)
      requires tree.Valid()
      ensures tree.TreeHeight() == Log2Floor(|tree.Leaves()|)
    {
      hide Log2Floor;
      Log2FloorUnique(|tree.Leaves()|, tree.TreeHeight());
    }
  }

  /** The kept part of the piece level lies inside the level. */
  lemma CutFits(size: nat, pieceSize: nat)
    requires ValidPieceSize(pieceSize) && BlocksPerPieceLog(pieceSize) < Log2Floor(LeafSlots(size))
    ensures DivCeil(size, pieceSize) == (size + pieceSize - 1) / pieceSize
    ensures DivCeil(size, pieceSize) <= Pow2(Log2Floor(LeafSlots(size)) - BlocksPerPieceLog(pieceSize))
  {
    hide Log2Floor, BlocksPerPieceLog;
    DivCeilAsQuotient(size, pieceSize);
    if size > 0 {
      Log2FloorUnique(LeafSlots(size), Log2Ceil(BlockCount(size)));
      PieceLevelFits(size, pieceSize);
    }
  }
}
