/** The complete binary hash tree of include/dottorrent/merkle_tree.hpp, kept in a flat vector. */
module Merkle {
  import opened Arith
  import opened Digests

  // ---- Index arithmetic -------------------------------------------------------------------------------------

  /** Heights stay below 31: the source shifts a 32-bit `1U`. */
  const MAX_HEIGHT := 30

  datatype NodePosition = NodePosition(layer: nat, index: nat)

  function NodesInLayer(layer: nat): nat { Pow2(layer) }

  function TotalNodeCountForHeight(height: nat): nat { Pow2(height + 1) - 1 }

  function GetFlatIndex(layer: nat, index: nat): nat { Pow2(layer) - 1 + index }

  function GetNodeLayer(flat: nat): nat { Log2Floor(flat + 1) }

  function GetNodeIndex(flat: nat): NodePosition {
    var layer := GetNodeLayer(flat);
    NodePosition(layer, flat - GetFlatIndex(layer, 0))
  }

  function Parent(flat: nat): nat {
    if flat == 0 then 0 else (flat - 1) / 2
  }

  function LeftChild(flat: nat): nat { flat * 2 + 1 }

  function RightChild(flat: nat): nat { flat * 2 + 2 }

  function LeftChildN(flat: nat, n: nat): int { flat * (2 * Pow2(n)) + 2 * Pow2(n) - 1 }

  function RightChildN(flat: nat, n: nat): int { flat * (2 * Pow2(n)) + 4 * Pow2(n) - 2 }

  function Iterate(f: nat -> nat, times: nat, x: nat): nat {
    if times == 0 then x else f(Iterate(f, times - 1, x))
  }

  /** (layer, index) and flat index are in bijection, and the layers below `height + 1` fill the vector. */
  lemma PositionsAreFlatIndices(height: nat, layer: nat, index: nat, flat: nat)
    ensures index < NodesInLayer(layer) ==> GetNodeIndex(GetFlatIndex(layer, index)) == NodePosition(layer, index)
    ensures var p := GetNodeIndex(flat); p.index < NodesInLayer(p.layer) && GetFlatIndex(p.layer, p.index) == flat
    ensures flat < TotalNodeCountForHeight(height) <==> GetNodeLayer(flat) <= height
  {
    if index < NodesInLayer(layer) {
      Log2FloorUnique(GetFlatIndex(layer, index) + 1, layer);
    }
    var l := GetNodeLayer(flat);
    if l <= height {
      Pow2Monotone(l + 1, height + 1);
    } else {
      Pow2Monotone(height + 1, l);
    }
  }

  /** The children of node i of a layer are nodes 2i and 2i+1 of the next one, and `Parent` inverts both. */
  lemma ChildPositions(layer: nat, index: nat)
    ensures LeftChild(GetFlatIndex(layer, index)) == GetFlatIndex(layer + 1, 2 * index)
    ensures RightChild(GetFlatIndex(layer, index)) == GetFlatIndex(layer + 1, 2 * index + 1)
    ensures Parent(LeftChild(GetFlatIndex(layer, index))) == GetFlatIndex(layer, index)
    ensures Parent(RightChild(GetFlatIndex(layer, index))) == GetFlatIndex(layer, index)
  {
  }

  /** `left_child_n`/`right_child_n` take n + 1 child steps, one more than their documentation says. */
  lemma {:induction false} NthChildren(flat: nat, n: nat)
    ensures LeftChildN(flat, n) == Iterate(LeftChild, n + 1, flat)
    ensures RightChildN(flat, n) == Iterate(RightChild, n + 1, flat)
  {
    if n == 0 {
      assert Iterate(LeftChild, 1, flat) == LeftChild(Iterate(LeftChild, 0, flat));
      assert Iterate(RightChild, 1, flat) == RightChild(Iterate(RightChild, 0, flat));
    } else {
      NthChildren(flat, n - 1);
      var p := Pow2(n - 1);
      assert flat * (2 * (2 * p)) == 2 * (flat * (2 * p));
    }
  }

  // ---- The hash tree a block list stands for ------------------------------------------------------------------

  /** The tree of BEP 52 has all-zero leaves beyond the last block. */
  function LeafAt(leaves: seq<Digest>, i: nat): Digest {
    if i < |leaves| then leaves[i] else Zero
  }

  /** The root of the i-th subtree of height h over `leaves` extended with zero digests. */
  function SubRoot(leaves: seq<Digest>, h: nat, i: nat): Digest {
    if h == 0 then LeafAt(leaves, i)
    else Node(SubRoot(leaves, h - 1, 2 * i), SubRoot(leaves, h - 1, 2 * i + 1))
  }

  /** The first leaf below the i-th node h levels above the leaves. */
  function FirstLeaf(h: nat, i: nat): nat {
    if h == 0 then i else FirstLeaf(h - 1, 2 * i)
  }

  lemma {:induction false} FirstLeafIsProduct(h: nat, i: nat)
    ensures FirstLeaf(h, i) == i * Pow2(h)
  {
    if h > 0 {
      FirstLeafIsProduct(h - 1, 2 * i);
      var p := Pow2(h - 1);
      assert (2 * i) * p == i * (2 * p);
    }
  }

  /** Neighbouring nodes cover neighbouring leaf ranges of size 2^h. */
  lemma {:induction false} FirstLeafNext(h: nat, i: nat)
    ensures FirstLeaf(h, i + 1) == FirstLeaf(h, i) + Pow2(h)
  {
    if h > 0 {
      FirstLeafNext(h - 1, 2 * i);
      FirstLeafNext(h - 1, 2 * i + 1);
    }
  }

  /** A node h levels above the leaves depends only on the leaves it covers; `shift` moves to another node. */
  lemma {:induction false} SubRootReadsItsLeaves(a: seq<Digest>, b: seq<Digest>, h: nat, i: nat, j: nat, shift: int)
    requires FirstLeaf(h, j) == FirstLeaf(h, i) + shift
    requires forall x: nat :: FirstLeaf(h, i) <= x < FirstLeaf(h, i) + Pow2(h) ==>
      0 <= x + shift && LeafAt(a, x) == LeafAt(b, x + shift)
    ensures SubRoot(a, h, i) == SubRoot(b, h, j)
  {
    if h > 0 {
      FirstLeafNext(h - 1, 2 * i);
      FirstLeafNext(h - 1, 2 * j);
      SubRootReadsItsLeaves(a, b, h - 1, 2 * i, 2 * j, shift);
      SubRootReadsItsLeaves(a, b, h - 1, 2 * i + 1, 2 * j + 1, shift);
    } else {
      assert LeafAt(a, i) == LeafAt(b, i + shift);
    }
  }

  /** Equal subtree roots come from equal leaves: the hash is injective. */
  lemma {:induction false} SubRootInjective(a: seq<Digest>, b: seq<Digest>, h: nat, i: nat, j: nat, x: nat)
    requires SubRoot(a, h, i) == SubRoot(b, h, j)
    requires x < Pow2(h)
    ensures LeafAt(a, FirstLeaf(h, i) + x) == LeafAt(b, FirstLeaf(h, j) + x)
  {
    if h > 0 {
      FirstLeafNext(h - 1, 2 * i);
      FirstLeafNext(h - 1, 2 * j);
      var p := Pow2(h - 1);
      if x < p {
        SubRootInjective(a, b, h - 1, 2 * i, 2 * j, x);
      } else {
        SubRootInjective(a, b, h - 1, 2 * i + 1, 2 * j + 1, x - p);
      }
    }
  }

  /** Hashing the roots of the height-g subtrees for h more levels gives the root g + h levels up. */
  lemma {:induction false} SubRootOfLayer(leaves: seq<Digest>, layer: seq<Digest>, g: nat, h: nat, i: nat)
    requires forall j: nat :: FirstLeaf(h, i) <= j < FirstLeaf(h, i) + Pow2(h) ==>
               LeafAt(layer, j) == SubRoot(leaves, g, j)
    ensures SubRoot(layer, h, i) == SubRoot(leaves, g + h, i)
  {
    if h > 0 {
      FirstLeafNext(h - 1, 2 * i);
      SubRootOfLayer(leaves, layer, g, h - 1, 2 * i);
      SubRootOfLayer(leaves, layer, g, h - 1, 2 * i + 1);
    } else {
      assert LeafAt(layer, i) == SubRoot(leaves, g, i);
    }
  }

  // ---- What the multi-buffer update makes of the leaves --------------------------------------------------------

  /**
   * The value of node i, h levels above the leaves, after the multi-buffer `update` of a tree of that height. It takes
   * the parent of the left child's index: the hash of pair j goes to node j - 1, that of pair 0 to node 0 as well and
   * is then written over, and the last node of every inner layer stays as it was.
   */
  function MultiNode(leaves: seq<Digest>, height: nat, h: nat, i: nat): Digest {
    if h == 0 then LeafAt(leaves, i)
    else if h >= height then Node(MultiNode(leaves, height, h - 1, 2 * i), MultiNode(leaves, height, h - 1, 2 * i + 1))
    else if i + 1 == NodesInLayer(height - h) then Zero
    else Node(MultiNode(leaves, height, h - 1, 2 * i + 2), MultiNode(leaves, height, h - 1, 2 * i + 3))
  }

  /** A node of a hashed tree; `isal` selects the multi-buffer `update`. */
  function TreeNode(leaves: seq<Digest>, height: nat, h: nat, i: nat, isal: bool): Digest {
    if isal then MultiNode(leaves, height, h, i) else SubRoot(leaves, h, i)
  }

  /** From height 2 on the right child of the root is zero. */
  lemma MultiRootIsLopsided(leaves: seq<Digest>, height: nat)
    requires height >= 2
    ensures MultiNode(leaves, height, height, 0).Node? && MultiNode(leaves, height, height, 0).right == Zero
  {
    assert MultiNode(leaves, height, height - 1, 1) == Zero;
  }

  /** The multi-buffer update gives the root of BEP 52 exactly when the tree has at most two leaf slots. */
  lemma MultiRootExactly(leaves: seq<Digest>, height: nat)
    ensures MultiNode(leaves, height, height, 0) == SubRoot(leaves, height, 0) <==> height <= 1
  {
    if height >= 2 {
      MultiRootIsLopsided(leaves, height);
      RootHasNodes(leaves, height);
    } else if height == 1 {
      assert SubRoot(leaves, 0, 0) == MultiNode(leaves, 1, 0, 0) && SubRoot(leaves, 0, 1) == MultiNode(leaves, 1, 0, 1);
    }
  }

  lemma RootHasNodes(leaves: seq<Digest>, height: nat)
    requires height >= 2
    ensures SubRoot(leaves, height, 0).Node? && SubRoot(leaves, height, 0).right.Node?
  {
    assert SubRoot(leaves, height - 1, 1).Node?;
  }

  /** Three blocks: the first two do not even get into the root. */
  lemma MultiRootOfThree(a: Digest, b: Digest, c: Digest)
    ensures MultiNode([a, b, c], 2, 2, 0) == Node(Node(c, Zero), Zero)
    ensures SubRoot([a, b, c], 2, 0) == Node(Node(a, b), Node(c, Zero))
  {
    var leaves := [a, b, c];
    assert Pow2(1) == 2;
    assert MultiNode(leaves, 2, 1, 1) == Zero;
    assert MultiNode(leaves, 2, 1, 0) == Node(MultiNode(leaves, 2, 0, 2), MultiNode(leaves, 2, 0, 3));
    assert SubRoot(leaves, 1, 0) == Node(SubRoot(leaves, 0, 0), SubRoot(leaves, 0, 1));
    assert SubRoot(leaves, 1, 1) == Node(SubRoot(leaves, 0, 2), SubRoot(leaves, 0, 3));
  }

  /** Lists that agree once padded with zero digests have the same nodes. */
  lemma {:induction false} SameLeavesSameMultiNodes(a: seq<Digest>, b: seq<Digest>, height: nat, h: nat, i: nat)
    requires forall x: nat :: LeafAt(a, x) == LeafAt(b, x)
    ensures MultiNode(a, height, h, i) == MultiNode(b, height, h, i)
  {
    if h > 0 {
      var j := if h >= height then 2 * i else 2 * i + 2;
      SameLeavesSameMultiNodes(a, b, height, h - 1, j);
      SameLeavesSameMultiNodes(a, b, height, h - 1, j + 1);
    }
  }

  /** The first leaf below an inner node of a tree hashed that way. */
  function MultiFirstLeaf(h: nat, i: nat): nat {
    if h == 0 then i else MultiFirstLeaf(h - 1, 2 * i + 2)
  }

  /** It lies behind the leaves the node should cover. */
  lemma {:induction false} MultiFirstLeafIsBehind(h: nat, i: nat)
    requires h > 0
    ensures MultiFirstLeaf(h, i) >= (i + 1) * Pow2(h)
  {
    if h == 1 {
      assert MultiFirstLeaf(1, i) == MultiFirstLeaf(0, 2 * i + 2);
    } else {
      MultiFirstLeafIsBehind(h - 1, 2 * i + 2);
      var p := Pow2(h - 1);
      assert (2 * i + 3) * p == (i + 1) * (2 * p) + p;
    }
  }

  /** Where such an inner node is equal to a right one, so are their first leaves. */
  lemma {:induction false} MultiNodeInjective(a: seq<Digest>, b: seq<Digest>, height: nat, h: nat, i: nat, j: nat)
    requires h < height && MultiNode(a, height, h, i) == SubRoot(b, h, j)
    ensures LeafAt(a, MultiFirstLeaf(h, i)) == LeafAt(b, FirstLeaf(h, j))
  {
    if h > 0 {
      assert SubRoot(b, h, j) == Node(SubRoot(b, h - 1, 2 * j), SubRoot(b, h - 1, 2 * j + 1));
      MultiNodeInjective(a, b, height, h - 1, 2 * i + 2, 2 * j);
    }
  }

  /** In the vector of a tree of that height, node `index` of `layer` is the root of the leaves it covers. */
  ghost predicate IsSubRoot(data: seq<Digest>, leaves: seq<Digest>, height: nat, layer: nat, index: nat) {
    && layer <= height
    && GetFlatIndex(layer, index) < |data|
    && data[GetFlatIndex(layer, index)] == SubRoot(leaves, height - layer, index)
  }

  /** Every node from depth `top` down to the leaves is the root of the leaves it covers. */
  ghost predicate HashedFrom(data: seq<Digest>, leaves: seq<Digest>, height: nat, top: nat) {
    forall l: nat, i: nat :: top <= l <= height && i < NodesInLayer(l) ==> IsSubRoot(data, leaves, height, l, i)
  }

  /** The first `count` nodes of a layer are the roots of the leaves they cover. */
  ghost predicate ParentsHashed(data: seq<Digest>, leaves: seq<Digest>, height: nat, layer: nat, count: nat) {
    forall j: nat :: j < count ==> IsSubRoot(data, leaves, height, layer, j)
  }

  /**
   * In the vector of a tree of that height, node `index` of `layer` is what the multi-buffer update makes of the
   * leaves.
   */
  ghost predicate IsMultiNode(data: seq<Digest>, leaves: seq<Digest>, height: nat, layer: nat, index: nat) {
    && layer <= height
    && GetFlatIndex(layer, index) < |data|
    && data[GetFlatIndex(layer, index)] == MultiNode(leaves, height, height - layer, index)
  }

  ghost predicate MultiHashedFrom(data: seq<Digest>, leaves: seq<Digest>, height: nat, top: nat) {
    forall l: nat, i: nat :: top <= l <= height && i < NodesInLayer(l) ==> IsMultiNode(data, leaves, height, l, i)
  }

  /** The last nodes of the inner layers below the root have never been written. */
  ghost predicate LastNodesUnset(data: seq<Digest>, height: nat) {
    forall l: nat :: 0 < l < height ==> LastNodeUnset(data, l)
  }

  ghost predicate LastNodeUnset(data: seq<Digest>, layer: nat) {
    2 * Pow2(layer) - 2 < |data| && data[2 * Pow2(layer) - 2] == Zero
  }

  /** What the hashes of the first `count` pairs of a layer have made of node i of the layer above. */
  function AfterPairs(before: Digest, pairs: seq<Digest>, count: nat, i: nat): Digest
    requires count <= |pairs|
  {
    if i + 1 < count then pairs[i + 1] else if i == 0 && count == 1 then pairs[0] else before
  }

  // ---- The tree object ---------------------------------------------------------------------------------------

  class MerkleTree {
    var data: seq<Digest>

    function TreeHeight(): (h: nat)
      requires |data| > 0
      reads this
    {
      GetNodeLayer(|data| - 1)
    }

    /** A vector that holds a complete tree. A default-constructed tree holds none. */
    ghost predicate Valid()
      reads this
    {
      |data| > 0 && TreeHeight() <= MAX_HEIGHT && |data| == TotalNodeCountForHeight(TreeHeight())
    }

    /** The leaf layer, read out of the flat vector. */
    ghost function Leaves(): (s: seq<Digest>)
      requires Valid()
      reads this
      ensures |s| == Pow2(TreeHeight())
    {
      data[Pow2(TreeHeight()) - 1..]
    }

    /** Every node is the root of the leaves it covers. */
    ghost predicate Hashed()
      requires Valid()
      reads this
    {
      HashedFrom(data, Leaves(), TreeHeight(), 0)
    }

    constructor Default()
      ensures data == []
    {
      data := [];
    }

    constructor (leafNodes: nat)
      requires leafNodes <= Pow2(MAX_HEIGHT)
      ensures Valid()
      ensures TreeHeight() == (if leafNodes == 0 then 1 else Log2Ceil(leafNodes))
      ensures leafNodes <= |Leaves()| && forall i :: 0 <= i < |Leaves()| ==> Leaves()[i] == Zero
      ensures MultiReady()
    {
      new;
      SetLeafNodes(leafNodes, Zero);
      NewTreeIsReady();
    }

    /** One slot per node of the smallest complete tree with that many leaves; no leaves still gives height 1. */
    method SetLeafNodes(leafNodes: nat, value: Digest)
      requires leafNodes <= Pow2(MAX_HEIGHT)
      modifies this
      ensures Valid()
      ensures TreeHeight() == (if leafNodes == 0 then 1 else Log2Ceil(leafNodes))
      ensures leafNodes <= |Leaves()| && forall i :: 0 <= i < |Leaves()| ==> Leaves()[i] == value
      ensures forall f: nat :: f < |data| ==> data[f] == value
    {
      var height := if leafNodes != 0 then Log2Ceil(leafNodes) else 1;
      LeavesFit(leafNodes, height);
      data := seq(TotalNodeCountForHeight(height), _ => value);
      Log2FloorUnique(TotalNodeCountForHeight(height), height);
    }

    lemma NewTreeIsReady()
      requires Valid() && forall f: nat :: f < |data| ==> data[f] == Zero
      ensures MultiReady()
    {
      hide Log2Floor;
      forall l: nat | 0 < l < TreeHeight()
        ensures LastNodeUnset(data, l)
      {
        Pow2Monotone(l, TreeHeight());
      }
    }

    lemma LeavesFit(leafNodes: nat, height: nat)
      requires leafNodes <= Pow2(MAX_HEIGHT)
      requires height == if leafNodes == 0 then 1 else Log2Ceil(leafNodes)
      ensures height <= MAX_HEIGHT && leafNodes <= Pow2(height)
    {
      if leafNodes != 0 {
        Log2CeilLeast(leafNodes);
      }
    }

    /** Requires what the source checks: the node lies in the tree. */
    method GetNode(layer: nat, index: nat) returns (r: Digest)
      requires Valid() && layer <= TreeHeight() && index < NodesInLayer(layer)
      ensures GetFlatIndex(layer, index) < |data| && r == data[GetFlatIndex(layer, index)]
    {
      PositionInside(layer, index);
      r := data[GetFlatIndex(layer, index)];
    }

    lemma PositionInside(layer: nat, index: nat)
      requires Valid() && layer <= TreeHeight() && index < NodesInLayer(layer)
      ensures GetFlatIndex(layer, index) < |data|
    {
      Pow2Monotone(layer, TreeHeight());
    }

    method SetNode(layer: nat, index: nat, value: Digest)
      requires Valid() && layer <= TreeHeight() && index < NodesInLayer(layer)
      modifies this
      ensures GetFlatIndex(layer, index) < |old(data)| && data == old(data)[GetFlatIndex(layer, index) := value]
      ensures Valid() && TreeHeight() == old(TreeHeight())
    {
      PositionInside(layer, index);
      data := data[GetFlatIndex(layer, index) := value];
    }

    method SetLeaf(index: nat, value: Digest)
      requires Valid() && index < |Leaves()|
      modifies this
      ensures Valid() && TreeHeight() == old(TreeHeight())
      ensures Leaves() == old(Leaves())[index := value]
      ensures old(MultiReady()) ==> MultiReady()
    {
      ghost var before, h := data, TreeHeight();
      SetNode(TreeHeight(), index, value);
      if LastNodesUnset(before, h) {
        LeafKeepsReady(before, data, h, index);
      }
    }

    /** Recomputes every inner node from the leaves, layer by layer from the bottom. */
    method Update()
      requires Valid()
      modifies this
      ensures Valid() && TreeHeight() == old(TreeHeight())
      ensures Leaves() == old(Leaves())
      ensures Hashed()
    {
      hide Log2Floor, Pow2;
      var height := TreeHeight();
      ghost var leaves := Leaves();
      LeavesAreHashed();
      var layer := height;
      while layer > 0
        invariant layer <= height && Valid() && TreeHeight() == height && Leaves() == leaves
        invariant HashedFrom(data, leaves, height, layer)
      {
        ghost var before := data;
        UpdateLayer(layer, leaves);
        LayerDone(before, data, leaves, layer - 1, height);
        layer := layer - 1;
      }
    }

    lemma LeavesAreHashed()
      requires Valid()
      ensures HashedFrom(data, Leaves(), TreeHeight(), TreeHeight())
    {
      hide Pow2, Log2Floor;
      var h := TreeHeight();
      forall i: nat | i < NodesInLayer(h)
        ensures IsSubRoot(data, Leaves(), h, h, i)
      {
        LeafIsSubRoot(i);
      }
    }

    lemma LeafIsSubRoot(i: nat)
      requires Valid() && i < Pow2(TreeHeight())
      ensures IsSubRoot(data, Leaves(), TreeHeight(), TreeHeight(), i)
    {
      hide Pow2, Log2Floor;
      PositionInside(TreeHeight(), i);
      assert data[GetFlatIndex(TreeHeight(), i)] == Leaves()[i];
    }

    /** The inner loop of `update`: hashes the pairs of one layer into the layer above. */
    method UpdateLayer(layer: nat, ghost leaves: seq<Digest>)
      requires Valid() && 0 < layer <= TreeHeight() && HashedFrom(data, leaves, TreeHeight(), layer)
      modifies this
      ensures |data| == |old(data)|
      ensures forall f: nat :: Pow2(layer) - 1 <= f < |data| ==> data[f] == old(data)[f]
      ensures ParentsHashed(data, leaves, old(TreeHeight()), layer - 1, Pow2(layer - 1))
    {
      hide Log2Floor, SubRoot;
      ghost var height, before, k := TreeHeight(), data, 0;
      var i := 0;
      while i < NodesInLayer(layer)
        invariant i == 2 * k && k <= Pow2(layer - 1) && |data| == |before|
        invariant forall f: nat :: Pow2(layer) - 1 <= f < |data| ==> data[f] == before[f]
        invariant ParentsHashed(data, leaves, height, layer - 1, k)
      {
        ghost var mid := data;
        i := HashPair(layer, i);
        PairHashed(before, mid, data, leaves, height, layer - 1, k);
        k := k + 1;
      }
    }

    /** One round of that loop: the index steps inside the round as well, and `Parent` is taken of the right child. */
    method HashPair(layer: nat, first: nat) returns (i: nat)
      requires Valid() && 0 < layer <= TreeHeight() && first % 2 == 0 && first < NodesInLayer(layer)
      modifies this
      ensures i == first + 2 && |data| == |old(data)|
      ensures GetFlatIndex(layer, first + 1) < |data| && GetFlatIndex(layer - 1, first / 2) < Pow2(layer) - 1
      ensures data == old(data)[GetFlatIndex(layer - 1, first / 2) :=
                                Node(old(data)[GetFlatIndex(layer, first)], old(data)[GetFlatIndex(layer, first + 1)])]
    {
      hide Log2Floor;
      assert first + 1 < Pow2(layer) == 2 * Pow2(layer - 1);
      i := first;
      var left := GetNode(layer, i);
      i := i + 1;
      var right := GetNode(layer, i);
      assert Parent(i) == first / 2;
      SetNode(layer - 1, Parent(i), Node(left, right));
      i := i + 1;
    }

    lemma PairHashed(before: seq<Digest>, mid: seq<Digest>, after: seq<Digest>, leaves: seq<Digest>,
                     height: nat, above: nat, k: nat)
      requires |before| == |mid| && above < height && k < Pow2(above)
      requires HashedFrom(before, leaves, height, above + 1)
      requires GetFlatIndex(above + 1, 2 * k + 1) < |mid|
      requires forall f: nat :: Pow2(above + 1) - 1 <= f < |mid| ==> mid[f] == before[f]
      requires ParentsHashed(mid, leaves, height, above, k)
      requires after == mid[GetFlatIndex(above, k) :=
                            Node(mid[GetFlatIndex(above + 1, 2 * k)], mid[GetFlatIndex(above + 1, 2 * k + 1)])]
      ensures ParentsHashed(after, leaves, height, above, k + 1)
      ensures forall f: nat :: Pow2(above + 1) - 1 <= f < |after| ==> after[f] == before[f]
    {
      assert IsSubRoot(before, leaves, height, above + 1, 2 * k);
      assert IsSubRoot(before, leaves, height, above + 1, 2 * k + 1);
      forall j: nat | j <= k
        ensures IsSubRoot(after, leaves, height, above, j)
      {
        assert j < k ==> IsSubRoot(mid, leaves, height, above, j);
      }
    }

    /** With all pairs of layer `above + 1` hashed, layer `above` joins the hashed ones and the leaves are untouched. */
    lemma LayerDone(before: seq<Digest>, after: seq<Digest>, leaves: seq<Digest>, above: nat, height: nat)
      requires |before| == |after| == TotalNodeCountForHeight(height) && above < height
      requires forall f: nat :: Pow2(above + 1) - 1 <= f < |after| ==> after[f] == before[f]
      requires HashedFrom(before, leaves, height, above + 1)
      requires ParentsHashed(after, leaves, height, above, Pow2(above))
      ensures after[Pow2(height) - 1..] == before[Pow2(height) - 1..]
      ensures HashedFrom(after, leaves, height, above)
    {
      Pow2Monotone(above + 1, height);
      forall l: nat, i: nat | above <= l <= height && i < NodesInLayer(l)
        ensures IsSubRoot(after, leaves, height, l, i)
      {
        if l > above {
          assert IsSubRoot(before, leaves, height, l, i);
          Pow2Monotone(above + 1, l);
        }
      }
    }

    /** The nodes are what the multi-buffer update makes of the leaves. */
    ghost predicate MultiHashed()
      requires Valid()
      reads this
    {
      MultiHashedFrom(data, Leaves(), TreeHeight(), 0)
    }

    /** Nothing but leaves has been set, and hashes by the multi-buffer update alone. */
    ghost predicate MultiReady()
      requires Valid()
      reads this
    {
      LastNodesUnset(data, TreeHeight())
    }

    /** The update for a multi-buffer hasher: all pairs of a layer are submitted, then their hashes collected. */
    method UpdateMulti()
      requires Valid() && MultiReady()
      modifies this
      ensures Valid() && MultiReady() && TreeHeight() == old(TreeHeight())
      ensures Leaves() == old(Leaves())
      ensures MultiHashed()
    {
      hide Log2Floor, Pow2, MultiNode, LastNodeUnset;
      var height := TreeHeight();
      ghost var leaves := Leaves();
      LeavesAreMultiHashed();
      var layer := height;
      while layer > 0
        invariant layer <= height && Valid() && TreeHeight() == height && Leaves() == leaves
        invariant MultiHashedFrom(data, leaves, height, layer)
        invariant forall l: nat :: 0 < l < height ==> LastNodeUnset(data, l)
      {
        ghost var before := data;
        UpdateMultiLayer(layer);
        MultiLayerDone(before, data, leaves, layer - 1, height);
        layer := layer - 1;
      }
    }

    lemma LeavesAreMultiHashed()
      requires Valid()
      ensures MultiHashedFrom(data, Leaves(), TreeHeight(), TreeHeight())
    {
      hide Pow2, Log2Floor;
      var h := TreeHeight();
      forall i: nat | i < NodesInLayer(h)
        ensures IsMultiNode(data, Leaves(), h, h, i)
      {
        LeafIsSubRoot(i);
      }
    }

    /**
     * One layer: the left children of all jobs, the right ones, then the hash of every job to the parent of its left
     * child.
     */
    method UpdateMultiLayer(layer: nat)
      requires Valid() && 0 < layer <= TreeHeight()
      modifies this
      ensures |data| == |old(data)|
      ensures LayerFromPairs(old(data), data, layer - 1)
    {
      hide Log2Floor, AfterPairs, LayerWritten;
      Pow2Monotone(layer, TreeHeight());
      ghost var pairs := PairHashes(data, layer - 1);
      var jobs := SubmitPairs(layer);
      CollectPairs(layer, jobs, pairs);
    }

    method SubmitPairs(layer: nat) returns (jobs: seq<seq<Digest>>)
      requires Valid() && 0 < layer <= TreeHeight()
      ensures |jobs| == Pow2(layer - 1)
      ensures 2 * Pow2(layer) - 1 <= |data|
      ensures forall j: nat :: j < |jobs| ==>
                |jobs[j]| == 2 && PairHashes(data, layer - 1)[j] == Node(jobs[j][0], jobs[j][1])
    {
      hide Log2Floor, HasLeft, HasBoth;
      Pow2Monotone(layer, TreeHeight());
      var nNodes := NodesInLayer(layer);
      var nJobs := nNodes / 2;
      jobs := seq(nJobs, _ => []);
      for jobId := 0 to nJobs
        invariant |jobs| == nJobs
        invariant forall j: nat :: j < jobId ==> HasLeft(data, layer, jobs[j], j)
      {
        var left := GetNode(layer, 2 * jobId);
        jobs := jobs[jobId := [left]];
        assert HasLeft(data, layer, jobs[jobId], jobId) by { LeftSubmitted(data, layer, left, jobId); }
      }
      for jobId := 0 to nJobs
        invariant |jobs| == nJobs
        invariant forall j: nat :: j < jobId ==> HasBoth(data, layer, jobs[j], j)
        invariant forall j: nat :: jobId <= j < nJobs ==> HasLeft(data, layer, jobs[j], j)
      {
        var right := GetNode(layer, 2 * jobId + 1);
        RightSubmitted(data, layer, jobs[jobId], right, jobId);
        jobs := jobs[jobId := jobs[jobId] + [right]];
      }
      forall j: nat | j < nJobs
        ensures |jobs[j]| == 2 && PairHashes(data, layer - 1)[j] == Node(jobs[j][0], jobs[j][1])
      {
        BothAreHashed(data, layer, jobs[j], j);
      }
    }

    /** The parent of the index of a left child is the node before the right one, but for the first. */
    method CollectPairs(layer: nat, jobs: seq<seq<Digest>>, ghost pairs: seq<Digest>)
      requires Valid() && 0 < layer <= TreeHeight() && |jobs| == |pairs| == Pow2(layer - 1)
      requires forall j: nat :: j < |jobs| ==> |jobs[j]| == 2 && pairs[j] == Node(jobs[j][0], jobs[j][1])
      modifies this
      ensures |data| == |old(data)|
      ensures LayerWritten(old(data), data, layer - 1, pairs, |pairs|)
    {
      hide Log2Floor, AfterPairs;
      ghost var before := data;
      Pow2Monotone(layer, TreeHeight());
      NothingWritten(before, layer - 1, pairs);
      var nJobs := NodesInLayer(layer) / 2;
      for jobId := 0 to nJobs
        invariant Valid() && TreeHeight() == old(TreeHeight()) && |data| == |before|
        invariant LayerWritten(before, data, layer - 1, pairs, jobId)
      {
        ghost var mid := data;
        SetNode(layer - 1, Parent(2 * jobId), Node(jobs[jobId][0], jobs[jobId][1]));
        PairWritten(before, mid, data, layer - 1, pairs, jobId);
      }
    }

    method Root() returns (r: Digest)
      requires Valid()
      ensures Hashed() ==> r == SubRoot(Leaves(), TreeHeight(), 0)
      ensures MultiHashed() ==> r == MultiNode(Leaves(), TreeHeight(), TreeHeight(), 0)
    {
      r := data[0];
      assert Hashed() ==> IsSubRoot(data, Leaves(), TreeHeight(), 0, 0);
      assert MultiHashed() ==> IsMultiNode(data, Leaves(), TreeHeight(), 0, 0);
    }

    /** The nodes of one depth, left to right. */
    method GetLayer(depth: nat) returns (r: seq<Digest>)
      requires Valid() && depth <= TreeHeight()
      ensures |r| == Pow2(depth)
      ensures Hashed() ==> forall i: nat :: i < |r| ==> r[i] == SubRoot(Leaves(), TreeHeight() - depth, i)
      ensures MultiHashed() ==>
                forall i: nat :: i < |r| ==> r[i] == MultiNode(Leaves(), TreeHeight(), TreeHeight() - depth, i)
    {
      Pow2Monotone(depth, TreeHeight());
      var begin := GetFlatIndex(depth, 0);
      r := data[begin..begin + NodesInLayer(depth)];
      if Hashed() {
        forall i: nat | i < |r|
          ensures r[i] == SubRoot(Leaves(), TreeHeight() - depth, i)
        {
          assert IsSubRoot(data, Leaves(), TreeHeight(), depth, i);
        }
      }
      if MultiHashed() {
        forall i: nat | i < |r|
          ensures r[i] == MultiNode(Leaves(), TreeHeight(), TreeHeight() - depth, i)
        {
          assert IsMultiNode(data, Leaves(), TreeHeight(), depth, i);
        }
      }
    }
  }

  // ---- One layer of the multi-buffer update --------------------------------------------------------------------

  /** The hashes of the pairs of the layer below `above`. */
  ghost function PairHashes(data: seq<Digest>, above: nat): seq<Digest>
    requires 2 * Pow2(above + 1) - 1 <= |data|
  {
    seq(Pow2(above), j requires 0 <= j < Pow2(above) =>
      Node(data[GetFlatIndex(above + 1, 2 * j)], data[GetFlatIndex(above + 1, 2 * j + 1)]))
  }

  /** Job j has been given the left child of its pair. */
  ghost predicate HasLeft(data: seq<Digest>, layer: nat, job: seq<Digest>, j: nat) {
    GetFlatIndex(layer, 2 * j) < |data| && job == [data[GetFlatIndex(layer, 2 * j)]]
  }

  /** Job j has been given both. */
  ghost predicate HasBoth(data: seq<Digest>, layer: nat, job: seq<Digest>, j: nat) {
    && GetFlatIndex(layer, 2 * j + 1) < |data|
    && job == [data[GetFlatIndex(layer, 2 * j)], data[GetFlatIndex(layer, 2 * j + 1)]]
  }

  lemma LeftSubmitted(data: seq<Digest>, layer: nat, left: Digest, j: nat)
    requires GetFlatIndex(layer, 2 * j) < |data| && left == data[GetFlatIndex(layer, 2 * j)]
    ensures HasLeft(data, layer, [left], j)
  {
  }

  lemma RightSubmitted(data: seq<Digest>, layer: nat, job: seq<Digest>, right: Digest, j: nat)
    requires HasLeft(data, layer, job, j)
    requires GetFlatIndex(layer, 2 * j + 1) < |data| && right == data[GetFlatIndex(layer, 2 * j + 1)]
    ensures HasBoth(data, layer, job + [right], j)
  {
  }

  lemma BothAreHashed(data: seq<Digest>, layer: nat, job: seq<Digest>, j: nat)
    requires layer > 0 && j < Pow2(layer - 1) && 2 * Pow2(layer) - 1 <= |data| && HasBoth(data, layer, job, j)
    ensures |job| == 2 && PairHashes(data, layer - 1)[j] == Node(job[0], job[1])
  {
  }

  /** Layer `above` after the hashes of `count` pairs were collected; the others are as before. */
  ghost predicate LayerWritten(before: seq<Digest>, after: seq<Digest>, above: nat, pairs: seq<Digest>, count: nat)
    requires count <= |pairs|
  {
    && |before| == |after|
    && (forall f: nat :: f < |after| && !(Pow2(above) - 1 <= f < 2 * Pow2(above) - 1) ==> after[f] == before[f])
    && forall i: nat :: i < Pow2(above) ==> NodeWritten(before, after, above, pairs, count, i)
  }

  ghost predicate NodeWritten(before: seq<Digest>, after: seq<Digest>, above: nat, pairs: seq<Digest>, count: nat,
                              i: nat)
    requires count <= |pairs|
  {
    && GetFlatIndex(above, i) < |before| == |after|
    && after[GetFlatIndex(above, i)] == AfterPairs(before[GetFlatIndex(above, i)], pairs, count, i)
  }

  ghost predicate LayerFromPairs(before: seq<Digest>, after: seq<Digest>, above: nat) {
    2 * Pow2(above + 1) - 1 <= |before|
    && LayerWritten(before, after, above, PairHashes(before, above), Pow2(above))
  }

  lemma NothingWritten(data: seq<Digest>, above: nat, pairs: seq<Digest>)
    requires 2 * Pow2(above) - 1 <= |data|
    ensures LayerWritten(data, data, above, pairs, 0)
  {
  }

  lemma PairWritten(before: seq<Digest>, mid: seq<Digest>, after: seq<Digest>, above: nat, pairs: seq<Digest>, j: nat)
    requires j < |pairs| == Pow2(above) && 2 * Pow2(above) - 1 <= |before|
    requires LayerWritten(before, mid, above, pairs, j)
    requires Parent(2 * j) < Pow2(above) && GetFlatIndex(above, Parent(2 * j)) < |mid|
    requires after == mid[GetFlatIndex(above, Parent(2 * j)) := pairs[j]]
    ensures LayerWritten(before, after, above, pairs, j + 1)
  {
    hide AfterPairs;
    assert Parent(2 * j) == if j == 0 then 0 else j - 1;
    var next := j + 1;
    forall i: nat | i < Pow2(above)
      ensures NodeWritten(before, after, above, pairs, next, i)
    {
      assert NodeWritten(before, mid, above, pairs, j, i);
      NextPair(before[GetFlatIndex(above, i)], pairs, j, i);
    }
  }

  lemma NextPair(before: Digest, pairs: seq<Digest>, j: nat, i: nat)
    requires j < |pairs|
    ensures AfterPairs(before, pairs, j + 1, i)
         == if i == (if j == 0 then 0 else j - 1) then pairs[j] else AfterPairs(before, pairs, j, i)
  {
  }

  /** With all pairs of layer `above + 1` collected, layer `above` joins the hashed ones. */
  lemma MultiLayerDone(before: seq<Digest>, after: seq<Digest>, leaves: seq<Digest>, above: nat, height: nat)
    requires |before| == |after| == TotalNodeCountForHeight(height) && above < height
    requires LayerFromPairs(before, after, above)
    requires MultiHashedFrom(before, leaves, height, above + 1)
    requires forall l: nat :: 0 < l < height ==> LastNodeUnset(before, l)
    ensures after[Pow2(height) - 1..] == before[Pow2(height) - 1..]
    ensures MultiHashedFrom(after, leaves, height, above)
    ensures forall l: nat :: 0 < l < height ==> LastNodeUnset(after, l)
  {
    hide MultiNode, LayerFromPairs, IsMultiNode, LastNodeUnset, Pow2;
    KeptBelow(before, after, above, height);
    forall l: nat, i: nat | above <= l <= height && i < NodesInLayer(l)
      ensures IsMultiNode(after, leaves, height, l, i)
    {
      if l > above {
        assert IsMultiNode(before, leaves, height, l, i);
        NodeKept(before, after, leaves, above, height, l, i);
      } else {
        MultiNodeDone(before, after, leaves, above, height, i);
      }
    }
    forall l: nat | 0 < l < height
      ensures LastNodeUnset(after, l)
    {
      LastNodeKept(before, after, above, height, l);
    }
  }

  lemma KeptBelow(before: seq<Digest>, after: seq<Digest>, above: nat, height: nat)
    requires |before| == |after| == TotalNodeCountForHeight(height) && above < height
    requires LayerFromPairs(before, after, above)
    ensures after[Pow2(height) - 1..] == before[Pow2(height) - 1..]
  {
    hide AfterPairs;
    Pow2Monotone(above + 1, height);
  }

  lemma NodeKept(before: seq<Digest>, after: seq<Digest>, leaves: seq<Digest>, above: nat, height: nat, l: nat, i: nat)
    requires above < l && LayerFromPairs(before, after, above) && IsMultiNode(before, leaves, height, l, i)
    ensures IsMultiNode(after, leaves, height, l, i)
  {
    hide MultiNode, AfterPairs;
    Pow2Monotone(above + 1, l);
  }

  lemma MultiNodeDone(before: seq<Digest>, after: seq<Digest>, leaves: seq<Digest>, above: nat, height: nat, i: nat)
    requires |before| == |after| == TotalNodeCountForHeight(height) && above < height && i < Pow2(above)
    requires LayerFromPairs(before, after, above)
    requires MultiHashedFrom(before, leaves, height, above + 1)
    requires 0 < above ==> LastNodeUnset(before, above)
    ensures IsMultiNode(after, leaves, height, above, i)
  {
    var n, h := Pow2(above), height - above;
    assert NodeWritten(before, after, above, PairHashes(before, above), n, i);
    if above == 0 {
      PairOfLayer(before, leaves, above, height, 0);
    } else if i + 1 < n {
      PairOfLayer(before, leaves, above, height, i + 1);
    }
  }

  /** The hash of pair j of a hashed layer. */
  lemma PairOfLayer(data: seq<Digest>, leaves: seq<Digest>, above: nat, height: nat, j: nat)
    requires |data| == TotalNodeCountForHeight(height) && above < height && j < Pow2(above)
    requires 2 * Pow2(above + 1) - 1 <= |data| && MultiHashedFrom(data, leaves, height, above + 1)
    ensures PairHashes(data, above)[j]
         == Node(MultiNode(leaves, height, height - above - 1, 2 * j),
                 MultiNode(leaves, height, height - above - 1, 2 * j + 1))
  {
    hide MultiNode;
    assert 2 * j + 1 < NodesInLayer(above + 1);
    assert IsMultiNode(data, leaves, height, above + 1, 2 * j);
    assert IsMultiNode(data, leaves, height, above + 1, 2 * j + 1);
  }

  /** Leaves are behind the inner nodes. */
  lemma LeafKeepsReady(before: seq<Digest>, after: seq<Digest>, height: nat, index: nat)
    requires |before| == |after| && LastNodesUnset(before, height)
    requires forall f: nat :: f < |after| && f < Pow2(height) - 1 ==> after[f] == before[f]
    ensures LastNodesUnset(after, height)
  {
    forall l: nat | 0 < l < height
      ensures LastNodeUnset(after, l)
    {
      assert LastNodeUnset(before, l);
      Pow2Monotone(l + 1, height);
    }
  }

  lemma LastNodeKept(before: seq<Digest>, after: seq<Digest>, above: nat, height: nat, l: nat)
    requires |before| == |after| && above < height && 0 < l < height
    requires LayerFromPairs(before, after, above) && LastNodeUnset(before, l)
    ensures LastNodeUnset(after, l)
  {
    var n := Pow2(above);
    assert |PairHashes(before, above)| == n;
    if l == above {
      assert NodeWritten(before, after, above, PairHashes(before, above), n, n - 1);
    } else if l < above {
      Pow2Monotone(l + 1, above);
    } else {
      Pow2Monotone(above + 1, l);
    }
  }
}
