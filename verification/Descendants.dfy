/** The tree of descendants of a block (src/blockindex_with_descendants.h). */
module Descendants {
  import opened BlockIndex
  import F = Forest

  /** Parent (-1 for none) and children are positions in the array of items. */
  datatype Item = Item(block: BlockIndex, parent: int, children: seq<nat>)

  // ---------------------------------------------------------------------------
  // The reference: descendants by parent pointers
  // ---------------------------------------------------------------------------

  /** Above the root, parents are missing or known; from the root up, heights are one more than the parent's. */
  ghost predicate Parents(S: set<BlockIndex>, root: BlockIndex)
    reads S`prev, S`height
  {
    && root in S
    && (forall b :: b in S && b.height > root.height && b.prev != null ==> b.prev in S)
    && (forall b :: b in S && b.height >= root.height && b.prev != null && b.prev in S ==>
          b.height == b.prev.height + 1)
  }

  ghost predicate Descends(S: set<BlockIndex>, root: BlockIndex, b: BlockIndex)
    requires Parents(S, root) && b in S
    reads S`prev, S`height
    decreases b.height - root.height
  {
    b == root || (b.height > root.height && b.prev != null && Descends(S, root, b.prev))
  }

  // ---------------------------------------------------------------------------
  // Building the tree
  // ---------------------------------------------------------------------------

  ghost predicate Unique(bs: seq<BlockIndex>) {
    forall i, j :: 0 <= i < j < |bs| ==> bs[i] != bs[j]
  }

  /** The root, then all blocks above it up to the maximal height. */
  ghost predicate Collected(bs: seq<BlockIndex>, S: set<BlockIndex>, root: BlockIndex, maxHeight: int)
    requires root in S
    reads S`height
  {
    && |bs| > 0 && bs[0] == root && Unique(bs)
    && (forall b :: b in bs ==> b in S && (b == root || root.height < b.height <= maxHeight))
    && (forall b :: b in S && (b == root || root.height < b.height <= maxHeight) ==> b in bs)
  }

  method Collect(root: BlockIndex, all: seq<BlockIndex>, maxHeight: int, ghost S: set<BlockIndex>)
    returns (bs: seq<BlockIndex>)
    requires Unique(all) && root in S && forall b :: b in all <==> b in S
    ensures Collected(bs, S, root, maxHeight)
  {
    bs := [root];
    for i := 0 to |all|
      invariant |bs| > 0 && bs[0] == root && Unique(bs)
      invariant forall b :: b in bs <==> b == root || (b in all[..i] && root.height < b.height <= maxHeight)
    {
      assert all[..i + 1] == all[..i] + [all[i]];
      assert all[i] !in all[..i];
      if all[i].height > root.height && all[i].height <= maxHeight {
        bs := bs + [all[i]];
      }
    }
    assert all[..|all|] == all;
  }

  /** The temporary map from blocks to positions. */
  method IndexOf(bs: seq<BlockIndex>) returns (m: map<BlockIndex, nat>)
    requires Unique(bs)
    ensures forall b :: b in m <==> b in bs
    ensures forall b :: b in m ==> m[b] < |bs| && bs[m[b]] == b
  {
    m := map[];
    for i := 0 to |bs|
      invariant forall b :: b in m <==> b in bs[..i]
      invariant forall b :: b in m ==> m[b] < i && bs[m[b]] == b
    {
      assert bs[..i + 1] == bs[..i] + [bs[i]];
      if bs[i] !in m {
        m := m[bs[i] := i];
      }
    }
    assert bs[..|bs|] == bs;
  }

  ghost function Find(bs: seq<BlockIndex>, b: BlockIndex?): (j: int)
    ensures b == null || b !in bs ==> j == -1
    ensures b != null && b in bs ==> 0 <= j < |bs| && bs[j] == b
  {
    if b != null && b in bs then (var j :| 0 <= j < |bs| && bs[j] == b; j) else -1
  }

  ghost function ParentsOf(bs: seq<BlockIndex>): (par: seq<int>)
    reads bs
    ensures |par| == |bs| && forall i :: 0 <= i < |bs| ==> par[i] == Find(bs, bs[i].prev)
  {
    seq(|bs|, i requires 0 <= i < |bs| reads bs => Find(bs, bs[i].prev))
  }

  /** Every block is linked to its parent, and into its parent's children, in array order. */
  ghost predicate Built(items: seq<Item>, bs: seq<BlockIndex>, par: seq<int>, n: nat)
    requires n <= |bs| == |par|
  {
    && |items| == |bs|
    && forall j :: 0 <= j < |items| ==>
         && items[j].block == bs[j]
         && items[j].parent == (if j < n then par[j] else -1)
         && items[j].children == F.KidsOf(par, j, n)
  }

  lemma BuiltLink(items: seq<Item>, bs: seq<BlockIndex>, par: seq<int>, i: nat, p: nat)
    requires i < |bs| == |par| && Built(items, bs, par, i) && par[i] == p < |bs| && p != i
    ensures Built(items[i := items[i].(parent := p)][p := items[p].(children := items[p].children + [i])],
                  bs, par, i + 1)
  {
  }

  lemma BuiltRoot(items: seq<Item>, bs: seq<BlockIndex>, par: seq<int>, i: nat)
    requires i < |bs| == |par| && Built(items, bs, par, i) && par[i] == -1
    ensures Built(items, bs, par, i + 1)
  {
  }

  method Connect(bs: seq<BlockIndex>, m: map<BlockIndex, nat>) returns (items: seq<Item>)
    requires Unique(bs) && forall b :: b in m <==> b in bs
    requires forall b :: b in m ==> m[b] < |bs| && bs[m[b]] == b
    requires forall b :: b in bs ==> b.prev != b
    ensures Built(items, bs, ParentsOf(bs), |bs|)
  {
    ghost var par := ParentsOf(bs);
    items := seq(|bs|, i requires 0 <= i < |bs| => Item(bs[i], -1, []));
    for i := 0 to |bs|
      invariant |items| == |bs| && Built(items, bs, par, i)
    {
      assert items[i].block == bs[i] && items[i].parent == -1;
      hide Built;
      var prev := bs[i].prev;
      if prev != null && prev in m {
        var p := m[prev];
        assert Find(bs, prev) == p;
        BuiltLink(items, bs, par, i, p);
        assert items[i].parent == -1 && p != i;
        items := items[i := items[i].(parent := p)];
        items := items[p := items[p].(children := items[p].children + [i])];
      } else {
        BuiltRoot(items, bs, par, i);
      }
    }
  }

  // ---------------------------------------------------------------------------
  // The tree
  // ---------------------------------------------------------------------------

  class BlockIndexWithDescendants {
    var blocks: seq<Item>

    constructor (root: BlockIndex, all: seq<BlockIndex>, maxHeight: int, ghost S: set<BlockIndex>)
      requires Unique(all) && Parents(S, root) && forall b :: b in all <==> b in S
      ensures exists bs :: Collected(bs, S, root, maxHeight) && Built(blocks, bs, ParentsOf(bs), |bs|)
    {
      var bs := Collect(root, all, maxHeight, S);
      var m := IndexOf(bs);
      var items := Connect(bs, m);
      blocks := items;
    }

    /** The forest that the parent and children fields describe. */
    ghost predicate Matches(f: F.Forest)
      reads this
    {
      && |f.par| == |f.kids| == |blocks|
      && forall i :: 0 <= i < |blocks| ==> blocks[i].parent == f.par[i] && blocks[i].children == f.kids[i]
    }

    /** The next item in depth-first order, or -1. */
    method Next(x: nat, ghost f: F.Forest) returns (y: int)
      requires F.Wf(f) && Matches(f) && F.Node(f, x)
      ensures y == F.Next(f, x)
    {
      if |blocks[x].children| > 0 {
        return blocks[x].children[0];
      }
      var item := x;
      var p := blocks[item].parent;
      while p != -1
        invariant F.Node(f, item) && p == f.par[item]
        invariant F.Climb(f, item) == F.Climb(f, x)
        decreases f.level[item]
      {
        F.Kids(f, p);
        var ks := blocks[p].children;
        var j := F.Position(ks, item);
        if j + 1 < |ks| {
          return ks[j + 1];
        }
        item := p;
        p := blocks[item].parent;
      }
      return -1;
    }

    /** Starting at the root and repeating Next until -1. */
    method Traverse(ghost f: F.Forest) returns (order: seq<nat>)
      requires F.Wf(f) && Matches(f) && F.Node(f, 0) && f.par[0] == -1
      ensures order == F.Pre(f, 0)
    {
      F.SubtreeWalk(f, 0);
      ghost var all := F.Pre(f, 0);
      assert F.Climb(f, 0) == -1;
      order := [];
      var x: int := 0;
      while x != -1
        invariant |order| <= |all| && order == all[..|order|]
        invariant x == if |order| < |all| then all[|order|] else -1
        decreases |all| - |order|
      {
        hide F.Wf, F.Next, F.Climb;
        assert F.Node(f, all[|order|]);
        order := order + [x];
        x := Next(x, f);
      }
    }
  }

  // ---------------------------------------------------------------------------
  // What the traversal finds
  // ---------------------------------------------------------------------------

  ghost function Levels(bs: seq<BlockIndex>, root: BlockIndex): (ls: seq<nat>)
    requires forall b :: b in bs ==> b.height >= root.height
    reads bs, root
    ensures |ls| == |bs| && forall i :: 0 <= i < |bs| ==> ls[i] == bs[i].height - root.height
  {
    seq(|bs|, i requires 0 <= i < |bs| && bs[i] in bs && bs[i].height >= root.height reads bs, root =>
        bs[i].height - root.height)
  }

  ghost function AllKids(par: seq<int>): (kids: seq<seq<nat>>)
    ensures |kids| == |par| && forall p :: 0 <= p < |par| ==> kids[p] == F.KidsOf(par, p, |par|)
  {
    seq(|par|, p => F.KidsOf(par, p, |par|))
  }

  ghost function Shape(bs: seq<BlockIndex>, root: BlockIndex, maxHeight: int): F.Forest
    requires forall b :: b in bs ==> b.height >= root.height
    reads bs, root
  {
    F.Forest(ParentsOf(bs), AllKids(ParentsOf(bs)), Levels(bs, root),
             if maxHeight > root.height then maxHeight - root.height else 0)
  }

  lemma ShapeWf(S: set<BlockIndex>, root: BlockIndex, maxHeight: int, bs: seq<BlockIndex>)
    requires Parents(S, root) && Collected(bs, S, root, maxHeight)
    ensures forall b :: b in bs ==> b.height >= root.height
    ensures var f := Shape(bs, root, maxHeight); F.Wf(f) && |f.par| == |bs| && F.Node(f, 0) && f.par[0] == -1
  {
    var par := ParentsOf(bs);
    forall i | 0 <= i < |bs| && par[i] != -1
      ensures bs[i].prev != null && par[i] < |bs| && bs[par[i]].height < bs[i].height && i != 0
    {
      assert bs[i] in bs;
      assert bs[par[i]] in bs;
    }
  }

  /** Standing under the root in the forest is descending from the root block. */
  lemma {:induction false} UnderIsDescends(S: set<BlockIndex>, root: BlockIndex, maxHeight: int, bs: seq<BlockIndex>,
                                           i: nat)
    requires Parents(S, root) && Collected(bs, S, root, maxHeight) && i < |bs|
    requires forall b :: b in bs ==> b.height >= root.height
    requires F.Wf(Shape(bs, root, maxHeight))
    ensures bs[i] in S && (F.Under(Shape(bs, root, maxHeight), i, 0) <==> Descends(S, root, bs[i]))
    decreases bs[i].height - root.height
  {
    hide F.Wf;
    var b := bs[i];
    assert b in bs;
    if b != root && b.prev != null {
      if b.prev in bs {
        UnderIsDescends(S, root, maxHeight, bs, ParentsOf(bs)[i]);
      } else {
        assert b.prev != root && b.prev.height <= root.height;
      }
    }
  }

  /** Every block but the root comes after its parent. */
  ghost predicate ParentsFirst(found: seq<BlockIndex>, root: BlockIndex)
    reads found
  {
    forall i :: 0 <= i < |found| && found[i] != root ==> exists j :: 0 <= j < i && found[j] == found[i].prev
  }

  lemma Found(S: set<BlockIndex>, root: BlockIndex, maxHeight: int, bs: seq<BlockIndex>, order: seq<nat>,
              found: seq<BlockIndex>)
    requires Parents(S, root) && Collected(bs, S, root, maxHeight)
    requires forall b :: b in bs ==> b.height >= root.height
    requires F.Wf(Shape(bs, root, maxHeight)) && order == F.Pre(Shape(bs, root, maxHeight), 0)
    requires |found| == |order| && forall i :: 0 <= i < |order| ==> order[i] < |bs| && found[i] == bs[order[i]]
    ensures Unique(found)
    ensures forall b :: b in found ==> b in S && Descends(S, root, b) && (b == root || b.height <= maxHeight)
    ensures forall b :: b in S && Descends(S, root, b) && (b == root || b.height <= maxHeight) ==> b in found
  {
    hide F.Wf, F.Pre, F.Under;
    var f := Shape(bs, root, maxHeight);
    F.PreExact(f, 0);
    forall i | 0 <= i < |found|
      ensures found[i] in S && Descends(S, root, found[i]) && (found[i] == root || found[i].height <= maxHeight)
    {
      assert order[i] in order;
      assert bs[order[i]] in bs;
      UnderIsDescends(S, root, maxHeight, bs, order[i]);
    }
    forall b | b in S && Descends(S, root, b) && (b == root || b.height <= maxHeight) ensures b in found {
      assert b in bs;
      var k :| 0 <= k < |bs| && bs[k] == b;
      UnderIsDescends(S, root, maxHeight, bs, k);
      assert F.Node(f, k) && k in order;
      var i :| 0 <= i < |order| && order[i] == k;
      assert found[i] == b;
    }
  }

  lemma FoundOrder(S: set<BlockIndex>, root: BlockIndex, maxHeight: int, bs: seq<BlockIndex>, order: seq<nat>,
                   found: seq<BlockIndex>)
    requires Parents(S, root) && Collected(bs, S, root, maxHeight)
    requires forall b :: b in bs ==> b.height >= root.height
    requires F.Wf(Shape(bs, root, maxHeight)) && order == F.Pre(Shape(bs, root, maxHeight), 0)
    requires |found| == |order| && forall i :: 0 <= i < |order| ==> order[i] < |bs| && found[i] == bs[order[i]]
    ensures ParentsFirst(found, root)
  {
    hide F.Wf, F.Pre, F.Under;
    var f := Shape(bs, root, maxHeight);
    F.PreOrder(f, 0);
    F.PreExact(f, 0);
    forall i | 0 <= i < |found| && found[i] != root ensures exists j :: 0 <= j < i && found[j] == found[i].prev {
      var k := order[i];
      assert k in order && k != 0;
      assert F.Node(f, k) && F.Earlier(order, i, f.par[k]);
      var j :| 0 <= j < i && order[j] == f.par[k];
      assert found[j] == bs[order[j]];
    }
  }

  /**
   * Building the tree and walking it visits the root and its descendants up to the maximal
   * height, each exactly once and none from another chain, parents before children.
   */
  method AllDescendants(root: BlockIndex, all: seq<BlockIndex>, maxHeight: int, ghost S: set<BlockIndex>)
    returns (found: seq<BlockIndex>)
    requires Unique(all) && Parents(S, root) && forall b :: b in all <==> b in S
    ensures Unique(found) && ParentsFirst(found, root)
    ensures forall b :: b in found <==> b in S && Descends(S, root, b) && (b == root || b.height <= maxHeight)
  {
    var tree := new BlockIndexWithDescendants(root, all, maxHeight, S);
    ghost var bs :| Collected(bs, S, root, maxHeight) && Built(tree.blocks, bs, ParentsOf(bs), |bs|);
    ShapeWf(S, root, maxHeight, bs);
    found := WalkAll(tree, root, maxHeight, S, bs);
  }

  method WalkAll(tree: BlockIndexWithDescendants, root: BlockIndex, maxHeight: int, ghost S: set<BlockIndex>,
                 ghost bs: seq<BlockIndex>)
    returns (found: seq<BlockIndex>)
    requires Parents(S, root) && Collected(bs, S, root, maxHeight) && Built(tree.blocks, bs, ParentsOf(bs), |bs|)
    requires forall b :: b in bs ==> b.height >= root.height
    requires F.Wf(Shape(bs, root, maxHeight)) && F.Node(Shape(bs, root, maxHeight), 0)
    requires |Shape(bs, root, maxHeight).par| == |bs| && Shape(bs, root, maxHeight).par[0] == -1
    ensures Unique(found) && ParentsFirst(found, root)
    ensures forall b :: b in found <==> b in S && Descends(S, root, b) && (b == root || b.height <= maxHeight)
  {
    hide *;
    ShapeMatches(tree, root, maxHeight, bs);
    var order := tree.Traverse(Shape(bs, root, maxHeight));
    PreNodes(Shape(bs, root, maxHeight));
    BuiltBlocks(tree.blocks, bs, ParentsOf(bs));
    found := seq(|order|, i requires 0 <= i < |order| && order[i] < |tree.blocks| reads tree =>
        tree.blocks[order[i]].block);
    Found(S, root, maxHeight, bs, order, found);
    FoundOrder(S, root, maxHeight, bs, order, found);
  }

  lemma BuiltBlocks(items: seq<Item>, bs: seq<BlockIndex>, par: seq<int>)
    requires |par| == |bs| && Built(items, bs, par, |bs|)
    ensures |items| == |bs| && forall j :: 0 <= j < |bs| ==> items[j].block == bs[j]
  {
  }

  lemma PreNodes(f: F.Forest)
    requires F.Wf(f) && F.Node(f, 0)
    ensures forall i :: 0 <= i < |F.Pre(f, 0)| ==> F.Pre(f, 0)[i] < |f.par|
  {
    hide F.Wf;
    F.PreExact(f, 0);
    var s := F.Pre(f, 0);
    forall i | 0 <= i < |s| ensures s[i] < |f.par| {
      assert s[i] in s;
    }
  }

  lemma ShapeMatches(tree: BlockIndexWithDescendants, root: BlockIndex, maxHeight: int, bs: seq<BlockIndex>)
    requires Built(tree.blocks, bs, ParentsOf(bs), |bs|)
    requires forall b :: b in bs ==> b.height >= root.height
    ensures tree.Matches(Shape(bs, root, maxHeight))
  {
  }
}
