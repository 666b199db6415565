/** The heights that skip pointers jump to (src/block_index.cpp). */
module SkipHeights {
  import opened Limbs

  /** Bitwise "and" of natural numbers. */
  function BitAnd(x: nat, y: nat): nat {
    if x == 0 || y == 0 then 0
    else (if x % 2 == 1 && y % 2 == 1 then 1 else 0) + 2 * BitAnd(x / 2, y / 2)
  }

  /** n & (n - 1) */
  function InvertLowestOne(n: nat): nat {
    if n == 0 then 0 else BitAnd(n, n - 1)
  }

  lemma {:induction false} AndSelf(n: nat)
    ensures BitAnd(n, n) == n
  {
    if n > 0 {
      AndSelf(n / 2);
    }
  }

  /** Exactly the lowest set bit is cleared: n is that bit times an odd number. */
  lemma {:induction false} LowestOneCleared(n: nat) returns (k: nat, odd: nat)
    requires n > 0
    ensures odd % 2 == 1 && n == odd * Pow2(k)
    ensures InvertLowestOne(n) == (odd - 1) * Pow2(k) && InvertLowestOne(n) == n - Pow2(k) && Pow2(k) >= 1
  {
    if n % 2 == 1 {
      k, odd := 0, n;
      AndSelf(n / 2);
      assert (n - 1) / 2 == n / 2;
      assert n > 1 ==> BitAnd(n, n - 1) == 2 * BitAnd(n / 2, n / 2);
    } else {
      k, odd := LowestOneCleared(n / 2);
      k := k + 1;
      assert (n - 1) / 2 == n / 2 - 1 && (n - 1) % 2 == 1;
      assert InvertLowestOne(n) == 2 * InvertLowestOne(n / 2);
      assert odd * (2 * Pow2(k - 1)) == 2 * (odd * Pow2(k - 1));
      assert (odd - 1) * (2 * Pow2(k - 1)) == 2 * ((odd - 1) * Pow2(k - 1));
    }
  }

  lemma LowestOneSmaller(n: nat)
    ensures InvertLowestOne(n) <= n && (n > 0 ==> InvertLowestOne(n) < n)
  {
    if n > 0 {
      var k, odd := LowestOneCleared(n);
    }
  }

  function GetSkipHeight(height: int): nat {
    if height < 2 then 0
    else if height % 2 == 1 then InvertLowestOne(InvertLowestOne(height - 1)) + 1
    else InvertLowestOne(height)
  }

  /** An even height loses its lowest set bit. */
  lemma SkipEven(height: nat) returns (k: nat, odd: nat)
    requires height >= 2 && height % 2 == 0
    ensures odd % 2 == 1 && height == odd * Pow2(k) && GetSkipHeight(height) == (odd - 1) * Pow2(k)
  {
    k, odd := LowestOneCleared(height);
  }

  /** An odd height loses its second and third lowest set bits, as far as it has them. */
  lemma SkipOdd(height: nat) returns (k: nat, a: nat, j: nat, b: nat)
    requires height >= 3 && height % 2 == 1
    ensures a % 2 == 1 && height - 1 == a * Pow2(k)
    ensures a == 1 ==> GetSkipHeight(height) == 1
    ensures a > 1 ==> b % 2 == 1 && (a - 1) * Pow2(k) == b * Pow2(j) && GetSkipHeight(height) == (b - 1) * Pow2(j) + 1
  {
    k, a := LowestOneCleared(height - 1);
    j, b := 0, 1;
    if a > 1 {
      assert (a - 1) * Pow2(k) >= 1 * 1;
      j, b := LowestOneCleared((a - 1) * Pow2(k));
    }
  }

  /** Up to height 1 the skip pointer leads to the first block. */
  lemma SkipLow(height: int)
    requires height < 2
    ensures GetSkipHeight(height) == 0
  {
  }

  /** Every skip goes down, so following skips and parents terminates. */
  lemma SkipGoesDown(height: int)
    requires height >= 1
    ensures GetSkipHeight(height) < height
  {
    if height >= 2 {
      if height % 2 == 1 {
        LowestOneSmaller(height - 1);
        LowestOneSmaller(InvertLowestOne(height - 1));
      } else {
        LowestOneSmaller(height);
      }
    }
  }
}

/**
 * Block index entries linked by parent and skip pointers (src/block_index.h, .cpp).  `S` is
 * the set of all entries.  The reference is walking parent pointers one by one.
 */
module BlockIndex {
  import opened SkipHeights

  class BlockIndex {
    var prev: BlockIndex?
    var skip: BlockIndex?
    var height: int

    /** A block without a parent: the genesis block. */
    constructor Genesis()
      ensures prev == null && skip == null && height == 0
    {
      prev, skip, height := null, null, 0;
    }

    /** A block on top of `parent`, with its skip pointer built. */
    constructor Child(parent: BlockIndex, ghost S: set<BlockIndex>)
      requires Linked(S) && Skips(S) && parent in S
      ensures prev == parent && height == parent.height + 1
      ensures Linked(S + {this}) && Skips(S + {this}) && skip != null
    {
      prev, skip := parent, null;
      height := parent.height + 1;
      new;
      assert Linked(S + {this});
      BuildSkip(S + {this}, S);
    }

    /** A temporary block on top of `parent`: no skip pointer. */
    constructor Temporary(parent: BlockIndex, ghost S: set<BlockIndex>)
      requires Linked(S) && Skips(S) && parent in S
      ensures prev == parent && height == parent.height + 1 && skip == null
      ensures Linked(S + {this}) && Skips(S + {this})
    {
      prev, skip := parent, null;
      height := parent.height + 1;
      new;
      SkipsAdd(S, this);
    }

    /** BuildSkipNL: also used after loading, block by block in order of height. */
    method BuildSkip(ghost S: set<BlockIndex>, ghost known: set<BlockIndex>)
      requires Linked(S) && known <= S && this in S && this !in known && Linked(known) && Skips(known)
      requires skip == null && (prev != null ==> prev in known)
      modifies this`skip
      ensures Linked(S) && Linked(known + {this}) && Skips(known + {this})
      ensures skip == null <==> prev == null
    {
      hide Anc, Skips, GetSkipHeight;
      if prev != null {
        SkipGoesDown(height);
        skip := GetAncestor(prev, GetSkipHeight(height), known);
      }
      SkipsAdd(known, this);
    }
  }

  // ---------------------------------------------------------------------------
  // The reference: walking parents
  // ---------------------------------------------------------------------------

  /** Parents are in the set and one lower; only blocks of height 0 have none. */
  ghost predicate Linked(S: set<BlockIndex>)
    reads S`prev, S`height
  {
    forall b :: b in S ==>
      && b.height >= 0
      && (b.prev == null ==> b.height == 0)
      && (b.prev != null ==> b.prev in S && b.height == b.prev.height + 1)
  }

  /** The block at height `h` on the way down from `b`, found by walking parents. */
  ghost function Anc(S: set<BlockIndex>, b: BlockIndex, h: int): (a: BlockIndex)
    requires Linked(S) && b in S && 0 <= h <= b.height
    reads S`prev, S`height
    ensures a in S && a.height == h
    decreases b.height
  {
    if b.height == h then b else Anc(S, b.prev, h)
  }

  /** Every skip pointer is null or the ancestor at the skip height. */
  ghost predicate Skips(S: set<BlockIndex>)
    requires Linked(S)
    reads S
  {
    forall b :: b in S && b.skip != null ==>
      b.height >= 1 && GetSkipHeight(b.height) <= b.height && b.skip == Anc(S, b, GetSkipHeight(b.height))
  }

  lemma {:induction false} AncAnc(S: set<BlockIndex>, b: BlockIndex, m: int, h: int)
    requires Linked(S) && b in S && 0 <= h <= m <= b.height
    ensures Anc(S, Anc(S, b, m), h) == Anc(S, b, h)
    decreases b.height
  {
    if b.height > m {
      AncAnc(S, b.prev, m, h);
    }
  }

  lemma {:induction false} AncExtend(S: set<BlockIndex>, T: set<BlockIndex>, b: BlockIndex, h: int)
    requires S <= T && Linked(S) && Linked(T) && b in S && 0 <= h <= b.height
    ensures Anc(T, b, h) == Anc(S, b, h)
    decreases b.height
  {
    if b.height > h {
      AncExtend(S, T, b.prev, h);
    }
  }

  lemma SkipsExtend(S: set<BlockIndex>, T: set<BlockIndex>)
    requires S <= T && Linked(S) && Linked(T) && Skips(S)
    requires forall b :: b in T && b !in S && b.skip != null ==>
               b.height >= 1 && GetSkipHeight(b.height) <= b.height && b.skip == Anc(T, b, GetSkipHeight(b.height))
    ensures Skips(T)
  {
    forall b | b in S && b.skip != null ensures b.skip == Anc(T, b, GetSkipHeight(b.height)) {
      AncExtend(S, T, b, GetSkipHeight(b.height));
    }
  }

  /** Adding one block whose skip pointer is null or was found from its parent. */
  lemma SkipsAdd(S: set<BlockIndex>, b: BlockIndex)
    requires Linked(S) && Linked(S + {b}) && Skips(S) && b !in S
    requires b.skip != null ==>
               && b.prev != null && b.prev in S && GetSkipHeight(b.height) < b.height
               && b.skip == Anc(S, b.prev, GetSkipHeight(b.height))
    ensures Skips(S + {b})
  {
    hide Skips;
    if b.skip != null {
      AncExtend(S, S + {b}, b.prev, GetSkipHeight(b.height));
      assert b.skip == Anc(S + {b}, b, GetSkipHeight(b.height));
    }
    SkipsExtend(S, S + {b});
  }

  // ---------------------------------------------------------------------------
  // The fast search
  // ---------------------------------------------------------------------------

  /**
   * GetAncestor finds the same block as walking parents, and null exactly for heights outside
   * 0..height; it never runs into a missing parent.
   */
  method GetAncestor(b: BlockIndex, h: int, ghost S: set<BlockIndex>) returns (a: BlockIndex?)
    requires Linked(S) && Skips(S) && b in S
    ensures a == null <==> h < 0 || h > b.height
    ensures a != null ==> a == Anc(S, b, h)
  {
    if h > b.height || h < 0 {
      return null;
    }
    var walk, at := b, b.height;
    while at > h
      invariant walk in S && at == walk.height && h <= at
      invariant Anc(S, walk, h) == Anc(S, b, h)
      decreases at
    {
      var skipAt := GetSkipHeight(at);
      var skipAtPrev := GetSkipHeight(at - 1);
      SkipGoesDown(at);
      if walk.skip != null
         && (skipAt == h || (skipAt > h && !(skipAtPrev < skipAt - 2 && skipAtPrev >= h))) {
        AncAnc(S, walk, skipAt, h);
        walk := walk.skip;
        at := skipAt;
      } else {
        assert walk.prev != null;
        walk := walk.prev;
        at := at - 1;
      }
    }
    return walk;
  }

  // ---------------------------------------------------------------------------
  // Common ancestors
  // ---------------------------------------------------------------------------

  /** Above height `at` the two blocks have no ancestor in common. */
  ghost predicate DifferAbove(S: set<BlockIndex>, x: BlockIndex, y: BlockIndex, at: int)
    requires Linked(S) && x in S && y in S && at >= -1
    reads S`prev, S`height
  {
    forall h :: at < h <= x.height && h <= y.height ==> Anc(S, x, h) != Anc(S, y, h)
  }

  /** `a` is a common ancestor of both blocks, and no higher block is. */
  ghost predicate HighestCommon(S: set<BlockIndex>, x: BlockIndex, y: BlockIndex, a: BlockIndex)
    requires Linked(S) && x in S && y in S
    reads S`prev, S`height
  {
    && a in S && 0 <= a.height <= x.height && a.height <= y.height
    && Anc(S, x, a.height) == a && Anc(S, y, a.height) == a
    && DifferAbove(S, x, y, a.height)
  }

  /** There is at most one highest common ancestor. */
  lemma HighestUnique(S: set<BlockIndex>, x: BlockIndex, y: BlockIndex, a: BlockIndex, b: BlockIndex)
    requires Linked(S) && x in S && y in S && HighestCommon(S, x, y, a) && HighestCommon(S, x, y, b)
    ensures a == b
  {
    hide Linked;
    assert a.height == b.height;
  }

  /** A common ancestor leads to a common first block. */
  lemma SameFirst(S: set<BlockIndex>, x: BlockIndex, y: BlockIndex, a: BlockIndex)
    requires Linked(S) && x in S && y in S && HighestCommon(S, x, y, a)
    ensures Anc(S, x, 0) == Anc(S, y, 0)
  {
    AncAnc(S, x, a.height, 0);
    AncAnc(S, y, a.height, 0);
  }

  /** The parent of the ancestor at `at` is the ancestor one lower. */
  lemma AncPrev(S: set<BlockIndex>, b: BlockIndex, at: int)
    requires Linked(S) && b in S && 0 <= at <= b.height
    ensures at > 0 ==> Anc(S, b, at).prev == Anc(S, b, at - 1)
    ensures at == 0 ==> Anc(S, b, at).prev == null
  {
    if at > 0 {
      AncAnc(S, b, at, at - 1);
    }
  }

  lemma DifferBelow(S: set<BlockIndex>, x: BlockIndex, y: BlockIndex, at: int)
    requires Linked(S) && x in S && y in S && 0 <= at <= x.height && at <= y.height
    requires DifferAbove(S, x, y, at) && Anc(S, x, at) != Anc(S, y, at)
    ensures DifferAbove(S, x, y, at - 1)
  {
    hide Anc, Linked;
  }

  lemma DifferAll(S: set<BlockIndex>, x: BlockIndex, y: BlockIndex)
    requires Linked(S) && x in S && y in S && DifferAbove(S, x, y, -1)
    ensures Anc(S, x, 0) != Anc(S, y, 0)
  {
  }

  /** LastCommonAncestor: null exactly if the two blocks descend from different first blocks. */
  method LastCommonAncestor(x: BlockIndex, y: BlockIndex, ghost S: set<BlockIndex>) returns (a: BlockIndex?)
    requires Linked(S) && Skips(S) && x in S && y in S
    ensures a == null <==> Anc(S, x, 0) != Anc(S, y, 0)
    ensures a != null ==> HighestCommon(S, x, y, a)
  {
    var pa: BlockIndex?, pb: BlockIndex? := x, y;
    if x.height > y.height {
      pa := GetAncestor(x, y.height, S);
    } else if y.height > x.height {
      pb := GetAncestor(y, x.height, S);
    }
    a := Meet(x, y, pa, pb, S);
  }

  /** The loop of LastCommonAncestor: both sides, at one height, walk down in step. */
  method Meet(x: BlockIndex, y: BlockIndex, pa0: BlockIndex, pb0: BlockIndex, ghost S: set<BlockIndex>)
    returns (a: BlockIndex?)
    requires Linked(S) && x in S && y in S
    requires pa0 in S && pb0 in S && 0 <= pa0.height == pb0.height <= x.height && pa0.height <= y.height
    requires pa0 == Anc(S, x, pa0.height) && pb0 == Anc(S, y, pb0.height)
    requires DifferAbove(S, x, y, pa0.height)
    ensures a == null <==> Anc(S, x, 0) != Anc(S, y, 0)
    ensures a != null ==> HighestCommon(S, x, y, a)
  {
    hide Linked, Anc, DifferAbove;
    var pa: BlockIndex?, pb: BlockIndex? := pa0, pb0;
    ghost var at := pa0.height;
    while pa != pb && pa != null && pb != null
      invariant -1 <= at <= x.height && at <= y.height
      invariant at == -1 ==> pa == null && pb == null
      invariant at >= 0 ==> pa == Anc(S, x, at) && pb == Anc(S, y, at)
      invariant DifferAbove(S, x, y, at)
      decreases at + 1
    {
      hide Linked, Anc, DifferAbove;
      AncPrev(S, x, at);
      AncPrev(S, y, at);
      DifferBelow(S, x, y, at);
      pa, pb := pa.prev, pb.prev;
      at := at - 1;
    }
    if pa != null {
      SameFirst(S, x, y, pa);
    } else {
      DifferAll(S, x, y);
    }
    return pa;
  }
}
