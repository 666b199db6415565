/** The active chain as an array indexed by height (src/chain.h, src/chain.cpp). */
module Chain {
  import opened Limbs
  import opened BlockIndex

  /** The heights a locator lists: ten single steps, then steps that double, down to 0. */
  function LocatorHeights(h: nat, have: nat, step: nat): (hs: seq<nat>)
    requires step >= 1
    ensures |hs| >= 1 && hs[0] == h
    decreases h
  {
    if h == 0 then [0]
    else [h] + LocatorHeights(if h >= step then h - step else 0, have + 1, NextStep(have + 1, step))
  }

  function NextStep(have: nat, step: nat): nat {
    if have > 10 then 2 * step else step
  }

  ghost predicate Descending(hs: seq<nat>) {
    forall i, j :: 0 <= i < j < |hs| ==> hs[i] > hs[j]
  }

  /** Strictly descending and ending at the first block. */
  lemma {:induction false} LocatorDescends(h: nat, have: nat, step: nat)
    requires step >= 1
    ensures Descending(LocatorHeights(h, have, step))
    ensures var hs := LocatorHeights(h, have, step); hs[|hs| - 1] == 0
    decreases h
  {
    if h > 0 {
      LocatorDescends(if h >= step then h - step else 0, have + 1, NextStep(have + 1, step));
    }
  }

  /** Once the steps double, k more entries cover step * (2^k - 1) blocks. */
  lemma {:induction false} DoublingCovers(h: nat, have: nat, step: nat, k: nat)
    requires step >= 1 && have >= 10 && h <= step * (Pow2(k) - 1)
    ensures |LocatorHeights(h, have, step)| <= k + 1
    decreases k
  {
    if k > 0 && h > 0 {
      assert step * (Pow2(k) - 1) == 2 * step * (Pow2(k - 1) - 1) + step;
      assert 2 * step * (Pow2(k - 1) - 1) >= 0;
      DoublingCovers(if h >= step then h - step else 0, have + 1, 2 * step, k - 1);
    }
  }

  lemma {:induction false} SingleSteps(h: nat, have: nat, k: nat)
    requires have <= 10 && h <= 10 - have + Pow2(k) - 1
    ensures |LocatorHeights(h, have, 1)| <= 10 - have + k + 1
    decreases 10 - have
  {
    if have == 10 {
      DoublingCovers(h, have, 1, k);
    } else if h > 0 {
      SingleSteps(h - 1, have + 1, k);
    }
  }

  /** A locator is logarithmically short: at most k + 11 entries up to height 2^k + 9. */
  lemma LocatorShort(h: nat, k: nat)
    requires h <= Pow2(k) + 9
    ensures |LocatorHeights(h, 0, 1)| <= k + 11
  {
    SingleSteps(h, 0, k);
  }

  /** How far below the first height entry i of a locator lies: i up to ten, then 9 + 2^(i - 10). */
  function Drop(i: nat): nat {
    if i <= 10 then i else 9 + Pow2(i - 10)
  }

  /** A height less a number of blocks, but not below the first block. */
  function Below(h: nat, n: nat): nat {
    if h > n then h - n else 0
  }

  lemma DropGrows(i: nat)
    ensures Drop(i + 1) == Drop(i) + (if i < 10 then 1 else Pow2(i - 10))
  {
    assert Pow2(0) == 1;
    if i >= 10 {
      assert Pow2(i + 1 - 10) == 2 * Pow2(i - 10);
    }
  }

  /** The rest of a locator, from entry `have` on. */
  lemma {:induction false} RestClosed(h: nat, have: nat, step: nat, i: nat)
    requires step >= 1 && (h > Drop(have) ==> step == if have < 10 then 1 else Pow2(have - 10))
    requires i < |LocatorHeights(Below(h, Drop(have)), have, step)|
    ensures var hs := LocatorHeights(Below(h, Drop(have)), have, step);
            && hs[i] == Below(h, Drop(have + i))
            && (i < |hs| - 1 <==> h > Drop(have + i))
    decreases i
  {
    if h > Drop(have) {
      DropGrows(have);
      var next := NextStep(have + 1, step);
      assert Below(h, Drop(have + 1)) == if h - Drop(have) >= step then h - Drop(have) - step else 0;
      if i > 0 {
        RestClosed(h, have + 1, next, i - 1);
      }
    }
  }

  /**
   * The heights of a locator in closed form: h - i up to the tenth, then h - 9 - 2^(i - 10),
   * as long as that is positive, and 0 as the last.
   */
  lemma LocatorClosed(h: nat, i: nat)
    requires i < |LocatorHeights(h, 0, 1)|
    ensures var hs := LocatorHeights(h, 0, 1);
            && (i < |hs| - 1 <==> h > Drop(i))
            && hs[i] == if i == |hs| - 1 then 0 else if i <= 10 then h - i else h - 9 - Pow2(i - 10)
  {
    assert Drop(0) == 0;
    RestClosed(h, 0, 1, i);
  }

  class Chain {
    var vChain: seq<BlockIndex?>
    var tip: BlockIndex?

    constructor ()
      ensures vChain == [] && tip == null
    {
      vChain, tip := [], null;
    }

    /** Entry i is the ancestor of the tip at height i, for every height up to the tip's. */
    ghost predicate Valid(S: set<BlockIndex>)
      requires Linked(S)
      reads this, S`prev, S`height
    {
      if tip == null then vChain == []
      else
        && tip in S && |vChain| == tip.height + 1
        && (forall i :: 0 <= i < |vChain| ==> vChain[i] == Anc(S, tip, i))
    }

    function At(h: int): BlockIndex?
      reads this
    {
      if h < 0 || h >= |vChain| then null else vChain[h]
    }

    predicate Contains(b: BlockIndex)
      reads this, b
    {
      At(b.height) == b
    }

    function Height(): int
      reads this, tip
    {
      if tip == null then -1 else tip.height
    }

    /** Containing a block and being the ancestor of the tip at its height are the same. */
    lemma ContainsExact(b: BlockIndex, S: set<BlockIndex>)
      requires Linked(S) && Valid(S) && b in S
      ensures Contains(b) <==> tip != null && b.height <= tip.height && Anc(S, tip, b.height) == b
    {
    }

    /** A contained block's ancestors are the entries below it. */
    lemma BelowContained(b: BlockIndex, h: int, S: set<BlockIndex>)
      requires Linked(S) && Valid(S) && b in S && Contains(b) && 0 <= h <= b.height
      ensures At(h) == Anc(S, b, h)
    {
      AncAnc(S, tip, b.height, h);
    }

    /** The chain becomes exactly the chain of `pindex`, though the walk stops early. */
    method SetTip(pindex: BlockIndex?, ghost S: set<BlockIndex>)
      requires Linked(S) && Valid(S) && (pindex != null ==> pindex in S)
      modifies this
      ensures Valid(S) && tip == pindex
    {
      var v: seq<BlockIndex?> := [];
      if pindex != null {
        v := Rebuild(pindex, vChain, tip, S);
      }
      tip := pindex;
      vChain := v;
    }

    /** FindFork: the highest block shared with the chain, or null if there is none. */
    method FindFork(pindex: BlockIndex?, ghost S: set<BlockIndex>) returns (fork: BlockIndex?)
      requires Linked(S) && Skips(S) && Valid(S) && (pindex != null ==> pindex in S)
      ensures fork == null <==> pindex == null || tip == null || Anc(S, pindex, 0) != Anc(S, tip, 0)
      ensures fork != null ==> pindex != null && tip != null && HighestCommon(S, pindex, tip, fork)
    {
      if pindex == null {
        return null;
      }
      var p: BlockIndex? := pindex;
      if p.height > Height() {
        p := GetAncestor(p, Height(), S);
      }
      if tip == null {
        return p;
      }
      fork := Fork(pindex, p, S);
    }

    /** The loop of FindFork, from a block no higher than the tip. */
    method Fork(pindex: BlockIndex, start: BlockIndex, ghost S: set<BlockIndex>) returns (fork: BlockIndex?)
      requires Linked(S) && Valid(S) && tip != null && pindex in S && start in S
      requires 0 <= start.height <= pindex.height && start.height <= tip.height
      requires start == Anc(S, pindex, start.height) && DifferAbove(S, pindex, tip, start.height)
      ensures fork == null <==> Anc(S, pindex, 0) != Anc(S, tip, 0)
      ensures fork != null ==> HighestCommon(S, pindex, tip, fork)
    {
      hide Linked, Anc, DifferAbove;
      var p: BlockIndex? := start;
      ghost var at := start.height;
      while p != null && !Contains(p)
        invariant -1 <= at <= pindex.height && at <= tip.height
        invariant p == null <==> at == -1
        invariant p != null ==> p in S && p.height == at && p == Anc(S, pindex, at)
        invariant DifferAbove(S, pindex, tip, at)
        decreases at + 1
      {
        hide Linked, Anc, DifferAbove;
        ContainsExact(p, S);
        AncPrev(S, pindex, at);
        DifferBelow(S, pindex, tip, at);
        p := p.prev;
        at := at - 1;
      }
      if p != null {
        ContainsExact(p, S);
        SameFirst(S, pindex, tip, p);
      } else {
        DifferAll(S, pindex, tip);
      }
      return p;
    }

    /** The chain's own entry if the block is on it, else the skip list: the same ancestor. */
    method Lookup(b: BlockIndex, h: int, ghost S: set<BlockIndex>) returns (a: BlockIndex?)
      requires Linked(S) && Skips(S) && Valid(S) && b in S && 0 <= h <= b.height
      ensures a == Anc(S, b, h)
    {
      if Contains(b) {
        BelowContained(b, h, S);
        a := At(h);
      } else {
        a := GetAncestor(b, h, S);
      }
    }

    /**
     * GetLocator lists the ancestors of `pindex` (by default the tip) at the heights above,
     * whether it looks them up in the chain or by skip pointers, for every 32-bit height.
     */
    method GetLocator(pindex: BlockIndex?, ghost S: set<BlockIndex>) returns (have: seq<BlockIndex>)
      requires Linked(S) && Skips(S) && Valid(S) && (pindex != null ==> pindex in S)
      requires forall b :: b in S ==> b.height < 0x8000_0000   // heights are int32_t
      ensures (pindex == null && tip == null) ==> have == []
      ensures var b := if pindex != null then pindex else tip;
              b != null ==> ListsClosed(S, b, have)
    {
      var p := if pindex != null then pindex else tip;
      have := [];
      if p != null {
        have := Locate(p, S);
        hide *;
        Closed(S, p, have);
      }
    }

    /** The loop of GetLocator; a doubling that overflows is never used. */
    method Locate(b: BlockIndex, ghost S: set<BlockIndex>) returns (have: seq<BlockIndex>)
      requires Linked(S) && Skips(S) && Valid(S) && b in S && b.height < 0x8000_0000
      ensures Listed(S, b, have, LocatorHeights(b.height, 0, 1))
    {
      hide *;
      have := [];
      ghost var done: seq<nat> := [];
      ghost var exact := 1;
      var p, step := b, 1;
      LocateStart(S, b);
      while true
        invariant exact >= 1 && Listed(S, b, have, done)
        invariant p in S && 0 <= p.height <= b.height && p == Anc(S, b, p.height)
        invariant p.height > 0 ==> step == exact && p.height + step <= b.height + 1
        invariant Rest(done, p.height, |have|, exact, LocatorHeights(b.height, 0, 1))
        decreases p.height
      {
        hide *;
        ListedMore(S, b, have, done, p.height);
        HeightsStep(done, p.height, |have|, exact, LocatorHeights(b.height, 0, 1));
        have := have + [p];
        done := done + [p.height];
        if p.height == 0 {
          break;
        }
        var h := NextHeight(p.height, step);
        AncAnc(S, b, p.height, h);
        StepFits(p.height, |have|, step, b.height);
        p := Lookup(p, h, S);
        exact := NextStep(|have|, exact);
        step := Step32(|have|, step);
      }
    }
  }

  // ---------------------------------------------------------------------------
  // Steps of the loops
  // ---------------------------------------------------------------------------

  /** Block i of `have` is the ancestor of `b` at height hs[i]. */
  ghost predicate Listed(S: set<BlockIndex>, b: BlockIndex, have: seq<BlockIndex>, hs: seq<nat>)
    requires Linked(S) && b in S
    reads S`prev, S`height
  {
    && |have| == |hs|
    && forall i :: 0 <= i < |hs| ==> hs[i] <= b.height && have[i] == Anc(S, b, hs[i])
  }

  /** Block i of `have` is the ancestor at the closed-form height; the list ends at the first block. */
  ghost predicate ListsClosed(S: set<BlockIndex>, b: BlockIndex, have: seq<BlockIndex>)
    requires Linked(S) && b in S
    reads S`prev, S`height
  {
    && b.height >= 0 && have != []
    && (forall i :: 0 <= i < |have| ==> have[i] == Anc(S, b, Below(b.height, Drop(i))))
    && (forall i :: 0 <= i < |have| ==> (i < |have| - 1 <==> b.height > Drop(i)))
  }

  lemma Closed(S: set<BlockIndex>, b: BlockIndex, have: seq<BlockIndex>)
    requires Linked(S) && b in S && b.height >= 0 && Listed(S, b, have, LocatorHeights(b.height, 0, 1))
    ensures ListsClosed(S, b, have)
  {
    hide Linked, Anc, LocatorHeights, Drop;
    var hs := LocatorHeights(b.height, 0, 1);
    forall i | 0 <= i < |have|
      ensures hs[i] == Below(b.height, Drop(i)) && (i < |have| - 1 <==> b.height > Drop(i))
    {
      DropZero();
      RestClosed(b.height, 0, 1, i);
    }
  }

  lemma DropZero()
    ensures Drop(0) == 0
  {
  }

  lemma ListedMore(S: set<BlockIndex>, b: BlockIndex, have: seq<BlockIndex>, hs: seq<nat>, h: nat)
    requires Linked(S) && b in S && h <= b.height && Listed(S, b, have, hs)
    ensures Listed(S, b, have + [Anc(S, b, h)], hs + [h])
  {
    hide Linked, Anc;
  }

  /** `done` and the heights still to come make up `all`. */
  ghost predicate Rest(done: seq<nat>, h: int, have: nat, step: int, all: seq<nat>) {
    h >= 0 && step >= 1 && done + LocatorHeights(h, have, step) == all
  }

  /** A value stored in a 32-bit signed integer. */
  function Int32(x: int): int {
    (x + 0x8000_0000) % 0x1_0000_0000 - 0x8000_0000
  }

  function Step32(have: nat, step: int): int {
    if have > 10 then Int32(2 * step) else step
  }

  /** While a height is left, the doubled step is no larger than the first height. */
  lemma StepFits(h: nat, have: nat, step: nat, top: nat)
    requires 0 < h && step >= 1 && h + step <= top + 1 && top < 0x8000_0000
    ensures var h' := NextHeight(h, step);
            h' > 0 ==> Step32(have, step) == NextStep(have, step) && h' + NextStep(have, step) <= top + 1
  {
  }

  function NextHeight(h: int, step: int): int {
    if h - step > 0 then h - step else 0
  }

  lemma LocateStart(S: set<BlockIndex>, b: BlockIndex)
    requires Linked(S) && b in S
    ensures b.height >= 0 && Listed(S, b, [], []) && Anc(S, b, b.height) == b
    ensures Rest([], b.height, 0, 1, LocatorHeights(b.height, 0, 1))
  {
  }

  lemma HeightsStep(done: seq<nat>, h: nat, have: nat, step: nat, all: seq<nat>)
    requires step >= 1 && Rest(done, h, have, step, all)
    ensures h == 0 ==> all == done + [h]
    ensures h > 0 ==> Rest(done + [h], NextHeight(h, step), have + 1, NextStep(have + 1, step), all)
    ensures 0 <= NextHeight(h, step) <= h && (h > 0 ==> NextHeight(h, step) < h)
    ensures NextStep(have + 1, step) >= 1
  {
  }

  function Resized(v: seq<BlockIndex?>, n: nat): (r: seq<BlockIndex?>)
    ensures |r| == n && forall i :: 0 <= i < n ==> r[i] == if i < |v| then v[i] else null
  {
    if n <= |v| then v[..n] else v + seq(n - |v|, _ => null)
  }

  ghost predicate Above(S: set<BlockIndex>, b: BlockIndex, v: seq<BlockIndex?>, at: int)
    requires Linked(S) && b in S && |v| == b.height + 1 && at >= -1
    reads S`prev, S`height
  {
    forall i :: at < i <= b.height ==> v[i] == Anc(S, b, i)
  }

  /** Up to `at` the array still holds the previous entries, or null where it grew. */
  ghost predicate Kept(v: seq<BlockIndex?>, was: seq<BlockIndex?>, at: int)
    requires at < |v|
  {
    forall i :: 0 <= i <= at ==> v[i] == if i < |was| then was[i] else null
  }

  lemma AboveTop(S: set<BlockIndex>, b: BlockIndex, was: seq<BlockIndex?>)
    requires Linked(S) && b in S
    ensures b.height >= 0 && Above(S, b, Resized(was, b.height + 1), b.height) && Anc(S, b, b.height) == b
    ensures Kept(Resized(was, b.height + 1), was, b.height)
  {
  }

  lemma AboveAll(S: set<BlockIndex>, b: BlockIndex, v: seq<BlockIndex?>)
    requires Linked(S) && b in S && |v| == b.height + 1 && Above(S, b, v, -1)
    ensures forall i :: 0 <= i < |v| ==> v[i] == Anc(S, b, i)
  {
    hide Linked, Anc;
  }

  lemma AboveStep(S: set<BlockIndex>, b: BlockIndex, v: seq<BlockIndex?>, was: seq<BlockIndex?>, at: int)
    requires Linked(S) && b in S && |v| == b.height + 1 && 0 <= at <= b.height
    requires Above(S, b, v, at) && Kept(v, was, at)
    ensures Above(S, b, v[at := Anc(S, b, at)], at - 1) && Kept(v[at := Anc(S, b, at)], was, at - 1)
  {
    hide Linked, Anc;
  }

  /** The loop of SetTip on the resized array: stops at the first entry that is already right. */
  method Rebuild(pindex: BlockIndex, was: seq<BlockIndex?>, ghost oldTip: BlockIndex?, ghost S: set<BlockIndex>)
    returns (v: seq<BlockIndex?>)
    requires Linked(S) && pindex in S
    requires if oldTip == null then was == []
             else oldTip in S && |was| == oldTip.height + 1
                  && forall i :: 0 <= i < |was| ==> was[i] == Anc(S, oldTip, i)
    ensures |v| == pindex.height + 1 && forall i :: 0 <= i < |v| ==> v[i] == Anc(S, pindex, i)
  {
    assert pindex.height >= 0;
    hide *;
    v := Resized(was, pindex.height + 1);
    AboveTop(S, pindex, was);
    var p: BlockIndex? := pindex;
    ghost var at := pindex.height;
    while p != null && v[p.height] != p
      invariant |v| == pindex.height + 1 && -1 <= at <= pindex.height
      invariant p == null <==> at == -1
      invariant p != null ==> p in S && p.height == at && p == Anc(S, pindex, at)
      invariant Above(S, pindex, v, at)
      invariant Kept(v, was, at)
      decreases at + 1
    {
      hide *;
      AncPrev(S, pindex, at);
      AboveStep(S, pindex, v, was, at);
      v := v[p.height := p];
      p := p.prev;
      at := at - 1;
    }
    if p != null {
      Joins(S, pindex, oldTip, was, v, at);
    } else {
      AboveAll(S, pindex, v);
    }
  }

  /** Where the walk meets an entry of the previous chain, everything below already agrees. */
  lemma Joins(S: set<BlockIndex>, b: BlockIndex, oldTip: BlockIndex?, was: seq<BlockIndex?>, v: seq<BlockIndex?>,
              at: int)
    requires Linked(S) && b in S && |v| == b.height + 1 && 0 <= at <= b.height && Above(S, b, v, at)
    requires if oldTip == null then was == []
             else oldTip in S && |was| == oldTip.height + 1
                  && forall i :: 0 <= i < |was| ==> was[i] == Anc(S, oldTip, i)
    requires Kept(v, was, at)
    requires v[at] == Anc(S, b, at)
    ensures forall i :: 0 <= i < |v| ==> v[i] == Anc(S, b, i)
  {
    hide Linked;
    forall i | 0 <= i < |v| ensures v[i] == Anc(S, b, i) {
      if i <= at {
        AncAnc(S, b, at, i);
        AncAnc(S, oldTip, at, i);
      }
    }
  }
}
