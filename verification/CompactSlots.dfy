/**
 * The slots of a compact block (src/blockencodings.cpp): where prefilled transactions go,
 * which slots stay free, and what the offered transactions leave in a free slot.
 */
module CompactSlots {
  import opened Wrappers

  datatype Tx = Tx(hash: nat, isNull: bool)

  /** A 32-bit index, the distance from the slot after the previous prefilled transaction. */
  type Index = n: nat | n < 0x1_0000_0000

  datatype Prefilled = Prefilled(index: Index, tx: Tx)

  type Slots = seq<Option<Tx>>

  // ---------------------------------------------------------------------------
  // Prefilled transactions
  // ---------------------------------------------------------------------------

  /** How far an index moves on.  The sum is taken in 32 bits: the largest index does not move at all. */
  function Advance(index: Index): (n: nat)
    ensures n == 0 <==> index == 0xFFFF_FFFF
    ensures index < 0xFFFF_FFFF ==> n == index + 1
  {
    (index + 1) % 0x1_0000_0000
  }

  /** The slot of prefilled transaction i; -1 as long as no index has moved on. */
  function SlotOf(pre: seq<Prefilled>, i: nat): (p: int)
    requires i < |pre|
    ensures p >= -1
  {
    (if i == 0 then -1 else SlotOf(pre, i - 1)) + Advance(pre[i].index)
  }

  /** Every test on the prefilled transactions passes. */
  predicate Placeable(pre: seq<Prefilled>, ids: nat) {
    forall i :: 0 <= i < |pre| ==> PlaceableAt(pre, ids, i)
  }

  /** Not null, and every gap is covered by short ids; the second comparison is made in 32 bits. */
  predicate PlaceableAt(pre: seq<Prefilled>, ids: nat, i: nat)
    requires i < |pre|
  {
    && !pre[i].tx.isNull && SlotOf(pre, i) <= 0xFFFF_FFFF
    && SlotOf(pre, i) % 0x1_0000_0000 <= ids + i
  }

  /** The tests pass for a first transaction whose slot would be -1. */
  predicate Outside(pre: seq<Prefilled>, ids: nat) {
    pre != [] && pre[0].index == 0xFFFF_FFFF && !pre[0].tx.isNull && ids >= 0xFFFF_FFFF
  }

  /** The number of the first n indexes that do not move on. */
  function Stalls(pre: seq<Prefilled>, n: nat): (k: nat)
    requires n <= |pre|
  {
    if n == 0 then 0 else Stalls(pre, n - 1) + (if pre[n - 1].index == 0xFFFF_FFFF then 1 else 0)
  }

  ghost predicate Empty(s: Slots) {
    forall i :: 0 <= i < |s| ==> s[i] == None
  }

  /** Each slot named by the first n prefilled transactions holds the last one of them; all others are free. */
  ghost predicate Placed(pre: seq<Prefilled>, n: nat, s: Slots)
    requires n <= |pre|
  {
    && (forall i :: 0 <= i < n ==> Holds(pre, n, s, i))
    && (forall p :: 0 <= p < |s| ==> (s[p].Some? <==> Taken(pre, n, p)))
  }

  ghost predicate Holds(pre: seq<Prefilled>, n: nat, s: Slots, i: nat)
    requires i < n <= |pre|
  {
    0 <= SlotOf(pre, i) < |s| && (Latest(pre, n, i) ==> s[SlotOf(pre, i)] == Some(pre[i].tx))
  }

  ghost predicate Latest(pre: seq<Prefilled>, n: nat, i: nat)
    requires i < n <= |pre|
  {
    forall j :: i < j < n ==> SlotOf(pre, j) != SlotOf(pre, i)
  }

  ghost predicate Taken(pre: seq<Prefilled>, n: nat, p: int)
    requires n <= |pre|
  {
    exists i :: 0 <= i < n && SlotOf(pre, i) == p
  }

  /** Slots never go back, and move on unless the index stalls. */
  lemma {:induction false} SlotsGrow(pre: seq<Prefilled>, i: nat, j: nat)
    requires i < j < |pre|
    ensures SlotOf(pre, i) <= SlotOf(pre, j)
    ensures pre[j].index != 0xFFFF_FFFF ==> SlotOf(pre, i) < SlotOf(pre, j)
    decreases j
  {
    if i < j - 1 {
      SlotsGrow(pre, i, j - 1);
    }
  }

  /** A slot of -1 passes the tests only in the first place, and only with that many short ids. */
  lemma FirstOutside(pre: seq<Prefilled>, ids: nat)
    requires pre != []
    ensures Outside(pre, ids) <==> PlaceableAt(pre, ids, 0) && SlotOf(pre, 0) == -1
  {
  }

  /** The number of free slots. */
  function Free(s: Slots): (n: nat)
    ensures n <= |s|
  {
    if s == [] then 0 else Free(s[..|s| - 1]) + (if s[|s| - 1].None? then 1 else 0)
  }

  lemma {:induction false} FreeEmpty(s: Slots)
    requires Empty(s)
    ensures Free(s) == |s|
  {
    if s != [] {
      FreeEmpty(s[..|s| - 1]);
    }
  }

  lemma {:induction false} FreeUpdate(s: Slots, p: nat, t: Option<Tx>)
    requires p < |s|
    ensures Free(s[p := t]) == Free(s) - (if s[p].None? then 1 else 0) + (if t.None? then 1 else 0)
  {
    var init := s[..|s| - 1];
    if p < |s| - 1 {
      FreeUpdate(init, p, t);
      assert s[p := t][..|s| - 1] == init[p := t];
    } else {
      assert s[p := t][..|s| - 1] == init;
    }
  }

  lemma PlacedStart(pre: seq<Prefilled>, s: Slots)
    requires Empty(s)
    ensures Placed(pre, 0, s) && Free(s) == |s|
  {
    FreeEmpty(s);
  }

  /** The next prefilled transaction finds its slot taken exactly if its index stalls. */
  lemma NextIsFree(pre: seq<Prefilled>, n: nat, s: Slots)
    requires n < |pre| && Placed(pre, n, s) && 0 <= SlotOf(pre, n) < |s|
    ensures s[SlotOf(pre, n)].Some? <==> pre[n].index == 0xFFFF_FFFF
  {
    hide Latest;
    var q := SlotOf(pre, n);
    if pre[n].index == 0xFFFF_FFFF {
      assert SlotOf(pre, n - 1) == q;
      assert Taken(pre, n, q);
    } else {
      forall i | 0 <= i < n ensures SlotOf(pre, i) != q {
        SlotsGrow(pre, i, n);
      }
      assert !Taken(pre, n, q);
    }
  }

  /** Placing one more takes one free slot, unless it overwrites the transaction before. */
  lemma PlacedStep(pre: seq<Prefilled>, n: nat, s: Slots)
    requires n < |pre| && Placed(pre, n, s) && 0 <= SlotOf(pre, n) < |s|
    ensures var t := s[SlotOf(pre, n) := Some(pre[n].tx)];
            Placed(pre, n + 1, t) && Free(t) + Stalls(pre, n) + 1 == Free(s) + Stalls(pre, n + 1)
  {
    hide Placed, SlotOf, Free;
    NextIsFree(pre, n, s);
    FreeUpdate(s, SlotOf(pre, n), Some(pre[n].tx));
    PlacedMore(pre, n, s);
  }

  lemma PlacedMore(pre: seq<Prefilled>, n: nat, s: Slots)
    requires n < |pre| && Placed(pre, n, s) && 0 <= SlotOf(pre, n) < |s|
    ensures Placed(pre, n + 1, s[SlotOf(pre, n) := Some(pre[n].tx)])
  {
    hide SlotOf, Free, Latest, Taken, Holds;
    var t, k := s[SlotOf(pre, n) := Some(pre[n].tx)], n + 1;
    forall p | 0 <= p < |t| ensures t[p].Some? <==> Taken(pre, k, p) {
      TakenMore(pre, n, p);
    }
    forall i | 0 <= i < k ensures Holds(pre, k, t, i) {
      HoldsMore(pre, n, s, i);
    }
  }

  lemma TakenMore(pre: seq<Prefilled>, n: nat, p: int)
    requires n < |pre|
    ensures Taken(pre, n + 1, p) <==> Taken(pre, n, p) || SlotOf(pre, n) == p
  {
    hide SlotOf;
  }

  lemma HoldsMore(pre: seq<Prefilled>, n: nat, s: Slots, i: nat)
    requires i <= n < |pre| && (i < n ==> Holds(pre, n, s, i)) && 0 <= SlotOf(pre, n) < |s|
    ensures Holds(pre, n + 1, s[SlotOf(pre, n) := Some(pre[n].tx)], i)
  {
    hide SlotOf;
    if i < n && Latest(pre, n + 1, i) {
      assert Latest(pre, n, i);
    }
  }

  /** Every prefilled transaction has a slot of its own. */
  ghost predicate OwnSlot(pre: seq<Prefilled>) {
    forall i, j :: 0 <= i < j < |pre| ==> SlotOf(pre, i) != SlotOf(pre, j)
  }

  ghost predicate NoStall(pre: seq<Prefilled>) {
    forall i :: 0 <= i < |pre| ==> pre[i].index != 0xFFFF_FFFF
  }

  lemma {:induction false} StallsZero(pre: seq<Prefilled>, n: nat)
    requires n <= |pre|
    ensures Stalls(pre, n) == 0 <==> forall i :: 0 <= i < n ==> pre[i].index != 0xFFFF_FFFF
  {
    if n > 0 {
      StallsZero(pre, n - 1);
    }
  }

  /**
   * An accepted message has one slot per prefilled transaction, and one free slot per short
   * id, if and only if no index is the largest one.
   */
  lemma PlacedExactly(pre: seq<Prefilled>, ids: nat, s: Slots)
    requires |s| == ids + |pre| && Placed(pre, |pre|, s) && Free(s) == ids + Stalls(pre, |pre|)
    ensures OwnSlot(pre) <==> NoStall(pre)
    ensures Free(s) == ids <==> NoStall(pre)
  {
    StallsZero(pre, |pre|);
    if NoStall(pre) {
      forall i, j | 0 <= i < j < |pre| ensures SlotOf(pre, i) != SlotOf(pre, j) {
        SlotsGrow(pre, i, j);
      }
    } else {
      var j :| 0 <= j < |pre| && pre[j].index == 0xFFFF_FFFF;
      assert Holds(pre, |pre|, s, j);
      assert SlotOf(pre, j - 1) == SlotOf(pre, j);
    }
  }

  /** The largest index puts the second transaction on top of the first and leaves a slot too many. */
  lemma Overwritten(a: Tx, b: Tx, ids: nat, s: Slots)
    requires !a.isNull && !b.isNull
    ensures var pre := [Prefilled(0, a), Prefilled(0xFFFF_FFFF, b)];
            && Placeable(pre, ids) && !Outside(pre, ids)
            && (|s| == ids + 2 && Placed(pre, 2, s) ==> s[0] == Some(b) && Free(s) == ids + 1)
  {
    var pre := [Prefilled(0, a), Prefilled(0xFFFF_FFFF, b)];
    assert SlotOf(pre, 0) == 0 && SlotOf(pre, 1) == 0;
    if |s| == ids + 2 && Placed(pre, 2, s) {
      assert Holds(pre, 2, s, 1) && Latest(pre, 2, 1);
      forall p | 1 <= p < |s| ensures s[p].None? {
        assert !Taken(pre, 2, p);
      }
      var empty := s[0 := None];
      FreeEmpty(empty);
      FreeUpdate(empty, 0, Some(b));
      assert empty[0 := Some(b)] == s;
    }
  }

  // ---------------------------------------------------------------------------
  // Free slots in order
  // ---------------------------------------------------------------------------

  /** The free slots below k, ascending. */
  function FreeSlots(s: Slots, k: nat): (f: seq<nat>)
    requires k <= |s|
  {
    if k == 0 then [] else FreeSlots(s, k - 1) + (if s[k - 1].None? then [k - 1] else [])
  }

  lemma {:induction false} FreeSlotsCount(s: Slots, k: nat)
    requires k <= |s|
    ensures |FreeSlots(s, k)| == Free(s[..k])
  {
    if k > 0 {
      FreeSlotsCount(s, k - 1);
      assert s[..k][..k - 1] == s[..k - 1];
    }
  }

  lemma {:induction false} FreeSlotsExact(s: Slots, k: nat)
    requires k <= |s|
    ensures forall i :: 0 <= i < |FreeSlots(s, k)| ==> FreeSlots(s, k)[i] < k && s[FreeSlots(s, k)[i]].None?
    ensures forall i, j :: 0 <= i < j < |FreeSlots(s, k)| ==> FreeSlots(s, k)[i] < FreeSlots(s, k)[j]
    ensures forall p :: 0 <= p < k && s[p].None? ==> p in FreeSlots(s, k)
  {
    if k > 0 {
      FreeSlotsExact(s, k - 1);
      var f, g := FreeSlots(s, k - 1), FreeSlots(s, k);
      assert forall p :: p in f ==> p in g;
      if s[k - 1].None? {
        assert g[|f|] == k - 1;
      }
    }
  }

  /** Earlier free slots are a prefix of all of them. */
  lemma {:induction false} FreeSlotsPrefix(s: Slots, k: nat, m: nat)
    requires k <= m <= |s|
    ensures FreeSlots(s, k) <= FreeSlots(s, m)
    decreases m
  {
    if k < m {
      FreeSlotsPrefix(s, k, m - 1);
    }
  }

  ghost function FreeSet(s: Slots): set<nat> {
    set p: nat | p < |s| && s[p].None?
  }

  lemma {:induction false} FreeSetSize(s: Slots)
    ensures |FreeSet(s)| == Free(s)
  {
    if s != [] {
      var init, last := s[..|s| - 1], |s| - 1;
      FreeSetSize(init);
      assert FreeSet(s) == FreeSet(init) + (if s[last].None? then {last} else {});
      assert last !in FreeSet(init);
    }
  }

  // ---------------------------------------------------------------------------
  // What offered transactions leave in a slot
  // ---------------------------------------------------------------------------

  /** A transaction offered under the hash `key`. */
  datatype Offer = Offer(key: nat, tx: Tx)

  /** The offered transactions with the given short id, in order. */
  function Matches(short: nat -> nat, offers: seq<Offer>, id: nat): seq<Tx> {
    if offers == [] then []
    else
      var rest := Matches(short, offers[..|offers| - 1], id);
      var o := offers[|offers| - 1];
      if short(o.key) == id then rest + [o.tx] else rest
  }

  /**
   * A slot is filled exactly if its short id matched at most one pool transaction, and at
   * least one transaction in all, and every further extra match has the hash of the first.
   */
  ghost function Outcome(pool: seq<Tx>, extra: seq<Tx>): Option<Tx> {
    var all := pool + extra;
    if |pool| <= 1 && |all| >= 1 && SameHash(all) then Some(all[0]) else None
  }

  ghost predicate SameHash(all: seq<Tx>) {
    forall i :: 0 <= i < |all| ==> all[i].hash == all[0].hash
  }

  lemma OutcomePool(pool: seq<Tx>, t: Tx)
    ensures Outcome(pool + [t], []) == if pool == [] then Some(t) else None
  {
    assert pool + [t] + [] == pool + [t];
  }

  lemma OutcomeExtra(pool: seq<Tx>, extra: seq<Tx>, t: Tx)
    ensures var was := Outcome(pool, extra);
            Outcome(pool, extra + [t])
            == if pool + extra == [] then Some(t)
               else if was.Some? && was.value.hash != t.hash then None
               else was
  {
    var all := pool + extra;
    assert pool + (extra + [t]) == all + [t];
    if all != [] {
      assert (all + [t])[0] == all[0];
      if SameHash(all + [t]) {
        assert forall i :: 0 <= i < |all| ==> (all + [t])[i] == all[i];
        assert (all + [t])[|all|] == t;
      }
    }
  }
}
