/** Rebuilding a block from a compact block (src/blockencodings.h, src/blockencodings.cpp). */
module CompactBlocks {
  import opened Wrappers
  import opened Sets
  import opened CompactSlots

  datatype Compact = Compact(header: Option<nat>, ids: seq<nat>, pre: seq<Prefilled>)

  /** A compact block as received: a message is shorter than 2^32 bytes, so slots are 32-bit numbers. */
  type Message = c: Compact | |c.ids| + |c.pre| < 0x1_0000_0000 witness Compact(None, [], [])

  datatype Status = OK | INVALID | FAILED | CHECKBLOCK_FAILED

  /** The compact block of a block: only the coinbase is prefilled. */
  function Compress(header: nat, block: seq<Tx>, short: nat -> nat): Compact
    requires |block| >= 1
  {
    Compact(Some(header), seq<nat>(|block| - 1, i requires 0 <= i < |block| - 1 => short(block[i + 1].hash)),
            [Prefilled(0, block[0])])
  }

  // ---------------------------------------------------------------------------
  // Short ids to slots
  // ---------------------------------------------------------------------------

  /** Short ids name free slots of `base`, each its own. */
  ghost predicate Slotted(m: map<nat, nat>, base: Slots) {
    && (forall id :: id in m ==> m[id] < |base| && base[m[id]].None?)
    && (forall a, b :: a in m && b in m && a != b ==> m[a] != m[b])
    && |m| <= Free(base)
  }

  /** The i-th short id stands for the i-th free slot. */
  ghost predicate InOrder(m: map<nat, nat>, ids: seq<nat>, base: Slots, n: nat)
    requires n <= |ids|
  {
    && n <= |FreeSlots(base, |base|)|
    && forall j :: 0 <= j < n ==> ids[j] in m && m[ids[j]] == FreeSlots(base, |base|)[j]
  }

  lemma RoomLeft(base: Slots, k: nat)
    requires k <= |base| && |FreeSlots(base, k)| < Free(base)
    ensures k < |base|
  {
    FreeSlotsCount(base, |base|);
    assert base[..|base|] == base;
  }

  /** The next free slot found by the scan is the next in order. */
  lemma ScanFinds(base: Slots, k: nat)
    requires k < |base| && base[k].None?
    ensures |FreeSlots(base, k)| < |FreeSlots(base, |base|)|
    ensures FreeSlots(base, |base|)[|FreeSlots(base, k)|] == k
    ensures |FreeSlots(base, k + 1)| == |FreeSlots(base, k)| + 1
  {
    FreeSlotsPrefix(base, k + 1, |base|);
    assert FreeSlots(base, k + 1)[|FreeSlots(base, k)|] == k;
  }

  /** The i-th short id is put at the i-th slot that no prefilled transaction took. */
  method MapIds(ids: seq<nat>, base: Slots, crowded: nat -> bool) returns (ok: bool, m: map<nat, nat>)
    requires |ids| <= Free(base)
    ensures ok <==> Distinct(ids) && forall i :: 0 <= i < |ids| ==> !crowded(i)
    ensures ok ==> Slotted(m, base) && InOrder(m, ids, base, |ids|) && m.Keys == Elements(ids)
  {
    MapStart(ids, base);
    hide *;
    m := map[];
    var offset: nat := 0;
    for i := 0 to |ids|
      invariant i + offset <= |base| && |FreeSlots(base, i + offset)| == i
      invariant forall j :: 0 <= j < i ==> !crowded(j)
      invariant m.Keys == Elements(ids[..i])
      invariant Distinct(ids[..i]) ==> InOrder(m, ids, base, i)
    {
      hide *;
      offset := NextFree(base, i, offset);
      ScanFinds(base, i + offset);
      MapStep(m, ids, base, i, i + offset);
      m := m[ids[i] := i + offset];
      if crowded(i) {
        return false, m;
      }
    }
    assert ids[..|ids|] == ids;
    KeysDistinct(m, ids);
    if |m| != |ids| {
      return false, m;
    }
    MapDone(m, ids, base);
    return true, m;
  }

  /** Skipping the slots that prefilled transactions took never leaves the array. */
  method NextFree(base: Slots, i: nat, from: nat) returns (offset: nat)
    requires i + from <= |base| && |FreeSlots(base, i + from)| == i < Free(base)
    ensures i + offset < |base| && base[i + offset].None? && |FreeSlots(base, i + offset)| == i
  {
    hide FreeSlots, Free;
    offset := from;
    RoomLeft(base, i + offset);
    while base[i + offset].Some?
      invariant i + offset < |base| && |FreeSlots(base, i + offset)| == i
      decreases |base| - offset
    {
      hide FreeSlots, Free;
      NotFree(base, i + offset);
      offset := offset + 1;
      RoomLeft(base, i + offset);
    }
  }

  lemma MapStart(ids: seq<nat>, base: Slots)
    ensures |FreeSlots(base, 0)| == 0 && Elements(ids[..0]) == {} && InOrder(map[], ids, base, 0)
  {
  }

  lemma KeysDistinct(m: map<nat, nat>, ids: seq<nat>)
    requires m.Keys == Elements(ids)
    ensures |m| == |ids| <==> Distinct(ids)
  {
    assert |m| == |m.Keys|;
    SizeDistinct(ids);
    hide Elements;
    if Distinct(ids) {
      DistinctSize(ids);
    }
  }

  lemma NotFree(base: Slots, k: nat)
    requires k < |base| && base[k].Some?
    ensures FreeSlots(base, k + 1) == FreeSlots(base, k)
  {
  }

  lemma MapStep(m: map<nat, nat>, ids: seq<nat>, base: Slots, i: nat, p: nat)
    requires i < |ids| && m.Keys == Elements(ids[..i]) && (Distinct(ids[..i]) ==> InOrder(m, ids, base, i))
    requires i < |FreeSlots(base, |base|)| && FreeSlots(base, |base|)[i] == p
    ensures m[ids[i] := p].Keys == Elements(ids[..i + 1])
    ensures Distinct(ids[..i + 1]) ==> InOrder(m[ids[i] := p], ids, base, i + 1)
  {
    hide FreeSlots;
    assert ids[..i + 1] == ids[..i] + [ids[i]];
    assert m[ids[i] := p].Keys == Elements(ids[..i]) + {ids[i]};
    assert Elements(ids[..i + 1]) == Elements(ids[..i]) + {ids[i]};
    if Distinct(ids[..i + 1]) {
      assert forall j :: 0 <= j < i ==> ids[..i + 1][j] == ids[j];
      assert forall j :: 0 <= j < i ==> ids[j] != ids[..i + 1][i];
      assert Distinct(ids[..i]);
    }
  }

  lemma MapDone(m: map<nat, nat>, ids: seq<nat>, base: Slots)
    requires m.Keys == Elements(ids) && InOrder(m, ids, base, |ids|) && |m| == |ids| <= Free(base)
    ensures Slotted(m, base)
  {
    hide FreeSlots, Free, InOrder, Elements;
    forall id | id in m ensures m[id] < |base| && base[m[id]].None? {
      MapAt(m, ids, base, id);
    }
    forall a, b | a in m && b in m && a != b ensures m[a] != m[b] {
      MapApart(m, ids, base, a, b);
    }
  }

  lemma MapAt(m: map<nat, nat>, ids: seq<nat>, base: Slots, id: nat)
    requires m.Keys == Elements(ids) && InOrder(m, ids, base, |ids|) && id in m
    ensures m[id] < |base| && base[m[id]].None?
  {
    hide *;
    FreeSlotsExact(base, |base|);
    var j := SlotIndex(m, ids, base, id);
  }

  lemma MapApart(m: map<nat, nat>, ids: seq<nat>, base: Slots, a: nat, b: nat)
    requires m.Keys == Elements(ids) && InOrder(m, ids, base, |ids|) && a in m && b in m && a != b
    ensures m[a] != m[b]
  {
    hide *;
    FreeSlotsExact(base, |base|);
    var i := SlotIndex(m, ids, base, a);
    var j := SlotIndex(m, ids, base, b);
  }

  lemma SlotIndex(m: map<nat, nat>, ids: seq<nat>, base: Slots, id: nat) returns (j: nat)
    requires m.Keys == Elements(ids) && InOrder(m, ids, base, |ids|) && id in m
    ensures j < |ids| && ids[j] == id && j < |FreeSlots(base, |base|)| && m[id] == FreeSlots(base, |base|)[j]
  {
    hide FreeSlots;
    assert id in Elements(ids);
    j :| 0 <= j < |ids| && ids[j] == id;
  }

  // ---------------------------------------------------------------------------
  // Offered transactions
  // ---------------------------------------------------------------------------

  /** After offering `pool` and then `extra`, every named slot holds its outcome; the others are as before. */
  ghost predicate Scanned(short: nat -> nat, m: map<nat, nat>, base: Slots, avail: Slots, have: seq<bool>,
                          pool: seq<Offer>, extra: seq<Offer>)
  {
    && |avail| == |have| == |base|
    && (forall id :: id in m ==> SlotScanned(short, m[id], id, avail, have, pool, extra))
    && (forall p :: 0 <= p < |base| && p !in m.Values ==> avail[p] == base[p])
  }

  ghost predicate SlotScanned(short: nat -> nat, p: nat, id: nat, avail: Slots, have: seq<bool>,
                              pool: seq<Offer>, extra: seq<Offer>)
  {
    && p < |avail| == |have|
    && avail[p] == Outcome(Matches(short, pool, id), Matches(short, extra, id))
    && have[p] == (Matches(short, pool, id) + Matches(short, extra, id) != [])
  }

  lemma MatchesMore(short: nat -> nat, offers: seq<Offer>, o: Offer, id: nat)
    ensures Matches(short, offers + [o], id)
            == if short(o.key) == id then Matches(short, offers, id) + [o.tx] else Matches(short, offers, id)
  {
    assert (offers + [o])[..|offers|] == offers;
  }

  /** What one pool transaction does to the slot of its short id. */
  lemma PoolSlot(short: nat -> nat, p: nat, id: nat, avail: Slots, have: seq<bool>, pool: seq<Offer>, o: Offer)
    requires SlotScanned(short, p, id, avail, have, pool, []) && short(o.key) == id
    ensures SlotScanned(short, p, id, avail[p := if have[p] then None else Some(o.tx)], have[p := true], pool + [o], [])
  {
    MatchesMore(short, pool, o, id);
    OutcomePool(Matches(short, pool, id), o.tx);
    assert Matches(short, [], id) == [];
    assert Matches(short, pool, id) + [] == Matches(short, pool, id);
  }

  /** What an extra transaction leaves in a slot. */
  function AfterExtra(slot: Option<Tx>, had: bool, t: Tx): Option<Tx> {
    if !had then Some(t) else if slot.Some? && slot.value.hash != t.hash then None else slot
  }

  lemma ExtraSlot(short: nat -> nat, p: nat, id: nat, avail: Slots, have: seq<bool>, pool: seq<Offer>,
                  extra: seq<Offer>, o: Offer)
    requires SlotScanned(short, p, id, avail, have, pool, extra) && short(o.key) == id
    ensures SlotScanned(short, p, id, avail[p := AfterExtra(avail[p], have[p], o.tx)], have[p := true],
                        pool, extra + [o])
  {
    MatchesMore(short, extra, o, id);
    OutcomeExtra(Matches(short, pool, id), Matches(short, extra, id), o.tx);
  }

  /** Other slots are not affected. */
  lemma OtherSlot(short: nat -> nat, p: nat, id: nat, q: nat, t: Option<Tx>, avail: Slots, have: seq<bool>,
                  pool: seq<Offer>, extra: seq<Offer>, o: Offer)
    requires SlotScanned(short, p, id, avail, have, pool, extra) && short(o.key) != id && q < |avail| && q != p
    ensures SlotScanned(short, p, id, avail[q := t], have[q := true], pool + [o], extra)
    ensures SlotScanned(short, p, id, avail[q := t], have[q := true], pool, extra + [o])
  {
    MatchesMore(short, pool, o, id);
    MatchesMore(short, extra, o, id);
  }

  lemma SameSlot(short: nat -> nat, p: nat, id: nat, avail: Slots, have: seq<bool>, pool: seq<Offer>, extra: seq<Offer>,
                 o: Offer)
    requires SlotScanned(short, p, id, avail, have, pool, extra) && short(o.key) != id
    ensures SlotScanned(short, p, id, avail, have, pool + [o], extra)
    ensures SlotScanned(short, p, id, avail, have, pool, extra + [o])
  {
    MatchesMore(short, pool, o, id);
    MatchesMore(short, extra, o, id);
  }

  lemma PoolHit(short: nat -> nat, m: map<nat, nat>, base: Slots, avail: Slots, have: seq<bool>, pool: seq<Offer>,
                o: Offer)
    requires Slotted(m, base) && Scanned(short, m, base, avail, have, pool, []) && short(o.key) in m
    ensures var p := m[short(o.key)];
            p < |have| == |avail|
            && Scanned(short, m, base, avail[p := if have[p] then None else Some(o.tx)], have[p := true],
                       pool + [o], [])
  {
    hide SlotScanned, Free;
    var p := m[short(o.key)];
    assert p < |base|;
    var t := if have[p] then None else Some(o.tx);
    forall id | id in m ensures SlotScanned(short, m[id], id, avail[p := t], have[p := true], pool + [o], []) {
      if id == short(o.key) {
        PoolSlot(short, p, id, avail, have, pool, o);
      } else {
        OtherSlot(short, m[id], id, p, t, avail, have, pool, [], o);
      }
    }
  }

  lemma ExtraHit(short: nat -> nat, m: map<nat, nat>, base: Slots, avail: Slots, have: seq<bool>,
                 pool: seq<Offer>, extra: seq<Offer>, o: Offer)
    requires Slotted(m, base) && Scanned(short, m, base, avail, have, pool, extra) && short(o.key) in m
    ensures var p := m[short(o.key)];
            p < |have| == |avail|
            && Scanned(short, m, base, avail[p := AfterExtra(avail[p], have[p], o.tx)], have[p := true],
                       pool, extra + [o])
  {
    hide SlotScanned, Free;
    var p := m[short(o.key)];
    assert p < |base|;
    var t := AfterExtra(avail[p], have[p], o.tx);
    forall id | id in m ensures SlotScanned(short, m[id], id, avail[p := t], have[p := true], pool, extra + [o]) {
      if id == short(o.key) {
        ExtraSlot(short, p, id, avail, have, pool, extra, o);
      } else {
        OtherSlot(short, m[id], id, p, t, avail, have, pool, extra, o);
      }
    }
  }

  lemma Miss(short: nat -> nat, m: map<nat, nat>, base: Slots, avail: Slots, have: seq<bool>,
             pool: seq<Offer>, extra: seq<Offer>, o: Offer)
    requires Scanned(short, m, base, avail, have, pool, extra) && short(o.key) !in m
    ensures Scanned(short, m, base, avail, have, pool + [o], extra)
    ensures Scanned(short, m, base, avail, have, pool, extra + [o])
  {
    hide SlotScanned;
    forall id | id in m
      ensures SlotScanned(short, m[id], id, avail, have, pool + [o], extra)
              && SlotScanned(short, m[id], id, avail, have, pool, extra + [o])
    {
      SameSlot(short, m[id], id, avail, have, pool, extra, o);
    }
  }

  lemma ScannedStart(short: nat -> nat, m: map<nat, nat>, base: Slots, have: seq<bool>)
    requires Slotted(m, base) && |have| == |base| && forall i :: 0 <= i < |have| ==> !have[i]
    ensures Scanned(short, m, base, base, have, [], [])
  {
  }

  /** What the loops know: the scan so far, and a count that follows the free slots. */
  ghost predicate Counted(base: Slots, avail: Slots, count: int, count0: int) {
    count == count0 + Free(base) - Free(avail)
  }

  /** One transaction of the memory pool. */
  method OfferPool(short: nat -> nat, m: map<nat, nat>, avail: Slots, have: seq<bool>, count: int, o: Offer,
                   ghost base: Slots, ghost pool: seq<Offer>, ghost count0: int)
    returns (avail': Slots, have': seq<bool>, count': int)
    requires Slotted(m, base) && Scanned(short, m, base, avail, have, pool, []) && Counted(base, avail, count, count0)
    ensures Scanned(short, m, base, avail', have', pool + [o], []) && Counted(base, avail', count', count0)
  {
    avail', have', count' := avail, have, count;
    var id := short(o.key);
    if id in m {
      PoolHit(short, m, base, avail, have, pool, o);
      NoMatchYet(short, m, base, avail, have, pool, [], id);
      hide Scanned, Slotted;
      var p := m[id];
      FreeUpdate(avail, p, if have[p] then None else Some(o.tx));
      if !have[p] {
        avail' := avail[p := Some(o.tx)];
        have' := have[p := true];
        count' := count + 1;
      } else if avail[p].Some? {
        avail' := avail[p := None];
        assert have[p := true] == have;
        count' := count - 1;
      } else {
        assert avail[p := None] == avail && have[p := true] == have;
      }
    } else {
      Miss(short, m, base, avail, have, pool, [], o);
    }
  }

  /** A slot without any match so far is still free. */
  lemma NoMatchYet(short: nat -> nat, m: map<nat, nat>, base: Slots, avail: Slots, have: seq<bool>,
                   pool: seq<Offer>, extra: seq<Offer>, id: nat)
    requires id in m && Scanned(short, m, base, avail, have, pool, extra)
    ensures m[id] < |avail| == |have| && (!have[m[id]] ==> avail[m[id]].None?)
  {
    assert SlotScanned(short, m[id], id, avail, have, pool, extra);
  }

  /** The slots that hold an extra transaction. */
  ghost function FromExtra(short: nat -> nat, m: map<nat, nat>, pool: seq<Offer>, extra: seq<Offer>): set<nat> {
    set id | id in m && Matches(short, pool, id) == [] && Outcome([], Matches(short, extra, id)).Some?
  }

  /** The slots that an extra transaction emptied after the pool had filled them. */
  ghost function Emptied(short: nat -> nat, m: map<nat, nat>, pool: seq<Offer>, extra: seq<Offer>): set<nat> {
    set id | id in m && |Matches(short, pool, id)| == 1
             && Outcome(Matches(short, pool, id), Matches(short, extra, id)).None?
  }

  ghost function Net(short: nat -> nat, m: map<nat, nat>, pool: seq<Offer>, extra: seq<Offer>): int {
    |FromExtra(short, m, pool, extra)| - |Emptied(short, m, pool, extra)|
  }

  lemma NetMiss(short: nat -> nat, m: map<nat, nat>, pool: seq<Offer>, extra: seq<Offer>, o: Offer)
    requires short(o.key) !in m
    ensures Net(short, m, pool, extra + [o]) == Net(short, m, pool, extra)
  {
    hide Outcome;
    forall id | id in m ensures Matches(short, extra + [o], id) == Matches(short, extra, id) {
      MatchesMore(short, extra, o, id);
    }
    assert FromExtra(short, m, pool, extra + [o]) == FromExtra(short, m, pool, extra);
    assert Emptied(short, m, pool, extra + [o]) == Emptied(short, m, pool, extra);
  }

  /** How the counter of extra transactions moves. */
  function ExtraDelta(slot: Option<Tx>, had: bool, t: Tx): int {
    if !had then 1 else if slot.Some? && slot.value.hash != t.hash then -1 else 0
  }

  lemma NetHit(short: nat -> nat, m: map<nat, nat>, pool: seq<Offer>, extra: seq<Offer>, o: Offer, had: bool,
               slot: Option<Tx>)
    requires var id := short(o.key);
             && id in m && slot == Outcome(Matches(short, pool, id), Matches(short, extra, id))
             && had == (Matches(short, pool, id) + Matches(short, extra, id) != [])
    ensures Net(short, m, pool, extra + [o]) == Net(short, m, pool, extra) + ExtraDelta(slot, had, o.tx)
  {
    var id := short(o.key);
    var p, e := Matches(short, pool, id), Matches(short, extra, id);
    NetSets(short, m, pool, extra, o);
    OutcomeExtra(p, e, o.tx);
    PoolOnly(p);
    assert p == [] ==> p + e == e;
    hide Outcome, FromExtra, Emptied, Matches;
    Membership(FromExtra(short, m, pool, extra), FromExtra(short, m, pool, extra + [o]), id);
    Membership(Emptied(short, m, pool, extra), Emptied(short, m, pool, extra + [o]), id);
  }

  /** Only the slot of the transaction's own short id can enter or leave the two sets. */
  lemma NetSets(short: nat -> nat, m: map<nat, nat>, pool: seq<Offer>, extra: seq<Offer>, o: Offer)
    requires short(o.key) in m
    ensures var id := short(o.key);
            var p, e := Matches(short, pool, id), Matches(short, extra, id);
            && FromExtra(short, m, pool, extra + [o]) - {id} == FromExtra(short, m, pool, extra) - {id}
            && Emptied(short, m, pool, extra + [o]) - {id} == Emptied(short, m, pool, extra) - {id}
            && (id in FromExtra(short, m, pool, extra) <==> p == [] && Outcome([], e).Some?)
            && (id in FromExtra(short, m, pool, extra + [o]) <==> p == [] && Outcome([], e + [o.tx]).Some?)
            && (id in Emptied(short, m, pool, extra) <==> |p| == 1 && Outcome(p, e).None?)
            && (id in Emptied(short, m, pool, extra + [o]) <==> |p| == 1 && Outcome(p, e + [o.tx]).None?)
  {
    hide Outcome;
    var id := short(o.key);
    forall other | other in m
      ensures Matches(short, extra + [o], other)
              == if other == id then Matches(short, extra, id) + [o.tx] else Matches(short, extra, other)
    {
      MatchesMore(short, extra, o, other);
    }
    hide Matches;
  }

  lemma PoolOnly(p: seq<Tx>)
    ensures |p| >= 2 ==> forall e :: Outcome(p, e).None?
    ensures p != [] ==> forall e :: p + e != []
  {
  }

  lemma Membership(a: set<nat>, b: set<nat>, x: nat)
    requires a - {x} == b - {x}
    ensures |b| == |a| - (if x in a then 1 else 0) + (if x in b then 1 else 0)
  {
    assert x in a ==> a == (a - {x}) + {x};
    assert x !in a ==> a == a - {x};
    assert x in b ==> b == (b - {x}) + {x};
    assert x !in b ==> b == b - {x};
  }

  /** One extra transaction. */
  method OfferExtra(short: nat -> nat, m: map<nat, nat>, avail: Slots, have: seq<bool>, count: int, o: Offer,
                    ghost base: Slots, ghost pool: seq<Offer>, ghost extra: seq<Offer>, ghost count0: int)
    returns (avail': Slots, have': seq<bool>, count': int, delta: int)
    requires Slotted(m, base) && Scanned(short, m, base, avail, have, pool, extra)
             && Counted(base, avail, count, count0)
    ensures Scanned(short, m, base, avail', have', pool, extra + [o]) && Counted(base, avail', count', count0)
    ensures delta == Net(short, m, pool, extra + [o]) - Net(short, m, pool, extra)
  {
    hide Scanned, SlotScanned, Slotted, Net, FromExtra, Emptied, Matches, Outcome, Free;
    avail', have', count', delta := avail, have, count, 0;
    var id := short(o.key);
    if id in m {
      ExtraAll(short, m, base, avail, have, pool, extra, o);
      var p := m[id];
      if !have[p] {
        avail' := avail[p := Some(o.tx)];
        have' := have[p := true];
        count', delta := count + 1, 1;
      } else if avail[p].Some? && avail[p].value.hash != o.tx.hash {
        avail' := avail[p := None];
        assert have[p := true] == have;
        count', delta := count - 1, -1;
      } else {
        assert avail[p := avail[p]] == avail && have[p := true] == have;
      }
    } else {
      Miss(short, m, base, avail, have, pool, extra, o);
      NetMiss(short, m, pool, extra, o);
    }
  }

  /** All that an extra transaction changes. */
  lemma ExtraAll(short: nat -> nat, m: map<nat, nat>, base: Slots, avail: Slots, have: seq<bool>,
                 pool: seq<Offer>, extra: seq<Offer>, o: Offer)
    requires Slotted(m, base) && Scanned(short, m, base, avail, have, pool, extra) && short(o.key) in m
    ensures var p := m[short(o.key)];
            && p < |have| == |avail|
            && Scanned(short, m, base, avail[p := AfterExtra(avail[p], have[p], o.tx)], have[p := true],
                       pool, extra + [o])
            && Free(avail[p := AfterExtra(avail[p], have[p], o.tx)])
               == Free(avail) - ExtraDelta(avail[p], have[p], o.tx)
            && Net(short, m, pool, extra + [o]) == Net(short, m, pool, extra) + ExtraDelta(avail[p], have[p], o.tx)
  {
    var id := short(o.key);
    ExtraHit(short, m, base, avail, have, pool, extra, o);
    NoMatchYet(short, m, base, avail, have, pool, extra, id);
    assert SlotScanned(short, m[id], id, avail, have, pool, extra);
    hide Scanned, Slotted, Net, Free;
    NetHit(short, m, pool, extra, o, have[m[id]], avail[m[id]]);
    FreeUpdate(avail, m[id], AfterExtra(avail[m[id]], have[m[id]], o.tx));
  }

  function Offers(pool: seq<Tx>): (offers: seq<Offer>)
    ensures |offers| == |pool| && forall i :: 0 <= i < |pool| ==> offers[i] == Offer(pool[i].hash, pool[i])
  {
    seq(|pool|, i requires 0 <= i < |pool| => Offer(pool[i].hash, pool[i]))
  }

  /** The scan of the memory pool: k transactions are looked at, all of them or enough. */
  method ScanPool(short: nat -> nat, m: map<nat, nat>, base: Slots, pool: seq<Tx>, count0: int)
    returns (avail: Slots, have: seq<bool>, count: int, ghost k: nat)
    requires Slotted(m, base)
    ensures k <= |pool| && Scanned(short, m, base, avail, have, Offers(pool)[..k], [])
            && Counted(base, avail, count, count0)
    ensures k == |pool| || count == |m|
    ensures k == |pool| || count0 != 0 || AllMatched(short, m, Offers(pool)[..k])
  {
    avail, have, count := base, seq(|base|, _ => false), count0;
    ScannedStart(short, m, base, have);
    var offers := Offers(pool);
    assert offers[..0] == [];
    k := 0;
    var i := 0;
    while i < |pool|
      invariant i == k <= |pool| == |offers|
      invariant Scanned(short, m, base, avail, have, offers[..k], []) && Counted(base, avail, count, count0)
    {
      hide Scanned, Slotted, Counted, Offers;
      assert offers[..i + 1] == offers[..i] + [offers[i]];
      avail, have, count := OfferPool(short, m, avail, have, count, offers[i], base, offers[..i], count0);
      i, k := i + 1, k + 1;
      if count == |m| {
        if count0 == 0 {
          FullMeansMatched(short, m, base, avail, have, offers[..k], count);
        }
        break;
      }
    }
  }

  /** Every short id has exactly one match. */
  ghost predicate AllMatched(short: nat -> nat, m: map<nat, nat>, pool: seq<Offer>) {
    forall id :: id in m ==> |Matches(short, pool, id)| == 1
  }

  lemma {:induction false} ValuesSize(m: map<nat, nat>)
    ensures |m.Values| <= |m|
    decreases |m|
  {
    if m != map[] {
      var id :| id in m;
      var rest := m - {id};
      assert m.Keys == rest.Keys + {id} && |m| == |m.Keys| && |rest| == |rest.Keys|;
      ValuesSize(rest);
      assert m.Values == rest.Values + {m[id]};
    }
  }

  /** No more slots are filled than are named, and as many only if all of them are. */
  lemma FilledNamed(m: map<nat, nat>, base: Slots, avail: Slots)
    requires |base| == |avail| && Slotted(m, base)
    requires forall p :: 0 <= p < |base| && p !in m.Values ==> avail[p] == base[p]
    ensures Free(avail) <= Free(base) <= Free(avail) + |m|
    ensures Free(base) == Free(avail) + |m| ==> forall id :: id in m ==> m[id] < |avail| && avail[m[id]].Some?
  {
    hide Free;
    var b, a := FreeSet(base), FreeSet(avail);
    FreeSetSize(base);
    FreeSetSize(avail);
    ValuesSize(m);
    assert a <= b;
    assert b - a <= m.Values;
    assert |b - a| == |b| - |a|;
    SubsetSize(a, b);
    SubsetSize(b - a, m.Values);
    if |b| == |a| + |m| {
      forall id | id in m ensures m[id] < |avail| && avail[m[id]].Some? {
        assert m[id] in m.Values;
        assert m[id] in b - a;
      }
    }
  }

  lemma FullMeansMatched(short: nat -> nat, m: map<nat, nat>, base: Slots, avail: Slots, have: seq<bool>,
                         pool: seq<Offer>, count: int)
    requires Slotted(m, base) && Scanned(short, m, base, avail, have, pool, [])
    requires Counted(base, avail, count, 0) && count == |m|
    ensures AllMatched(short, m, pool)
  {
    hide Slotted, Free;
    FilledNamed(m, base, avail);
    forall id | id in m ensures |Matches(short, pool, id)| == 1 {
      assert SlotScanned(short, m[id], id, avail, have, pool, []);
      assert Matches(short, [], id) == [];
    }
  }

  /** A counter that wraps at 64 bits. */
  function Wrap(x: int): (w: nat)
    ensures w < 0x1_0000_0000_0000_0000
    ensures 0 <= x < 0x1_0000_0000_0000_0000 ==> w == x
  {
    x % 0x1_0000_0000_0000_0000
  }

  lemma WrapAdd(x: int, y: int)
    ensures Wrap(Wrap(x) + y) == Wrap(x + y)
  {
  }

  /** The counter of extra transactions after k of them. */
  ghost predicate ExtraCounted(short: nat -> nat, m: map<nat, nat>, pool: seq<Offer>, extra: seq<Offer>,
                               extra0: int, n: int)
  {
    n == Wrap(extra0 + Net(short, m, pool, extra))
  }

  lemma ExtraCountedStep(short: nat -> nat, m: map<nat, nat>, pool: seq<Offer>, extra: seq<Offer>, more: seq<Offer>,
                         extra0: int, n: int, delta: int)
    requires ExtraCounted(short, m, pool, extra, extra0, n)
    requires delta == Net(short, m, pool, more) - Net(short, m, pool, extra)
    ensures ExtraCounted(short, m, pool, more, extra0, Wrap(n + delta))
  {
    hide Net, Wrap;
    WrapAdd(extra0 + Net(short, m, pool, extra), delta);
  }

  /** The scan of the extra transactions; it looks at one even if the pool sufficed. */
  method ScanExtra(short: nat -> nat, m: map<nat, nat>, ghost base: Slots, avail0: Slots, have0: seq<bool>,
                   extra: seq<Offer>, count0: int, extra0: nat, ghost pool: seq<Offer>, ghost start: int)
    returns (avail: Slots, have: seq<bool>, count: int, extraCount: nat, ghost k: nat)
    requires Slotted(m, base) && Scanned(short, m, base, avail0, have0, pool, [])
             && Counted(base, avail0, count0, start)
    requires extra0 < 0x1_0000_0000_0000_0000
    ensures k <= |extra| && Scanned(short, m, base, avail, have, pool, extra[..k]) && Counted(base, avail, count, start)
    ensures k == |extra| || count == |m|
    ensures ExtraCounted(short, m, pool, extra[..k], extra0, extraCount)
  {
    hide *;
    avail, have, count, extraCount := avail0, have0, count0, extra0;
    assert extra[..0] == [];
    k := 0;
    ExtraCountedStart(short, m, pool, extra0);
    var i := 0;
    while i < |extra|
      invariant i == k <= |extra|
      invariant Scanned(short, m, base, avail, have, pool, extra[..k]) && Counted(base, avail, count, start)
      invariant ExtraCounted(short, m, pool, extra[..k], extra0, extraCount)
    {
      hide *;
      assert extra[..i + 1] == extra[..i] + [extra[i]];
      var delta;
      avail, have, count, delta := OfferExtra(short, m, avail, have, count, extra[i], base, pool, extra[..i], start);
      ExtraCountedStep(short, m, pool, extra[..i], extra[..i + 1], extra0, extraCount, delta);
      extraCount := Wrap(extraCount + delta);
      i, k := i + 1, k + 1;
      if count == |m| {
        break;
      }
    }
  }

  lemma ExtraCountedStart(short: nat -> nat, m: map<nat, nat>, pool: seq<Offer>, extra0: nat)
    requires extra0 < 0x1_0000_0000_0000_0000
    ensures ExtraCounted(short, m, pool, [], extra0, extra0)
  {
    forall id | id in m
      ensures Matches(short, [], id) == []
              && (|Matches(short, pool, id)| == 1 ==> Outcome(Matches(short, pool, id), []).Some?)
    {
    }
    assert FromExtra(short, m, pool, []) == {};
    assert Emptied(short, m, pool, []) == {};
  }

  /** Counted from zero, the counter is exact if and only if no extra transaction emptied a pool slot. */
  lemma ExtraCountExact(short: nat -> nat, m: map<nat, nat>, pool: seq<Offer>, extra: seq<Offer>, n: int)
    requires ExtraCounted(short, m, pool, extra, 0, n) && |m| < 0x1_0000_0000_0000_0000
    ensures n == |FromExtra(short, m, pool, extra)| <==> Emptied(short, m, pool, extra) == {}
  {
    var f, l := FromExtra(short, m, pool, extra), Emptied(short, m, pool, extra);
    assert f <= m.Keys && l <= m.Keys && |m.Keys| == |m|;
    SubsetSize(f, m.Keys);
    SubsetSize(l, m.Keys);
    assert l != {} ==> |l| >= 1;
  }

  /** One pool and one extra transaction with one short id: the counter wraps below zero. */
  lemma ExtraCountWraps(n: int)
    requires var a, b := Tx(1, false), Tx(2, false);
             ExtraCounted(_ => 7, map[7 := 1], [Offer(1, a)], [Offer(2, b)], 0, n)
    ensures n == 0xFFFF_FFFF_FFFF_FFFF
  {
    var a, b := Tx(1, false), Tx(2, false);
    var short: nat -> nat := _ => 7;
    var m: map<nat, nat> := map[7 := 1];
    assert [Offer(1, a)][..0] == [] && [Offer(2, b)][..0] == [];
    assert Matches(short, [Offer(1, a)], 7) == [a];
    assert Matches(short, [Offer(2, b)], 7) == [b];
    assert ([a] + [b])[1].hash != ([a] + [b])[0].hash;
    assert Outcome([a], [b]).None?;
    assert FromExtra(short, m, [Offer(1, a)], [Offer(2, b)]) == {};
    assert Emptied(short, m, [Offer(1, a)], [Offer(2, b)]) == {7};
  }
}
