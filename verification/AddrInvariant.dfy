/**
 * The consistency of the address manager's five linked indexes: the conditions that Check_
 * (src/addrman.cpp) tests, kept by every operation, for every hash function.
 */
module AddrInvariant {
  import opened Wrappers
  import opened Sets
  import opened AddrTables

  // ---------------------------------------------------------------------------
  // The invariant
  // ---------------------------------------------------------------------------

  ghost predicate HasAddr(s: Tables, id: int, a: NetAddr) {
    id in s.info && s.info[id].addr.net == a
  }

  /** mapAddr and mapInfo are inverse to each other, and ids were handed out in order. */
  ghost predicate AddrsOk(s: Tables) {
    && s.idCount >= 0
    && (forall id :: id in s.info ==>
          0 <= id < s.idCount && s.info[id].addr.net in s.addrs && s.addrs[s.info[id].addr.net] == id)
    && (forall a :: a in s.addrs ==> HasAddr(s, s.addrs[a], a))
  }

  ghost predicate HasRandomPos(s: Tables, id: int, p: int) {
    id in s.info && s.info[id].randomPos == p
  }

  /** vRandom and nRandomPos are inverse to each other. */
  ghost predicate RandomOk(s: Tables) {
    && (forall id :: id in s.info ==>
          0 <= s.info[id].randomPos < |s.random| && s.random[s.info[id].randomPos] == id)
    && (forall p :: 0 <= p < |s.random| ==> HasRandomPos(s, s.random[p], p))
  }

  ghost predicate NewAt(h: Hasher, s: Tables, id: int, slot: Slot) {
    && id in s.info && !s.info[id].inTried
    && slot.bucket < NEW_BUCKETS && slot == PlaceIn(h, slot.bucket, s.info[id].addr)
  }

  /** Every occupied place of the new table is the one the hash dictates for its entry. */
  ghost predicate NewOk(h: Hasher, s: Tables) {
    forall slot :: slot in s.newTab ==> NewAt(h, s, s.newTab[slot], slot)
  }

  ghost predicate TriedAt(h: Hasher, s: Tables, id: int, slot: Slot) {
    id in s.info && s.info[id].inTried && slot == TriedSlot(h, s.info[id].addr)
  }

  /** The tried entries are exactly the entries of the tried table, each at its only place. */
  ghost predicate TriedOk(h: Hasher, s: Tables) {
    && (forall slot :: slot in s.triedTab ==> TriedAt(h, s, s.triedTab[slot], slot))
    && (forall id :: id in s.info && s.info[id].inTried ==>
          && TriedSlot(h, s.info[id].addr) in s.triedTab
          && s.triedTab[TriedSlot(h, s.info[id].addr)] == id)
  }

  function SlotsIn(tab: map<Slot, int>, id: int): set<Slot> {
    set slot | slot in tab && tab[slot] == id
  }

  function SlotsOf(s: Tables, id: int): set<Slot> {
    SlotsIn(s.newTab, id)
  }

  /** Reference counts are the exact numbers of places; only `idle` entries are in no table. */
  ghost predicate RefsOk(s: Tables, idle: set<int>) {
    && (forall id :: id in idle ==> id in s.info)
    && (forall id :: id in s.info ==>
          && s.info[id].refCount == |SlotsOf(s, id)| <= MAX_REFS
          && (id in idle || s.info[id].inTried <==> s.info[id].refCount == 0)
          && (id in idle ==> !s.info[id].inTried))
  }

  function IdsIn(info: map<int, Info>, tried: bool): set<int> {
    set id | id in info && info[id].inTried == tried
  }

  function NewIds(s: Tables): set<int> {
    IdsIn(s.info, false)
  }

  function TriedIds(s: Tables): set<int> {
    IdsIn(s.info, true)
  }

  lemma IdsUpdate(info: map<int, Info>, id: int, i: Info, tried: bool)
    ensures IdsIn(info[id := i], tried)
            == if i.inTried == tried then IdsIn(info, tried) + {id} else IdsIn(info, tried) - {id}
    ensures id in IdsIn(info, tried) <==> id in info && info[id].inTried == tried
  {
    assert forall x :: x in IdsIn(info[id := i], tried) <==>
                         if x == id then i.inTried == tried else x in IdsIn(info, tried);
  }

  /** nNew and nTried are exact, except that nNew leaves out the `uncounted` entries. */
  ghost predicate CountsOk(s: Tables, uncounted: set<int>) {
    && s.nTried == |TriedIds(s)|
    && (forall id :: id in uncounted ==> id in NewIds(s))
    && s.nNew == |NewIds(s)| - |uncounted|
  }

  /** The invariant in the middle of an operation. */
  ghost predicate Midway(h: Hasher, s: Tables, idle: set<int>, uncounted: set<int>) {
    AddrsOk(s) && RandomOk(s) && NewOk(h, s) && TriedOk(h, s) && RefsOk(s, idle) && CountsOk(s, uncounted)
    && forall id :: id in uncounted ==> id in idle
  }

  ghost predicate Inv(h: Hasher, s: Tables) {
    Midway(h, s, {}, {})
  }

  /** The conditions of Check_ on time stamps; they need positive times. */
  ghost predicate TimesOk(s: Tables) {
    forall id :: id in s.info ==>
      s.info[id].lastTry >= 0 && s.info[id].lastSuccess >= 0 && (s.info[id].inTried ==> s.info[id].lastSuccess != 0)
  }

  // ---------------------------------------------------------------------------
  // Random order
  // ---------------------------------------------------------------------------

  /** The same entry, possibly at another random position. */
  ghost predicate SameEntry(i: Info, j: Info) {
    j == i.(randomPos := j.randomPos)
  }

  /** `t` is `s` with another random order. */
  ghost predicate Reordered(s: Tables, t: Tables) {
    && (forall id :: id in t.info <==> id in s.info)
    && (forall id :: id in t.info ==> SameEntry(s.info[id], t.info[id]))
    && t == s.(info := t.info, random := t.random)
  }

  /** Entries on the same side of the new/tried divide give the same counts. */
  lemma SameIds(s: Tables, t: Tables)
    requires forall id :: id in t.info <==> id in s.info
    requires forall id :: id in t.info ==> t.info[id].inTried == s.info[id].inTried
    ensures NewIds(t) == NewIds(s) && TriedIds(t) == TriedIds(s)
  {
    assert forall id :: id in NewIds(t) <==> id in NewIds(s);
    assert forall id :: id in TriedIds(t) <==> id in TriedIds(s);
  }

  lemma ReorderedKeeps(h: Hasher, s: Tables, t: Tables, idle: set<int>, uncounted: set<int>)
    requires Midway(h, s, idle, uncounted) && Reordered(s, t) && RandomOk(t)
    ensures Midway(h, t, idle, uncounted)
  {
    SameIds(s, t);
    hide NewIds, TriedIds, SlotsIn;
    ReorderedTables(h, s, t);
  }

  lemma ReorderedTables(h: Hasher, s: Tables, t: Tables)
    requires Reordered(s, t) && AddrsOk(s) && NewOk(h, s) && TriedOk(h, s)
    ensures AddrsOk(t) && NewOk(h, t) && TriedOk(h, t)
  {
    forall slot | slot in t.newTab ensures NewAt(h, t, t.newTab[slot], slot) {
      assert NewAt(h, s, s.newTab[slot], slot);
    }
    forall slot | slot in t.triedTab ensures TriedAt(h, t, t.triedTab[slot], slot) {
      assert TriedAt(h, s, s.triedTab[slot], slot);
    }
    forall a | a in t.addrs ensures HasAddr(t, t.addrs[a], a) {
      assert HasAddr(s, s.addrs[a], a);
    }
  }

  lemma SwapRandomOk(s: Tables, i: int, j: int)
    requires RandomOk(s) && 0 <= i < |s.random| && 0 <= j < |s.random|
    ensures CanSwap(s, i, j)
    ensures RandomOk(SwapRandom(s, i, j)) && Reordered(s, SwapRandom(s, i, j))
  {
    var t := SwapRandom(s, i, j);
    assert HasRandomPos(s, s.random[i], i) && HasRandomPos(s, s.random[j], j);
    var a, b := s.random[i], s.random[j];
    if i != j {
      assert a != b;
      assert t.random == s.random[i := b][j := a];
      assert t.info == s.info[a := s.info[a].(randomPos := j)][b := s.info[b].(randomPos := i)];
      forall p | 0 <= p < |t.random| ensures HasRandomPos(t, t.random[p], p) {
        assert HasRandomPos(s, s.random[p], p);
      }
      forall id | id in t.info
        ensures 0 <= t.info[id].randomPos < |t.random| && t.random[t.info[id].randomPos] == id
      {
        assert id in s.info;
      }
    }
  }

  lemma SwapKeeps(h: Hasher, s: Tables, i: int, j: int, idle: set<int>, uncounted: set<int>)
    requires Midway(h, s, idle, uncounted) && 0 <= i < |s.random| && 0 <= j < |s.random|
    ensures Midway(h, SwapRandom(s, i, j), idle, uncounted) && Reordered(s, SwapRandom(s, i, j))
    ensures |SwapRandom(s, i, j).random| == |s.random|
  {
    SwapRandomOk(s, i, j);
    ReorderedKeeps(h, s, SwapRandom(s, i, j), idle, uncounted);
  }

  /** The name and random indexes depend only on addresses and random positions. */
  lemma SameNames(s: Tables, t: Tables)
    requires AddrsOk(s) && RandomOk(s)
    requires forall id :: id in t.info <==> id in s.info
    requires forall id :: id in t.info ==>
               t.info[id].addr == s.info[id].addr && t.info[id].randomPos == s.info[id].randomPos
    requires t.addrs == s.addrs && t.random == s.random && t.idCount == s.idCount
    ensures AddrsOk(t) && RandomOk(t)
  {
    forall a | a in t.addrs ensures HasAddr(t, t.addrs[a], a) {
      assert HasAddr(s, s.addrs[a], a);
    }
    forall p | 0 <= p < |t.random| ensures HasRandomPos(t, t.random[p], p) {
      assert HasRandomPos(s, s.random[p], p);
    }
  }

  // ---------------------------------------------------------------------------
  // Deleting an entry
  // ---------------------------------------------------------------------------

  /** Taking the entry at the end of the random order out of the three maps. */
  function RemoveLast(s: Tables, id: int): Tables
    requires id in s.info && s.random != []
  {
    s.(random := s.random[..|s.random| - 1], addrs := s.addrs - {s.info[id].addr.net},
       info := s.info - {id}, nNew := s.nNew - 1)
  }

  lemma NoSlots(s: Tables, id: int)
    requires SlotsOf(s, id) == {}
    ensures forall slot :: slot in s.newTab ==> s.newTab[slot] != id
  {
    forall slot | slot in s.newTab ensures s.newTab[slot] != id {
      assert slot !in SlotsOf(s, id);
    }
  }

  lemma RemoveLastAddrs(s: Tables, id: int)
    requires AddrsOk(s) && RandomOk(s) && id in s.info && s.info[id].randomPos == |s.random| - 1
    ensures AddrsOk(RemoveLast(s, id)) && RandomOk(RemoveLast(s, id))
  {
    var t := RemoveLast(s, id);
    forall p | 0 <= p < |t.random| ensures HasRandomPos(t, t.random[p], p) {
      assert HasRandomPos(s, s.random[p], p);
    }
    forall a | a in t.addrs ensures HasAddr(t, t.addrs[a], a) {
      assert HasAddr(s, s.addrs[a], a);
    }
  }

  lemma RemoveLastTables(h: Hasher, s: Tables, id: int)
    requires NewOk(h, s) && TriedOk(h, s) && id in s.info && s.random != []
    requires SlotsOf(s, id) == {} && !s.info[id].inTried
    ensures NewOk(h, RemoveLast(s, id)) && TriedOk(h, RemoveLast(s, id))
  {
    var t := RemoveLast(s, id);
    NoSlots(s, id);
    forall slot | slot in t.newTab ensures NewAt(h, t, t.newTab[slot], slot) {
      assert NewAt(h, s, s.newTab[slot], slot);
    }
    forall slot | slot in t.triedTab ensures TriedAt(h, t, t.triedTab[slot], slot) {
      assert TriedAt(h, s, s.triedTab[slot], slot);
    }
  }

  lemma RemoveLastCounts(s: Tables, id: int, idle: set<int>, uncounted: set<int>)
    requires RefsOk(s, idle) && CountsOk(s, uncounted) && id in idle && id !in uncounted && s.random != []
    ensures RefsOk(RemoveLast(s, id), idle - {id}) && CountsOk(RemoveLast(s, id), uncounted)
  {
    var t := RemoveLast(s, id);
    assert forall x :: SlotsOf(t, x) == SlotsOf(s, x);
    assert forall x :: x in NewIds(t) <==> x in NewIds(s) - {id};
    assert NewIds(t) == NewIds(s) - {id} && id in NewIds(s);
    assert forall x :: x in TriedIds(t) <==> x in TriedIds(s);
    assert TriedIds(t) == TriedIds(s);
  }

  /** What Delete leaves alone: everything but the deleted entry and the random order. */
  ghost predicate OnlyDeleted(s: Tables, t: Tables, id: int) {
    && (forall x :: x in t.info <==> x in s.info && x != id)
    && (forall x :: x in t.info ==> SameEntry(s.info[x], t.info[x]))
    && t == s.(info := t.info, addrs := t.addrs, random := t.random, nNew := s.nNew - 1)
  }

  lemma SwapToLast(s: Tables, id: int)
    requires RandomOk(s) && id in s.info
    ensures var t := SwapRandom(s, s.info[id].randomPos, |s.random| - 1);
            && Reordered(s, t) && RandomOk(t) && id in t.info
            && |t.random| == |s.random| > 0 && t.info[id].randomPos == |t.random| - 1
  {
    var i, last := s.info[id].randomPos, |s.random| - 1;
    SwapRandomOk(s, i, last);
    assert SwapRandom(s, i, last).random[last] == id;
    hide SwapRandom;
    assert HasRandomPos(SwapRandom(s, i, last), SwapRandom(s, i, last).random[last], last);
  }

  lemma DeleteOnly(s: Tables, id: int)
    requires RandomOk(s) && id in s.info
    ensures OnlyDeleted(s, Delete(s, id), id)
    ensures var t := SwapRandom(s, s.info[id].randomPos, |s.random| - 1);
            && Reordered(s, t) && RandomOk(t) && id in t.info && t.random != []
            && t.info[id].randomPos == |t.random| - 1 && Delete(s, id) == RemoveLast(t, id)
  {
    hide SwapRandom, RandomOk;
    SwapToLast(s, id);
  }

  lemma DeleteKeeps(h: Hasher, s: Tables, id: int, idle: set<int>, uncounted: set<int>)
    requires Midway(h, s, idle, uncounted) && id in idle && id !in uncounted
    ensures Midway(h, Delete(s, id), idle - {id}, uncounted)
    ensures OnlyDeleted(s, Delete(s, id), id)
  {
    assert id in s.info && !s.info[id].inTried && SlotsOf(s, id) == {};
    hide *;
    var t := SwapRandom(s, s.info[id].randomPos, |s.random| - 1);
    DeleteOnly(s, id);
    ReorderedKeeps(h, s, t, idle, uncounted);
    RemoveLastAddrs(t, id);
    RemoveLastTables(h, t, id);
    RemoveLastCounts(t, id, idle, uncounted);
  }

  // ---------------------------------------------------------------------------
  // References
  // ---------------------------------------------------------------------------

  /** Changing what the indexes do not depend on in one entry, and dropping places. */
  lemma EntryIndexes(h: Hasher, s: Tables, t: Tables, id: int, i: Info)
    requires NewOk(h, s) && TriedOk(h, s)
    requires id in s.info && SameButStats(s.info[id], i)
    requires t == SetInfo(s, id, i).(newTab := t.newTab, lastGood := t.lastGood)
    requires forall slot :: slot in t.newTab ==> slot in s.newTab && t.newTab[slot] == s.newTab[slot]
    ensures NewOk(h, t) && TriedOk(h, t)
  {
    forall slot | slot in t.newTab ensures NewAt(h, t, t.newTab[slot], slot) {
      assert NewAt(h, s, s.newTab[slot], slot);
    }
    forall slot | slot in t.triedTab ensures TriedAt(h, t, t.triedTab[slot], slot) {
      assert TriedAt(h, s, s.triedTab[slot], slot);
    }
  }

  lemma SlotsDropped(s: Tables, t: Tables, slot: Slot)
    requires slot in s.newTab && t.newTab == s.newTab - {slot}
    ensures forall x :: |SlotsOf(t, x)| == |SlotsOf(s, x)| - if x == s.newTab[slot] then 1 else 0
  {
    forall x ensures |SlotsOf(t, x)| == |SlotsOf(s, x)| - if x == s.newTab[slot] then 1 else 0 {
      assert forall y :: y in SlotsOf(t, x) <==> y in SlotsOf(s, x) && y != slot;
      assert SlotsOf(t, x) == SlotsOf(s, x) - {slot};
      assert slot in SlotsOf(s, x) <==> x == s.newTab[slot];
    }
  }

  lemma SlotAdded(tab: map<Slot, int>, id: int, slot: Slot, x: int)
    requires slot !in tab
    ensures |SlotsIn(tab[slot := id], x)| == |SlotsIn(tab, x)| + if x == id then 1 else 0
  {
    var t := SlotsIn(tab[slot := id], x);
    assert forall y :: y in t <==> y in SlotsIn(tab, x) || (x == id && y == slot);
    assert t == if x == id then SlotsIn(tab, x) + {slot} else SlotsIn(tab, x);
  }

  lemma SlotsAdded(s: Tables, t: Tables, id: int, slot: Slot)
    requires slot !in s.newTab && t.newTab == s.newTab[slot := id]
    ensures forall x :: |SlotsOf(t, x)| == |SlotsOf(s, x)| + if x == id then 1 else 0
  {
    hide SlotsIn;
    forall x ensures |SlotsOf(t, x)| == |SlotsOf(s, x)| + if x == id then 1 else 0 {
      SlotAdded(s.newTab, id, slot, x);
    }
  }

  lemma DropSlotCounts(s: Tables, slot: Slot, idle: set<int>, uncounted: set<int>)
    requires RefsOk(s, idle) && CountsOk(s, uncounted) && slot in s.newTab && s.newTab[slot] in s.info
    requires !s.info[s.newTab[slot]].inTried
    ensures var id := s.newTab[slot];
            && s.info[id].refCount > 0 && id !in idle
            && RefsOk(DropSlot(s, slot), idle + if s.info[id].refCount == 1 then {id} else {})
            && CountsOk(DropSlot(s, slot), uncounted)
  {
    var id := s.newTab[slot];
    assert slot in SlotsOf(s, id);
    SameIds(s, DropSlot(s, slot));
    hide NewIds, TriedIds, SlotsOf;
    SlotsDropped(s, DropSlot(s, slot), slot);
  }

  lemma HolderOf(h: Hasher, s: Tables, slot: Slot)
    requires NewOk(h, s) && slot in s.newTab
    ensures NewAt(h, s, s.newTab[slot], slot)
  {
  }

  lemma TriedHolderOf(h: Hasher, s: Tables, slot: Slot, idle: set<int>)
    requires TriedOk(h, s) && RefsOk(s, idle) && slot in s.triedTab
    ensures TriedAt(h, s, s.triedTab[slot], slot)
    ensures s.info[s.triedTab[slot]].refCount == 0 && s.triedTab[slot] !in idle
  {
    assert TriedAt(h, s, s.triedTab[slot], slot);
  }

  lemma IdleEntry(s: Tables, id: int, idle: set<int>)
    requires RefsOk(s, idle) && id in idle
    ensures id in s.info && s.info[id].refCount == 0 && !s.info[id].inTried && SlotsOf(s, id) == {}
  {
    assert id in s.info && s.info[id].refCount == |SlotsOf(s, id)|;
  }

  lemma DropSlotKeeps(h: Hasher, s: Tables, slot: Slot, idle: set<int>, uncounted: set<int>)
    requires Midway(h, s, idle, uncounted) && slot in s.newTab
    ensures s.newTab[slot] in s.info && s.info[s.newTab[slot]].refCount > 0 && s.newTab[slot] !in idle
    ensures var id := s.newTab[slot];
            Midway(h, DropSlot(s, slot), idle + (if s.info[id].refCount == 1 then {id} else {}), uncounted)
  {
    hide AddrsOk, RandomOk, NewOk, TriedOk, RefsOk, CountsOk;
    var id := s.newTab[slot];
    HolderOf(h, s, slot);
    var t := DropSlot(s, slot);
    DropSlotCounts(s, slot, idle, uncounted);
    EntryIndexes(h, s, t, id, s.info[id].(refCount := s.info[id].refCount - 1));
    SameNames(s, t);
  }

  /** What the indexes need of an entry is unchanged; its reference count may differ. */
  ghost predicate SameButStats(i: Info, j: Info) {
    j.addr == i.addr && j.inTried == i.inTried && j.randomPos == i.randomPos
  }

  /** The entry that ClearNew deletes: the only holder of the place, if any. */
  function Cleared(s: Tables, slot: Slot): set<int> {
    if slot in s.newTab && s.newTab[slot] in s.info && s.info[s.newTab[slot]].refCount == 1
    then {s.newTab[slot]} else {}
  }

  /** What ClearNew leaves alone. */
  ghost predicate OnlyCleared(s: Tables, t: Tables, slot: Slot) {
    && (forall x :: x in t.info <==> x in s.info && x !in Cleared(s, slot))
    && (forall x :: x in t.info ==> SameEntry(s.info[x], t.info[x].(refCount := s.info[x].refCount)))
    && (forall x :: x in t.info && (slot in s.newTab ==> x != s.newTab[slot]) ==> SameEntry(s.info[x], t.info[x]))
    && t == s.(info := t.info, addrs := t.addrs, random := t.random, nNew := t.nNew, newTab := s.newTab - {slot})
  }

  lemma ClearNewKeeps(h: Hasher, s: Tables, slot: Slot, idle: set<int>, uncounted: set<int>)
    requires Midway(h, s, idle, uncounted)
    ensures Midway(h, ClearNew(s, slot), idle, uncounted)
    ensures OnlyCleared(s, ClearNew(s, slot), slot)
    ensures forall id :: id in Cleared(s, slot) ==> id !in idle
  {
    hide AddrsOk, RandomOk, NewOk, TriedOk, RefsOk, CountsOk;
    if slot in s.newTab {
      var id := s.newTab[slot];
      DropSlotKeeps(h, s, slot, idle, uncounted);
      var t := DropSlot(s, slot);
      if t.info[id].refCount == 0 {
        DeleteKeeps(h, t, id, idle + {id}, uncounted);
        assert idle + {id} - {id} == idle;
      } else {
        assert idle + {} == idle;
      }
    } else {
      assert s.newTab - {slot} == s.newTab;
    }
  }

  lemma StatsCounts(s: Tables, id: int, i: Info, idle: set<int>, uncounted: set<int>)
    requires RefsOk(s, idle) && CountsOk(s, uncounted) && id in s.info
    requires SameButStats(s.info[id], i) && i.refCount == s.info[id].refCount
    ensures RefsOk(SetInfo(s, id, i), idle) && CountsOk(SetInfo(s, id, i), uncounted)
  {
    var t := SetInfo(s, id, i);
    assert forall x :: SlotsOf(t, x) == SlotsOf(s, x);
    SameIds(s, t);
    hide NewIds, TriedIds, SlotsOf;
  }

  /** Time stamps, services and attempt counts are free to change. */
  lemma StatsKeeps(h: Hasher, s: Tables, id: int, i: Info, idle: set<int>, uncounted: set<int>)
    requires Midway(h, s, idle, uncounted) && id in s.info
    requires SameButStats(s.info[id], i) && i.refCount == s.info[id].refCount
    ensures Midway(h, SetInfo(s, id, i), idle, uncounted)
  {
    hide AddrsOk, RandomOk, NewOk, TriedOk, RefsOk, CountsOk;
    EntryIndexes(h, s, SetInfo(s, id, i), id, i);
    SameNames(s, SetInfo(s, id, i));
    StatsCounts(s, id, i, idle, uncounted);
  }

  /** A place is added to an entry that is in the new table or in none. */
  lemma AddSlotIndexes(h: Hasher, s: Tables, id: int, slot: Slot)
    requires NewOk(h, s) && TriedOk(h, s)
    requires slot !in s.newTab && NewAt(h, s, id, slot)
    ensures var t := AddSlot(s, id, slot); NewOk(h, t) && TriedOk(h, t)
  {
    var t := AddSlot(s, id, slot);
    forall x | x in t.newTab ensures NewAt(h, t, t.newTab[x], x) {
      assert x != slot ==> NewAt(h, s, s.newTab[x], x);
    }
    forall x | x in t.triedTab ensures TriedAt(h, t, t.triedTab[x], x) {
      assert TriedAt(h, s, s.triedTab[x], x);
    }
  }

  lemma AddSlotCounts(s: Tables, id: int, slot: Slot, idle: set<int>, uncounted: set<int>)
    requires RefsOk(s, idle) && CountsOk(s, uncounted) && id in s.info && !s.info[id].inTried
    requires slot !in s.newTab && s.info[id].refCount < MAX_REFS
    ensures RefsOk(AddSlot(s, id, slot), idle - {id}) && CountsOk(AddSlot(s, id, slot), uncounted)
  {
    SameIds(s, AddSlot(s, id, slot));
    hide NewIds, TriedIds, SlotsOf;
    SlotsAdded(s, AddSlot(s, id, slot), id, slot);
  }

  lemma AddSlotKeeps(h: Hasher, s: Tables, id: int, slot: Slot, idle: set<int>, uncounted: set<int>)
    requires Midway(h, s, idle, uncounted) && id !in uncounted
    requires slot !in s.newTab && NewAt(h, s, id, slot) && s.info[id].refCount < MAX_REFS
    ensures Midway(h, AddSlot(s, id, slot), idle - {id}, uncounted)
  {
    hide AddrsOk, RandomOk, NewOk, TriedOk, RefsOk, CountsOk;
    AddSlotIndexes(h, s, id, slot);
    SameNames(s, AddSlot(s, id, slot));
    AddSlotCounts(s, id, slot, idle, uncounted);
  }

  // ---------------------------------------------------------------------------
  // Adding an address
  // ---------------------------------------------------------------------------

  lemma CreateIndexes(h: Hasher, s: Tables, m: Announce)
    requires AddrsOk(s) && RandomOk(s) && NewOk(h, s) && TriedOk(h, s) && m.addr.net !in s.addrs
    ensures var t := CreateNew(s, m); AddrsOk(t) && RandomOk(t) && NewOk(h, t) && TriedOk(h, t)
  {
    assert s.idCount !in s.info;
    CreateNames(s, m);
    CreatedParts(s, m);
    hide AddrsOk, RandomOk, CreateNew, TriedSlot, PlaceIn;
    var t := CreateNew(s, m);
    forall slot | slot in t.newTab ensures NewAt(h, t, t.newTab[slot], slot) {
      assert NewAt(h, s, s.newTab[slot], slot);
    }
    forall slot | slot in t.triedTab ensures TriedAt(h, t, t.triedTab[slot], slot) {
      assert TriedAt(h, s, s.triedTab[slot], slot);
    }
  }

  lemma CreatedParts(s: Tables, m: Announce)
    ensures var t, id := CreateNew(s, m), s.idCount;
            && id in t.info && t.info == s.info[id := t.info[id]] && !t.info[id].inTried && t.info[id].refCount == 0
            && t.newTab == s.newTab && t.triedTab == s.triedTab && t.nNew == s.nNew + 1 && t.nTried == s.nTried
  {
  }

  lemma CreateNames(s: Tables, m: Announce)
    requires AddrsOk(s) && RandomOk(s) && m.addr.net !in s.addrs
    ensures AddrsOk(CreateNew(s, m)) && RandomOk(CreateNew(s, m))
  {
    var t := CreateNew(s, m);
    forall a | a in t.addrs ensures HasAddr(t, t.addrs[a], a) {
      assert a != m.addr.net ==> HasAddr(s, s.addrs[a], a);
    }
    forall p | 0 <= p < |t.random| ensures HasRandomPos(t, t.random[p], p) {
      assert p < |s.random| ==> HasRandomPos(s, s.random[p], p);
    }
  }

  /** An id that is not in use has no place in the new table. */
  lemma UnusedHasNoSlots(h: Hasher, s: Tables, id: int)
    requires NewOk(h, s) && id !in s.info
    ensures SlotsOf(s, id) == {}
  {
    forall slot | slot in s.newTab ensures s.newTab[slot] != id {
      assert NewAt(h, s, s.newTab[slot], slot);
    }
  }

  lemma CreateCounts(h: Hasher, s: Tables, m: Announce)
    requires NewOk(h, s) && RefsOk(s, {}) && CountsOk(s, {}) && s.idCount !in s.info
    ensures RefsOk(CreateNew(s, m), {s.idCount}) && CountsOk(CreateNew(s, m), {})
  {
    var t, id := CreateNew(s, m), s.idCount;
    CreatedParts(s, m);
    UnusedHasNoSlots(h, s, id);
    hide CreateNew, NewOk, RefsOk, CountsOk;
    CreatedRefs(s, t, id);
    CreatedCounts(s, t, id);
  }

  lemma CreatedRefs(s: Tables, t: Tables, id: int)
    requires RefsOk(s, {}) && id !in s.info && SlotsOf(s, id) == {} && t.newTab == s.newTab
    requires id in t.info && t.info == s.info[id := t.info[id]] && !t.info[id].inTried && t.info[id].refCount == 0
    ensures RefsOk(t, {id})
  {
    assert SlotsOf(t, id) == SlotsOf(s, id);
    hide SlotsIn;
    forall x | x in t.info ensures t.info[x].refCount == |SlotsOf(t, x)| <= MAX_REFS {
      assert x != id ==> x in s.info && s.info[x].refCount == |SlotsOf(s, x)|;
    }
  }

  lemma CreatedCounts(s: Tables, t: Tables, id: int)
    requires CountsOk(s, {}) && id !in s.info
    requires id in t.info && t.info == s.info[id := t.info[id]] && !t.info[id].inTried
    requires t.nNew == s.nNew + 1 && t.nTried == s.nTried
    ensures CountsOk(t, {})
  {
    IdsUpdate(s.info, id, t.info[id], false);
    IdsUpdate(s.info, id, t.info[id], true);
    hide IdsIn;
    assert TriedIds(t) == TriedIds(s);
  }

  lemma CreateKeeps(h: Hasher, s: Tables, m: Announce)
    requires Inv(h, s) && m.addr.net !in s.addrs
    ensures Midway(h, CreateNew(s, m), {s.idCount}, {})
    ensures s.idCount !in s.info
  {
    assert s.idCount !in s.info;
    hide *;
    CreateIndexes(h, s, m);
    CreateCounts(h, s, m);
  }

  /** Place turns an entry with no reference into one with a reference, or deletes it. */
  lemma PlaceKeeps(h: Hasher, s: Tables, id: int, source: NetAddr, now: int)
    requires id in s.info && !s.info[id].inTried && s.info[id].refCount < MAX_REFS
    requires Midway(h, s, if s.info[id].refCount == 0 then {id} else {}, {})
    ensures Inv(h, Place(h, s, id, source, now))
  {
    var idle := if s.info[id].refCount == 0 then {id} else {};
    var slot := NewSlot(h, s.info[id].addr, source);
    HolderCounts(s, id, slot, idle);
    hide AddrsOk, RandomOk, NewOk, TriedOk, RefsOk, CountsOk, Delete, ClearNew, MayTake, AddSlot, NewSlot;
    if slot in s.newTab && s.newTab[slot] == id {
      assert idle == {};
    } else if MayTake(s, slot, s.info[id].refCount, now) {
      TakeKeeps(h, s, id, source, idle);
      assert idle - {id} == {};
    } else if s.info[id].refCount == 0 {
      DeleteKeeps(h, s, id, idle, {});
      assert idle - {id} == {};
    }
  }

  lemma HolderCounts(s: Tables, id: int, slot: Slot, idle: set<int>)
    requires RefsOk(s, idle) && id in s.info
    ensures slot in s.newTab && s.newTab[slot] == id ==> s.info[id].refCount > 0
  {
    assert slot in s.newTab && s.newTab[slot] == id ==> slot in SlotsOf(s, id);
  }

  /** Taking a place: whatever was there is cleared first, and that is never `id` itself. */
  lemma TakeKeeps(h: Hasher, s: Tables, id: int, source: NetAddr, idle: set<int>)
    requires id in s.info && !s.info[id].inTried && s.info[id].refCount < MAX_REFS && Midway(h, s, idle, {})
    requires var slot := NewSlot(h, s.info[id].addr, source); slot in s.newTab ==> s.newTab[slot] != id
    ensures var slot := NewSlot(h, s.info[id].addr, source);
            var t := ClearNew(s, slot);
            id in t.info && Midway(h, AddSlot(t, id, slot), idle - {id}, {})
  {
    hide AddrsOk, RandomOk, NewOk, TriedOk, RefsOk, CountsOk, Midway, ClearNew, AddSlot;
    var slot := NewSlot(h, s.info[id].addr, source);
    var t := ClearNew(s, slot);
    ClearNewKeeps(h, s, slot, idle, {});
    assert id in t.info && SameEntry(s.info[id], t.info[id]);
    assert NewAt(h, t, id, slot);
    AddSlotKeeps(h, t, id, slot, idle, {});
  }

  // ---------------------------------------------------------------------------
  // Promotion
  // ---------------------------------------------------------------------------

  /** MakeTried finds every reference: each is at the place the hash dictates. */
  lemma FoundAll(h: Hasher, s: Tables, id: int)
    requires NewOk(h, s) && id in s.info
    ensures FoundIn(h, s, id, NEW_BUCKETS) == SlotsOf(s, id)
  {
    forall slot | slot in SlotsOf(s, id) ensures slot in FoundIn(h, s, id, NEW_BUCKETS) {
      assert NewAt(h, s, s.newTab[slot], slot);
    }
  }

  function Unlinked(h: Hasher, s: Tables, id: int): Tables
    requires id in s.info
  {
    Unlink(h, s, id, NEW_BUCKETS).(nNew := s.nNew - 1)
  }

  lemma UnlinkKeeps(h: Hasher, s: Tables, id: int)
    requires Inv(h, s) && id in s.info && !s.info[id].inTried
    ensures Midway(h, Unlinked(h, s, id), {id}, {id})
    ensures Unlinked(h, s, id).info == s.info[id := s.info[id].(refCount := 0)]
    ensures Unlinked(h, s, id).newTab == s.newTab - SlotsOf(s, id)
    ensures Unlinked(h, s, id).triedTab == s.triedTab
  {
    hide AddrsOk, RandomOk, NewOk, TriedOk, RefsOk, CountsOk, Unlink;
    var t := Unlinked(h, s, id);
    var i := s.info[id].(refCount := 0);
    UnlinkIs(h, s, id);
    UnlinkCounts(s, t, id);
    var u := t.(nNew := s.nNew);
    EntryIndexes(h, s, u, id, i);
    NewCountFree(h, u, t);
    SameNames(s, t);
  }

  lemma UnlinkIs(h: Hasher, s: Tables, id: int)
    requires Inv(h, s) && id in s.info && !s.info[id].inTried
    ensures Unlinked(h, s, id) == SetInfo(s, id, s.info[id].(refCount := 0)).(newTab := s.newTab - SlotsOf(s, id),
                                                                              nNew := s.nNew - 1)
  {
    FoundAll(h, s, id);
    assert s.info[id].refCount == |SlotsOf(s, id)|;
    hide FoundIn;
  }

  lemma NewCountFree(h: Hasher, s: Tables, t: Tables)
    requires NewOk(h, s) && TriedOk(h, s)
    requires t == s.(nNew := t.nNew)
    ensures NewOk(h, t) && TriedOk(h, t)
  {
    forall slot | slot in t.newTab ensures NewAt(h, t, t.newTab[slot], slot) {
      assert NewAt(h, s, s.newTab[slot], slot);
    }
    forall slot | slot in t.triedTab ensures TriedAt(h, t, t.triedTab[slot], slot) {
      assert TriedAt(h, s, s.triedTab[slot], slot);
    }
  }

  lemma UnlinkCounts(s: Tables, t: Tables, id: int)
    requires RefsOk(s, {}) && CountsOk(s, {}) && id in s.info && !s.info[id].inTried
    requires t == SetInfo(s, id, s.info[id].(refCount := 0)).(newTab := s.newTab - SlotsOf(s, id), nNew := s.nNew - 1)
    ensures RefsOk(t, {id}) && CountsOk(t, {id})
  {
    SameIds(s, t);
    assert id in NewIds(s);
    hide NewIds, TriedIds;
    forall x ensures SlotsOf(t, x) == if x == id then {} else SlotsOf(s, x) {
      assert forall y :: y in SlotsOf(t, x) <==> y in SlotsOf(s, x) && x != id;
    }
    hide SlotsOf;
  }

  /** A tried entry taken out of its place, in no table for the moment. */
  function Untried(s: Tables, id: int, slot: Slot): Tables
    requires id in s.info
  {
    SetInfo(s, id, s.info[id].(inTried := false)).(triedTab := s.triedTab - {slot}, nTried := s.nTried - 1)
  }

  lemma UntriedIndexes(h: Hasher, s: Tables, id: int, slot: Slot)
    requires NewOk(h, s) && TriedOk(h, s)
    requires slot in s.triedTab && s.triedTab[slot] == id && id in s.info
    ensures var t := Untried(s, id, slot); NewOk(h, t) && TriedOk(h, t)
  {
    var t := Untried(s, id, slot);
    assert TriedAt(h, s, s.triedTab[slot], slot);
    forall x | x in t.newTab ensures NewAt(h, t, t.newTab[x], x) {
      assert NewAt(h, s, s.newTab[x], x);
    }
    forall x | x in t.triedTab ensures TriedAt(h, t, t.triedTab[x], x) {
      assert TriedAt(h, s, s.triedTab[x], x);
    }
  }

  lemma UntriedCounts(s: Tables, id: int, slot: Slot, idle: set<int>, uncounted: set<int>)
    requires RefsOk(s, idle) && CountsOk(s, uncounted) && id in s.info && s.info[id].inTried
    ensures RefsOk(Untried(s, id, slot), idle + {id}) && CountsOk(Untried(s, id, slot), uncounted + {id})
  {
    hide IdsIn, SlotsIn;
    var t := Untried(s, id, slot);
    IdsUpdate(s.info, id, t.info[id], false);
    IdsUpdate(s.info, id, t.info[id], true);
    assert t.info == s.info[id := t.info[id]];
    assert id !in NewIds(s) && id !in uncounted;
  }

  lemma UntriedKeeps(h: Hasher, s: Tables, id: int, slot: Slot, idle: set<int>, uncounted: set<int>)
    requires Midway(h, s, idle, uncounted) && slot in s.triedTab && s.triedTab[slot] == id
    ensures id in s.info && s.info[id].inTried && id !in idle && s.info[id].refCount == 0
    ensures Midway(h, Untried(s, id, slot), idle + {id}, uncounted + {id})
  {
    hide AddrsOk, RandomOk, NewOk, TriedOk, RefsOk, CountsOk;
    TriedHolderOf(h, s, slot, idle);
    UntriedIndexes(h, s, id, slot);
    SameNames(s, Untried(s, id, slot));
    UntriedCounts(s, id, slot, idle, uncounted);
  }

  /** An uncounted entry is counted again. */
  lemma CountAgain(h: Hasher, s: Tables, id: int, idle: set<int>, uncounted: set<int>)
    requires Midway(h, s, idle, uncounted) && id in uncounted
    ensures Midway(h, s.(nNew := s.nNew + 1), idle, uncounted - {id})
  {
    var t := s.(nNew := s.nNew + 1);
    assert forall x :: SlotsOf(t, x) == SlotsOf(s, x);
    SameIds(s, t);
    hide NewIds, TriedIds, SlotsOf;
    assert RefsOk(t, idle) && CountsOk(t, uncounted - {id});
    hide AddrsOk, RandomOk, NewOk, TriedOk, RefsOk, CountsOk;
    NewCountFree(h, s, t);
    SameNames(s, t);
  }

  /** The place an evicted tried entry goes back to. */
  function Target(h: Hasher, i: Info): Slot {
    NewSlot(h, i.addr, i.source)
  }

  /** An entry in no table takes an empty place of the new table and is counted again. */
  lemma RejoinKeeps(h: Hasher, s: Tables, old_: int, target: Slot, id: int)
    requires id != old_ && Midway(h, s, {id} + {old_}, {id} + {old_}) && old_ in s.info
    requires target !in s.newTab && NewAt(h, s, old_, target) && s.info[old_].refCount == 0
    ensures Midway(h, AddSlot(s, old_, target).(nNew := s.nNew + 1), {id}, {id})
  {
    hide AddrsOk, RandomOk, NewOk, TriedOk, RefsOk, CountsOk;
    CountAgain(h, s, old_, {id} + {old_}, {id} + {old_});
    assert {id} + {old_} - {old_} == {id};
    var v := s.(nNew := s.nNew + 1);
    AddSlotKeeps(h, v, old_, target, {id} + {old_}, {id});
    assert AddSlot(v, old_, target) == AddSlot(s, old_, target).(nNew := s.nNew + 1);
  }

  ghost predicate OnlyEvicted(h: Hasher, s: Tables, t: Tables, slot: Slot)
    requires slot in s.triedTab && s.triedTab[slot] in s.info
  {
    && (forall x :: x in t.info <==> x in s.info && x !in Cleared(s, Target(h, s.info[s.triedTab[slot]])))
    && t.triedTab == s.triedTab - {slot}
    && t.newTab == s.newTab[Target(h, s.info[s.triedTab[slot]]) := s.triedTab[slot]]
    && (forall x :: x in t.info ==> SameAddr(s.info[x], t.info[x]))
    && (forall x :: x in t.info && x != s.triedTab[slot] ==> t.info[x].inTried == s.info[x].inTried)
  }

  lemma EvictKeeps(h: Hasher, s: Tables, slot: Slot, id: int)
    requires Midway(h, s, {id}, {id}) && slot in s.triedTab
    ensures s.triedTab[slot] in s.info && s.triedTab[slot] != id
    ensures Midway(h, Evict(h, s, slot), {id}, {id})
    ensures OnlyEvicted(h, s, Evict(h, s, slot), slot)
    ensures id in Evict(h, s, slot).info
    ensures s.triedTab[slot] in Evict(h, s, slot).info && !Evict(h, s, slot).info[s.triedTab[slot]].inTried
  {
    hide AddrsOk, RandomOk, NewOk, TriedOk, RefsOk, CountsOk, NewSlot, ClearNew;
    var old_ := s.triedTab[slot];
    UntriedKeeps(h, s, old_, slot, {id}, {id});
    var t := Untried(s, old_, slot);
    var target := Target(h, s.info[old_]);
    var two := {id} + {old_};
    ClearNewKeeps(h, t, target, two, two);
    IdleEntry(t, id, two);
    IdleEntry(t, old_, two);
    var u := ClearNew(t, target);
    EvictTail(h, u, old_, target, id, s.info[old_]);
    EvictOnly(h, s, t, u, slot);
  }

  lemma EvictOnly(h: Hasher, s: Tables, t: Tables, u: Tables, slot: Slot)
    requires slot in s.triedTab && s.triedTab[slot] in s.info
    requires t == Untried(s, s.triedTab[slot], slot)
    requires u == ClearNew(t, Target(h, s.info[s.triedTab[slot]])) && s.triedTab[slot] in u.info
    requires OnlyCleared(t, u, Target(h, s.info[s.triedTab[slot]])) && u.info[s.triedTab[slot]].refCount == 0
    ensures Evict(h, s, slot) == AddSlot(u, s.triedTab[slot], Target(h, s.info[s.triedTab[slot]])).(nNew := u.nNew + 1)
    ensures OnlyEvicted(h, s, Evict(h, s, slot), slot)
  {
    hide NewSlot, ClearNew;
    var old_ := s.triedTab[slot];
    var target := Target(h, s.info[old_]);
    assert Cleared(t, target) == Cleared(s, target);
    var v := Evict(h, s, slot);
    assert v == AddSlot(u, old_, target).(nNew := u.nNew + 1);
    assert (s.newTab - {target})[target := old_] == s.newTab[target := old_];
    forall x | x in v.info ensures SameAddr(s.info[x], v.info[x]) {
      assert SameEntry(t.info[x], u.info[x].(refCount := t.info[x].refCount));
    }
  }

  lemma EvictTail(h: Hasher, u: Tables, old_: int, target: Slot, id: int, i: Info)
    requires id != old_ && Midway(h, u, {id} + {old_}, {id} + {old_}) && old_ in u.info
    requires target == Target(h, i) && target !in u.newTab && u.info[old_].addr == i.addr
    ensures u.info[old_].refCount == 0 && !u.info[old_].inTried
    ensures Midway(h, AddSlot(u, old_, target).(nNew := u.nNew + 1), {id}, {id})
  {
    hide AddrsOk, RandomOk, NewOk, TriedOk, RefsOk, CountsOk;
    IdleEntry(u, old_, {id} + {old_});
    RejoinKeeps(h, u, old_, target, id);
  }

  /** The persistent part of an entry: what promotion and eviction may not change. */
  ghost predicate SameAddr(i: Info, j: Info) {
    j == i.(refCount := j.refCount, inTried := j.inTried, randomPos := j.randomPos)
  }

  lemma SettleIndexes(h: Hasher, s: Tables, id: int, slot: Slot)
    requires NewOk(h, s) && TriedOk(h, s)
    requires id in s.info && SlotsOf(s, id) == {} && slot !in s.triedTab && slot == TriedSlot(h, s.info[id].addr)
    ensures var t := Settle(s, id, slot); NewOk(h, t) && TriedOk(h, t)
  {
    var t := Settle(s, id, slot);
    NoSlots(s, id);
    forall x | x in t.newTab ensures NewAt(h, t, t.newTab[x], x) {
      assert NewAt(h, s, s.newTab[x], x);
    }
    forall x | x in t.triedTab ensures TriedAt(h, t, t.triedTab[x], x) {
      assert x != slot ==> TriedAt(h, s, s.triedTab[x], x);
    }
  }

  lemma SettleCounts(s: Tables, id: int, slot: Slot)
    requires RefsOk(s, {id}) && CountsOk(s, {id}) && id in s.info
    ensures RefsOk(Settle(s, id, slot), {}) && CountsOk(Settle(s, id, slot), {})
  {
    hide IdsIn, SlotsIn;
    var t := Settle(s, id, slot);
    IdsUpdate(s.info, id, t.info[id], false);
    IdsUpdate(s.info, id, t.info[id], true);
    assert t.info == s.info[id := t.info[id]];
  }

  lemma SettleKeeps(h: Hasher, s: Tables, id: int, slot: Slot)
    requires Midway(h, s, {id}, {id}) && id in s.info
    requires slot !in s.triedTab && slot == TriedSlot(h, s.info[id].addr)
    ensures Inv(h, Settle(s, id, slot))
  {
    assert id in {id} && s.info[id].refCount == |SlotsOf(s, id)| == 0;
    hide AddrsOk, RandomOk, NewOk, TriedOk, RefsOk, CountsOk;
    SettleIndexes(h, s, id, slot);
    SameNames(s, Settle(s, id, slot));
    SettleCounts(s, id, slot);
  }

  /** The entries a promotion of `id` loses: the only holder of the evicted entry's new place. */
  function Lost(h: Hasher, s: Tables, id: int): set<int>
    requires id in s.info
  {
    var slot := TriedSlot(h, s.info[id].addr);
    var t := Unlinked(h, s, id);
    if slot in s.triedTab && s.triedTab[slot] in t.info
    then Cleared(t, Target(h, t.info[s.triedTab[slot]])) else {}
  }

  /** The new table once the entry at a tried place has its own place there. */
  function Rehoused(h: Hasher, s: Tables, tab: map<Slot, int>, slot: Slot): map<Slot, int> {
    if slot in s.triedTab && s.triedTab[slot] in s.info
    then tab[Target(h, s.info[s.triedTab[slot]]) := s.triedTab[slot]] else tab
  }

  /** What a promotion of `id` may change. */
  ghost predicate OnlyPromoted(h: Hasher, s: Tables, t: Tables, id: int)
    requires id in s.info
  {
    var slot := TriedSlot(h, s.info[id].addr);
    && (forall x :: x in t.info <==> x in s.info && x !in Lost(h, s, id))
    && |Lost(h, s, id)| <= 1
    && id in t.info && t.info[id].inTried
    && t.triedTab == s.triedTab[slot := id]
    && (slot in s.triedTab ==> s.triedTab[slot] in t.info && !t.info[s.triedTab[slot]].inTried)
    && t.newTab == Rehoused(h, s, s.newTab - SlotsOf(s, id), slot)
    && (forall x :: x in t.info && x != id && (slot in s.triedTab ==> x != s.triedTab[slot]) ==>
          t.info[x].inTried == s.info[x].inTried)
    && (forall x :: x in t.info ==> SameAddr(s.info[x], t.info[x]))
  }

  /**
   * A promotion keeps the tables consistent and loses at most one address; it never loses
   * the promoted entry or the tried entry it evicts.
   */
  lemma MakeTriedKeeps(h: Hasher, s: Tables, id: int)
    requires Inv(h, s) && id in s.info && !s.info[id].inTried
    ensures Inv(h, MakeTried(h, s, id))
    ensures OnlyPromoted(h, s, MakeTried(h, s, id), id)
  {
    hide AddrsOk, RandomOk, NewOk, TriedOk, RefsOk, CountsOk, Evict, Unlink, TriedSlot;
    var slot := TriedSlot(h, s.info[id].addr);
    var t := Unlinked(h, s, id);
    UnlinkKeeps(h, s, id);
    if slot in t.triedTab {
      EvictKeeps(h, t, slot, id);
      var u := Evict(h, t, slot);
      assert SameAddr(t.info[id], u.info[id]);
      SettleKeeps(h, u, id, slot);
      var v := MakeTried(h, s, id);
      assert v == Settle(u, id, slot);
      assert v.triedTab == s.triedTab[slot := id];
      forall x | x in v.info ensures SameAddr(s.info[x], v.info[x]) {
        assert SameAddr(t.info[x], u.info[x]);
      }
    } else {
      SettleKeeps(h, t, id, slot);
    }
  }

  lemma KnownId(s: Tables, id: int)
    requires AddrsOk(s) && id in s.info
    ensures 0 <= id < s.idCount
  {
  }

  lemma AtRandom(s: Tables, p: nat)
    requires RandomOk(s) && p < |s.random|
    ensures HasRandomPos(s, s.random[p], p)
  {
  }
}
