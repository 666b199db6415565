/**
 * Loading any stored image, not only one that was saved (Unserialize of src/addrman.h):
 * exactly when the result is consistent, and who is kept, whatever version, bucket count and
 * positions the image has.
 */
module AddrLoad {
  import opened Wrappers
  import opened Sets
  import opened AddrTables
  import opened AddrInvariant
  import opened AddrImage

  /** The entries that are in no table. */
  function Idle(s: Tables): set<int> {
    set id | id in s.info && !s.info[id].inTried && s.info[id].refCount == 0
  }

  ghost predicate Numbered(s: Tables) {
    s.idCount >= 0 && forall id :: id in s.info ==> 0 <= id < s.idCount
  }

  /** mapAddr leads from each address to its last entry. */
  ghost predicate AddrsLast(s: Tables) {
    && (forall a :: a in s.addrs ==> HasAddr(s, s.addrs[a], a))
    && (forall id :: id in s.info ==> s.info[id].addr.net in s.addrs && id <= s.addrs[s.info[id].addr.net])
  }

  /** All but the references of idle entries and the uniqueness of addresses is in order. */
  ghost predicate Indexed(h: Hasher, s: Tables) {
    Numbered(s) && RandomOk(s) && NewOk(h, s) && TriedOk(h, s) && RefsOk(s, Idle(s)) && CountsOk(s, {})
  }

  ghost predicate Loading(h: Hasher, s: Tables) {
    Indexed(h, s) && AddrsLast(s)
  }

  // ---------------------------------------------------------------------------
  // Entering an entry
  // ---------------------------------------------------------------------------

  /** A fresh entry at the end of the random order, not counted yet. */
  function Enter(s: Tables, i: Info): Tables {
    s.(idCount := s.idCount + 1, info := s.info[s.idCount := i], addrs := s.addrs[i.addr.net := s.idCount],
       random := s.random + [s.idCount])
  }

  lemma EnterNames(s: Tables, i: Info)
    requires Numbered(s) && AddrsLast(s) && RandomOk(s) && i.randomPos == |s.random|
    ensures Numbered(Enter(s, i)) && AddrsLast(Enter(s, i)) && RandomOk(Enter(s, i))
  {
    EnterRandom(s, i);
    hide RandomOk;
    var t := Enter(s, i);
    forall a | a in t.addrs ensures HasAddr(t, t.addrs[a], a) {
      assert a != i.addr.net ==> HasAddr(s, s.addrs[a], a);
    }
    forall id | id in t.info ensures t.info[id].addr.net in t.addrs && id <= t.addrs[t.info[id].addr.net] {
      assert id != s.idCount ==> s.info[id].addr.net in s.addrs && id <= s.addrs[s.info[id].addr.net];
    }
  }

  lemma EnterRandom(s: Tables, i: Info)
    requires RandomOk(s) && s.idCount !in s.info && i.randomPos == |s.random|
    ensures RandomOk(Enter(s, i))
  {
    var t := Enter(s, i);
    forall p | 0 <= p < |t.random| ensures HasRandomPos(t, t.random[p], p) {
      assert p < |s.random| ==> HasRandomPos(s, s.random[p], p);
    }
  }

  lemma EnterTables(h: Hasher, s: Tables, i: Info)
    requires NewOk(h, s) && TriedOk(h, s) && s.idCount !in s.info && !i.inTried
    ensures NewOk(h, Enter(s, i)) && TriedOk(h, Enter(s, i))
  {
    hide TriedSlot, PlaceIn;
    var t := Enter(s, i);
    forall slot | slot in t.newTab ensures NewAt(h, t, t.newTab[slot], slot) {
      assert NewAt(h, s, s.newTab[slot], slot);
    }
    forall slot | slot in t.triedTab ensures TriedAt(h, t, t.triedTab[slot], slot) {
      assert TriedAt(h, s, s.triedTab[slot], slot);
    }
  }

  lemma EnterTriedTables(h: Hasher, s: Tables, i: Info, slot: Slot)
    requires NewOk(h, s) && TriedOk(h, s) && s.idCount !in s.info && i.inTried
    requires slot == TriedSlot(h, i.addr) && slot !in s.triedTab
    ensures var t := Enter(s, i).(triedTab := s.triedTab[slot := s.idCount]); NewOk(h, t) && TriedOk(h, t)
  {
    hide TriedSlot, PlaceIn;
    var t := Enter(s, i).(triedTab := s.triedTab[slot := s.idCount]);
    forall x | x in t.newTab ensures NewAt(h, t, t.newTab[x], x) {
      assert NewAt(h, s, s.newTab[x], x);
    }
    forall x | x in t.triedTab ensures TriedAt(h, t, t.triedTab[x], x) {
      assert x != slot ==> TriedAt(h, s, s.triedTab[x], x);
    }
  }

  lemma EnterRefs(s: Tables, i: Info)
    requires RefsOk(s, Idle(s)) && s.idCount !in s.info && SlotsOf(s, s.idCount) == {} && i.refCount == 0
    ensures RefsOk(Enter(s, i), Idle(Enter(s, i)))
  {
    var t, id := Enter(s, i), s.idCount;
    assert forall x :: SlotsOf(t, x) == SlotsOf(s, x);
    hide SlotsIn, SlotsOf;
    forall x | x in t.info
      ensures t.info[x].refCount == |SlotsOf(t, x)| <= MAX_REFS
      ensures x in Idle(t) || t.info[x].inTried <==> t.info[x].refCount == 0
    {
      assert x != id ==> x in s.info && s.info[x].refCount == |SlotsOf(s, x)|;
      assert x != id ==> (x in Idle(s) || s.info[x].inTried <==> s.info[x].refCount == 0);
    }
  }

  lemma EnterCounts(s: Tables, i: Info)
    requires CountsOk(s, {}) && s.idCount !in s.info
    ensures CountsOk(Enter(s, i).(nNew := s.nNew + (if i.inTried then 0 else 1),
                                  nTried := s.nTried + (if i.inTried then 1 else 0)), {})
  {
    var t := Enter(s, i);
    IdsUpdate(s.info, s.idCount, i, false);
    IdsUpdate(s.info, s.idCount, i, true);
    hide IdsIn;
    assert i.inTried ==> NewIds(t) == NewIds(s);
    assert !i.inTried ==> TriedIds(t) == TriedIds(s);
  }

  /** A new entry without a place. */
  lemma EnterNewKeeps(h: Hasher, s: Tables, i: Info)
    requires Loading(h, s) && i.randomPos == |s.random| && !i.inTried && i.refCount == 0
    ensures Loading(h, Enter(s, i).(nNew := s.nNew + 1))
  {
    hide RandomOk, NewOk, TriedOk, RefsOk, CountsOk;
    assert s.idCount !in s.info;
    EnterNames(s, i);
    hide Numbered, AddrsLast;
    EnterTables(h, s, i);
    UnusedHasNoSlots(h, s, s.idCount);
    EnterRefs(s, i);
    EnterCounts(s, i);
    var t := Enter(s, i);
    CountsFree(h, t, t.(nNew := s.nNew + 1));
  }

  /** A tried entry at its place. */
  lemma EnterTriedKeeps(h: Hasher, s: Tables, i: Info, slot: Slot)
    requires Loading(h, s) && i.randomPos == |s.random| && i.inTried && i.refCount == 0
    requires slot == TriedSlot(h, i.addr) && slot !in s.triedTab
    ensures Loading(h, Enter(s, i).(triedTab := s.triedTab[slot := s.idCount], nTried := s.nTried + 1))
  {
    hide RandomOk, NewOk, TriedOk, RefsOk, CountsOk, TriedSlot;
    assert s.idCount !in s.info;
    EnterNames(s, i);
    hide Numbered, AddrsLast;
    EnterTriedTables(h, s, i, slot);
    UnusedHasNoSlots(h, s, s.idCount);
    EnterRefs(s, i);
    EnterCounts(s, i);
    var t := Enter(s, i);
    var u := t.(triedTab := s.triedTab[slot := s.idCount]);
    SameNumbers(t, u);
    SameRefs(t, u);
    CountsFree(h, u, u.(nTried := s.nTried + 1));
    SameCounts(t.(nTried := s.nTried + 1), u.(nTried := s.nTried + 1));
  }

  lemma SameRefs(t: Tables, u: Tables)
    requires RefsOk(t, Idle(t)) && u.info == t.info && u.newTab == t.newTab
    ensures RefsOk(u, Idle(u))
  {
    assert Idle(u) == Idle(t);
    hide Idle;
    forall x | x in u.info ensures u.info[x].refCount == |SlotsOf(u, x)| {
      assert t.info[x].refCount == |SlotsOf(t, x)|;
    }
  }

  lemma SameCounts(t: Tables, u: Tables)
    requires CountsOk(t, {}) && u.info == t.info && u.nNew == t.nNew && u.nTried == t.nTried
    ensures CountsOk(u, {})
  {
  }

  /** The random order, the ids and the address map do not depend on the tables. */
  lemma SameNumbers(s: Tables, t: Tables)
    requires Numbered(s) && AddrsLast(s) && RandomOk(s)
    requires forall id :: id in t.info <==> id in s.info
    requires forall id :: id in t.info ==>
               t.info[id].addr == s.info[id].addr && t.info[id].randomPos == s.info[id].randomPos
    requires t.addrs == s.addrs && t.random == s.random && t.idCount == s.idCount
    ensures Numbered(t) && AddrsLast(t) && RandomOk(t)
  {
    forall a | a in t.addrs ensures HasAddr(t, t.addrs[a], a) {
      assert HasAddr(s, s.addrs[a], a);
    }
    forall p | 0 <= p < |t.random| ensures HasRandomPos(t, t.random[p], p) {
      assert HasRandomPos(s, s.random[p], p);
    }
  }

  /** The counters do not matter to the indexes. */
  lemma CountsFree(h: Hasher, t: Tables, t': Tables)
    requires Numbered(t) && AddrsLast(t) && RandomOk(t) && NewOk(h, t) && TriedOk(h, t) && RefsOk(t, Idle(t))
    requires t' == t.(nNew := t'.nNew, nTried := t'.nTried)
    ensures Numbered(t') && AddrsLast(t') && RandomOk(t') && NewOk(h, t') && TriedOk(h, t') && RefsOk(t', Idle(t'))
  {
    SameNumbers(t, t');
    hide Numbered, AddrsLast, RandomOk;
    forall slot | slot in t'.newTab ensures NewAt(h, t', t'.newTab[slot], slot) {
      assert NewAt(h, t, t.newTab[slot], slot);
    }
    forall slot | slot in t'.triedTab ensures TriedAt(h, t', t'.triedTab[slot], slot) {
      assert TriedAt(h, t, t.triedTab[slot], slot);
    }
    SameRefs(t, t');
  }

  /** A reference at a free place of its own bucket. */
  lemma RefKeeps(h: Hasher, s: Tables, id: int, slot: Slot)
    requires Loading(h, s) && slot !in s.newTab && NewAt(h, s, id, slot) && s.info[id].refCount < MAX_REFS
    ensures Loading(h, AddSlot(s, id, slot))
  {
    hide Numbered, AddrsLast, RandomOk, NewOk, TriedOk, RefsOk, CountsOk, NewAt, AddSlot, Idle;
    RefNatural(h, s, id, slot);
    AddSlotIndexes(h, s, id, slot);
    RefNumbers(s, id, slot);
    AddSlotCounts(s, id, slot, Idle(s), {});
    RefIdle(s, id, slot);
  }

  lemma RefNumbers(s: Tables, id: int, slot: Slot)
    requires Numbered(s) && AddrsLast(s) && RandomOk(s) && id in s.info
    ensures var t := AddSlot(s, id, slot); Numbered(t) && AddrsLast(t) && RandomOk(t)
  {
    hide Numbered, AddrsLast, RandomOk;
    SameNumbers(s, AddSlot(s, id, slot));
  }

  lemma RefIdle(s: Tables, id: int, slot: Slot)
    requires id in s.info && s.info[id].refCount >= 0
    ensures Idle(AddSlot(s, id, slot)) == Idle(s) - {id}
  {
  }

  lemma RefNatural(h: Hasher, s: Tables, id: int, slot: Slot)
    requires Loading(h, s) && NewAt(h, s, id, slot)
    ensures id in s.info && !s.info[id].inTried && s.info[id].refCount >= 0
  {
    hide Numbered, AddrsLast, RandomOk, NewOk, TriedOk, CountsOk;
    assert s.info[id].refCount == |SlotsOf(s, id)|;
  }

  // ---------------------------------------------------------------------------
  // The four loops
  // ---------------------------------------------------------------------------

  /** The address is stored among the first n records. */
  ghost predicate Stored(vs: seq<Saved>, n: nat, a: NetAddr)
    requires n <= |vs|
  {
    exists k :: 0 <= k < n && vs[k].addr.net == a
  }

  /** No address is stored twice. */
  ghost predicate NoTwins(m: Image) {
    forall j, k :: 0 <= j < k < |m.news + m.trieds| ==>
      (m.news + m.trieds)[j].addr.net != (m.news + m.trieds)[k].addr.net
  }

  /** No two entries have the same address. */
  ghost predicate Apart(t: Tables) {
    forall j, k :: j in t.info && k in t.info && j != k ==> t.info[j].addr.net != t.info[k].addr.net
  }

  /** Entering an unknown address keeps addresses apart. */
  lemma ApartMore(s: Tables, t: Tables, id: int)
    requires Apart(s) && AddrsLast(s) && id in t.info && t.info[id].addr.net !in s.addrs
    requires forall x :: x in t.info && x != id ==> x in s.info && t.info[x].addr == s.info[x].addr
    ensures Apart(t)
  {
  }

  /** The entries below n are new ones. */
  ghost predicate NewBelow(t: Tables, n: int) {
    forall x :: 0 <= x < n ==> x in t.info && !t.info[x].inTried
  }

  /** Entry x is a record read back. */
  ghost predicate Holds(t: Tables, vs: seq<Saved>, n: nat)
    requires n <= |vs|
  {
    forall x :: 0 <= x < n ==> x in t.info && t.info[x] == Load(vs[x], t.info[x].randomPos, t.info[x].refCount, false)
  }

  function Fresh(m: Image): Tables {
    EMPTY.(nNew := m.nNew, nTried := m.nTried)
  }

  ghost predicate NewsSoFar(h: Hasher, m: Image, t: Tables, n: nat)
    requires n <= |m.news|
  {
    && Loading(h, t.(idCount := n, nNew := n, nTried := 0))
    && t.triedTab == map[] && t.nNew == m.nNew && t.nTried == m.nTried && t.lastGood == 1
    && NewBelow(t, n) && Holds(t, m.news, n)
    && (forall a :: a in t.addrs ==> Stored(m.news, n, a)) && (NoTwins(m) ==> Apart(t))
  }

  lemma {:induction false} NewsLoaded(h: Hasher, m: Image, n: nat)
    requires n <= |m.news|
    ensures NewsSoFar(h, m, LoadNews(h, Fresh(m), m, n), n)
  {
    hide NewsSoFar, NoTwins, LoadNew, UsesPlaces;
    if n == 0 {
      NothingLoaded(h, m);
    } else {
      NewsLoaded(h, m, n - 1);
      NewsStep(h, m, LoadNews(h, Fresh(m), m, n - 1), n - 1);
    }
  }

  lemma NothingLoaded(h: Hasher, m: Image)
    ensures NewsSoFar(h, m, Fresh(m), 0)
  {
    var t := Fresh(m).(idCount := 0, nNew := 0, nTried := 0);
    assert Idle(t) == {} && NewIds(t) == {} && TriedIds(t) == {};
  }

  lemma NewNet(m: Image, n: nat)
    requires n < |m.news|
    ensures NoTwins(m) ==> !Stored(m.news, n, m.news[n].addr.net)
  {
    var all := m.news + m.trieds;
    if NoTwins(m) {
      forall k | 0 <= k < n ensures m.news[k].addr.net != m.news[n].addr.net {
        assert all[k].addr.net != all[n].addr.net;
      }
    }
  }

  lemma NewsStep(h: Hasher, m: Image, t: Tables, n: nat)
    requires n < |m.news| && NewsSoFar(h, m, t, n)
    ensures NewsSoFar(h, m, LoadNew(h, t, m.news[n], n, UsesPlaces(m)), n + 1)
  {
    NewNet(m, n);
    hide NoTwins, Loading, LoadNew, NewBelow, Holds, Stored, UsesPlaces;
    var t' := LoadNew(h, t, m.news[n], n, UsesPlaces(m));
    NewsStepLoading(h, t, m.news[n], n, UsesPlaces(m));
    NewsStepEntries(h, m, t, n);
    if NoTwins(m) {
      NewsStepApart(h, m, t, n);
    }
  }

  lemma NewsStepApart(h: Hasher, m: Image, t: Tables, n: nat)
    requires n < |m.news| && Apart(t) && m.news[n].addr.net !in t.addrs
    requires Loading(h, t.(idCount := n, nNew := n, nTried := 0))
    ensures Apart(LoadNew(h, t, m.news[n], n, UsesPlaces(m)))
  {
    hide Indexed, NewSlot, UsesPlaces, Apart;
    var s := t.(idCount := n, nNew := n, nTried := 0);
    SameApart(t, s);
    ApartMore(s, LoadNew(h, t, m.news[n], n, UsesPlaces(m)), n);
  }

  lemma SameApart(t: Tables, u: Tables)
    requires Apart(t) && forall x :: x in u.info ==> x in t.info && u.info[x].addr == t.info[x].addr
    ensures Apart(u)
  {
  }

  lemma NewsStepLoading(h: Hasher, t: Tables, v: Saved, n: nat, use: bool)
    requires Loading(h, t.(idCount := n, nNew := n, nTried := 0))
    ensures Loading(h, LoadNew(h, t, v, n, use).(idCount := n + 1, nNew := n + 1, nTried := 0))
  {
    hide Loading, NewSlot;
    var s := t.(idCount := n, nNew := n, nTried := 0);
    var i := Load(v, |t.random|, 0, false);
    EnterNewKeeps(h, s, i);
    var u := Enter(s, i).(nNew := n + 1);
    var slot := NewSlot(h, v.addr, v.source);
    var t' := LoadNew(h, t, v, n, use).(idCount := n + 1, nNew := n + 1, nTried := 0);
    if !use && slot !in t.newTab {
      PlacedAt(h, u, n, v.source);
      RefKeeps(h, u, n, slot);
      assert t' == AddSlot(u, n, slot);
    } else {
      assert t' == u;
    }
  }

  lemma NewsStepEntries(h: Hasher, m: Image, t: Tables, n: nat)
    requires n < |m.news| && NewBelow(t, n) && Holds(t, m.news, n)
    requires forall a :: a in t.addrs ==> Stored(m.news, n, a)
    ensures var t' := LoadNew(h, t, m.news[n], n, UsesPlaces(m));
            && t'.triedTab == t.triedTab && t'.nNew == t.nNew && t'.nTried == t.nTried && t'.lastGood == t.lastGood
            && NewBelow(t', n + 1) && Holds(t', m.news, n + 1)
            && (forall a :: a in t'.addrs ==> Stored(m.news, n + 1, a))
  {
    hide NewSlot, UsesPlaces;
    var t' := LoadNew(h, t, m.news[n], n, UsesPlaces(m));
    forall a | a in t'.addrs ensures Stored(m.news, n + 1, a) {
      if a != m.news[n].addr.net {
        assert Stored(m.news, n, a);
      }
    }
  }

  lemma PlacedAt(h: Hasher, s: Tables, id: int, source: NetAddr)
    requires id in s.info && !s.info[id].inTried
    ensures NewAt(h, s, id, NewSlot(h, s.info[id].addr, source))
  {
  }

  ghost predicate TriedsSoFar(h: Hasher, m: Image, t: Tables, k: nat)
    requires k <= |m.trieds|
  {
    && Loading(h, t.(nTried := t.nTried - m.nTried + k))
    && t.nNew == m.nNew && t.lastGood == 1 && NewBelow(t, m.nNew) && Holds(t, m.news, |m.news|)
    && (forall a :: a in t.addrs ==> Stored(m.news, |m.news|, a) || Stored(m.trieds, k, a))
    && (NoTwins(m) ==> Apart(t))
  }

  lemma TriedNet(m: Image, k: nat)
    requires k < |m.trieds| && NoTwins(m)
    ensures !Stored(m.news, |m.news|, m.trieds[k].addr.net) && !Stored(m.trieds, k, m.trieds[k].addr.net)
  {
    var all, x := m.news + m.trieds, |m.news| + k;
    assert all[x] == m.trieds[k];
    forall j | 0 <= j < |m.news| ensures m.news[j].addr.net != m.trieds[k].addr.net {
      assert all[j].addr.net != all[x].addr.net;
    }
    forall j | 0 <= j < k ensures m.trieds[j].addr.net != m.trieds[k].addr.net {
      assert all[|m.news| + j].addr.net != all[x].addr.net;
    }
  }

  lemma TriedsStart(h: Hasher, m: Image, t: Tables)
    requires m.nNew == |m.news| && NewsSoFar(h, m, t, |m.news|)
    ensures TriedsSoFar(h, m, t.(idCount := m.nNew), 0)
  {
    hide Loading, Stored, NoTwins;
    assert t.(idCount := m.nNew).(nTried := 0) == t.(idCount := m.nNew, nNew := m.nNew, nTried := 0);
  }

  lemma {:induction false} TriedsLoaded(h: Hasher, m: Image, t: Tables, k: nat)
    requires k <= |m.trieds| && TriedsSoFar(h, m, t, 0) && m.nNew == |m.news|
    ensures TriedsSoFar(h, m, LoadTrieds(h, t, m, k), k)
  {
    hide TriedsSoFar, NoTwins, LoadTried;
    if k > 0 {
      TriedsLoaded(h, m, t, k - 1);
      TriedsStep(h, m, LoadTrieds(h, t, m, k - 1), k - 1);
    }
  }

  lemma TriedsStep(h: Hasher, m: Image, t: Tables, k: nat)
    requires k < |m.trieds| && TriedsSoFar(h, m, t, k) && m.nNew == |m.news|
    ensures TriedsSoFar(h, m, LoadTried(h, t, m.trieds[k]), k + 1)
  {
    hide NoTwins, Loading, LoadTried, NewBelow, Holds, Stored, Apart;
    var counted, t' := t.nTried - m.nTried + k, LoadTried(h, t, m.trieds[k]);
    if NoTwins(m) {
      TriedNet(m, k);
      assert m.trieds[k].addr.net !in t.addrs;
      TriedsStepApart(h, t, m.trieds[k], counted);
    }
    IdsAbove(h, t, m.nNew, counted);
    TriedsStepLoading(h, t, m.trieds[k], counted);
    assert t'.nTried - t.nTried + counted + 1 == t'.nTried - m.nTried + (k + 1);
    TriedsStepEntries(h, m, t, k);
  }

  /** The next id is new, and above the ids of the new entries. */
  lemma IdsAbove(h: Hasher, t: Tables, n: int, counted: int)
    requires Loading(h, t.(nTried := counted)) && NewBelow(t, n)
    ensures t.idCount >= 0 && t.idCount >= n && t.idCount !in t.info
  {
    assert n > 0 ==> n - 1 in t.info;
  }

  lemma TriedsStepApart(h: Hasher, t: Tables, v: Saved, counted: int)
    requires Loading(h, t.(nTried := counted)) && Apart(t) && v.addr.net !in t.addrs
    ensures Apart(LoadTried(h, t, v))
  {
    hide Indexed, TriedSlot, Apart;
    var s, t' := t.(nTried := counted), LoadTried(h, t, v);
    SameApart(t, s);
    if TriedSlot(h, v.addr) in t.triedTab {
      SameApart(t, t');
    } else {
      ApartMore(s, t', t.idCount);
    }
  }

  lemma TriedsStepLoading(h: Hasher, t: Tables, v: Saved, counted: int)
    requires Loading(h, t.(nTried := counted)) && t.idCount >= 0
    ensures var t' := LoadTried(h, t, v); Loading(h, t'.(nTried := t'.nTried - t.nTried + counted + 1))
  {
    hide Loading, TriedSlot;
    var slot := TriedSlot(h, v.addr);
    var s, t' := t.(nTried := counted), LoadTried(h, t, v);
    if slot in t.triedTab {
      assert t'.(nTried := t'.nTried - t.nTried + counted + 1) == s;
    } else {
      var i := Load(v, |t.random|, 0, true);
      EnterTriedKeeps(h, s, i, slot);
      assert t'.(nTried := t'.nTried - t.nTried + counted + 1)
          == Enter(s, i).(triedTab := s.triedTab[slot := s.idCount], nTried := counted + 1);
    }
  }

  lemma TriedsStepEntries(h: Hasher, m: Image, t: Tables, k: nat)
    requires k < |m.trieds| && NewBelow(t, m.nNew) && Holds(t, m.news, |m.news|)
    requires m.nNew == |m.news| <= t.idCount
    requires forall a :: a in t.addrs ==> Stored(m.news, |m.news|, a) || Stored(m.trieds, k, a)
    ensures var t' := LoadTried(h, t, m.trieds[k]);
            && t'.nNew == t.nNew && t'.lastGood == t.lastGood && NewBelow(t', m.nNew) && Holds(t', m.news, |m.news|)
            && (forall a :: a in t'.addrs ==> Stored(m.news, |m.news|, a) || Stored(m.trieds, k + 1, a))
  {
    hide TriedSlot;
    var t' := LoadTried(h, t, m.trieds[k]);
    forall a | a in t'.addrs ensures Stored(m.news, |m.news|, a) || Stored(m.trieds, k + 1, a) {
      if a in t.addrs && !Stored(m.news, |m.news|, a) {
        assert Stored(m.trieds, k, a);
      }
    }
  }

  /** What the stored places leave in order, whatever they say. */
  ghost predicate RowsSoFar(h: Hasher, m: Image, t: Tables) {
    && Loading(h, t) && t.nNew == m.nNew && t.lastGood == 1 && NewBelow(t, m.nNew) && Holds(t, m.news, |m.news|)
    && (NoTwins(m) ==> Apart(t))
  }

  lemma PlaceStep(h: Hasher, m: Image, t: Tables, b: nat, index: int)
    requires RowsSoFar(h, m, t) && b < NEW_BUCKETS && m.nNew == |m.news|
    ensures RowsSoFar(h, m, LoadPlace(h, t, b, index))
  {
    hide Loading, PlaceIn, NoTwins, Apart;
    if 0 <= index < t.nNew {
      var slot := PlaceIn(h, b, t.info[index].addr);
      if slot !in t.newTab && t.info[index].refCount < MAX_REFS {
        InBucket(h, t, index, b);
        RefKeeps(h, t, index, slot);
        if NoTwins(m) {
          SameApart(t, AddSlot(t, index, slot));
        }
      }
    }
  }

  lemma InBucket(h: Hasher, s: Tables, id: int, b: nat)
    requires id in s.info && !s.info[id].inTried && b < NEW_BUCKETS
    ensures NewAt(h, s, id, PlaceIn(h, b, s.info[id].addr))
  {
  }

  lemma {:induction false} RowStep(h: Hasher, m: Image, t: Tables, b: nat, row: seq<int>)
    requires RowsSoFar(h, m, t) && b < NEW_BUCKETS && m.nNew == |m.news|
    ensures RowsSoFar(h, m, LoadRow(h, t, b, row))
  {
    hide RowsSoFar, LoadPlace;
    if row != [] {
      RowStep(h, m, t, b, row[..|row| - 1]);
      PlaceStep(h, m, LoadRow(h, t, b, row[..|row| - 1]), b, row[|row| - 1]);
    }
  }

  lemma {:induction false} RowsStep(h: Hasher, m: Image, t: Tables, rows: seq<seq<int>>, n: nat)
    requires RowsSoFar(h, m, t) && n <= |rows| <= NEW_BUCKETS && m.nNew == |m.news|
    ensures RowsSoFar(h, m, LoadRows(h, t, rows, n))
  {
    hide RowsSoFar, LoadRow;
    if n > 0 {
      RowsStep(h, m, t, rows, n - 1);
      RowStep(h, m, LoadRows(h, t, rows, n - 1), n - 1, rows[n - 1]);
    }
  }

  // ---------------------------------------------------------------------------
  // Pruning
  // ---------------------------------------------------------------------------

  /** Only idle entries below n are gone. */
  ghost predicate OnlyPruned(t: Tables, u: Tables, n: nat) {
    && (forall x :: x in u.info <==> x in t.info && !(0 <= x < n && x in Idle(t)))
    && (forall x :: x in u.info ==> SameEntry(t.info[x], u.info[x]))
    && u.newTab == t.newTab && u.triedTab == t.triedTab && u.idCount == t.idCount && u.lastGood == t.lastGood
    && u.nTried == t.nTried
    && (forall a :: a in u.addrs <==> a in t.addrs && !Forgotten(t, n, a))
    && (forall a :: a in u.addrs ==> u.addrs[a] == t.addrs[a])
  }

  /** The address of an idle entry below n. */
  ghost predicate Forgotten(t: Tables, n: nat, a: NetAddr) {
    exists x :: 0 <= x < n && x in Idle(t) && t.info[x].addr.net == a
  }

  lemma {:induction false} Pruned(h: Hasher, t: Tables, n: nat)
    requires Indexed(h, t)
    ensures Indexed(h, Prune(t, n)) && OnlyPruned(t, Prune(t, n), n)
  {
    hide Indexed, OnlyPruned, Delete, Idle;
    if n == 0 {
      PrunedNone(t);
    } else {
      Pruned(h, t, n - 1);
      PruneStep(h, t, Prune(t, n - 1), n - 1);
    }
  }

  lemma PrunedNone(t: Tables)
    ensures OnlyPruned(t, t, 0)
  {
  }

  lemma PruneStep(h: Hasher, t: Tables, u: Tables, id: nat)
    requires Indexed(h, u) && OnlyPruned(t, u, id)
    ensures var v := if id in u.info && !u.info[id].inTried && u.info[id].refCount == 0 then Delete(u, id) else u;
            Indexed(h, v) && OnlyPruned(t, v, id + 1)
  {
    hide Indexed, Delete, OnlyPruned;
    if id in Idle(u) {
      DeleteIndexed(h, u, id);
      PrunedMore(t, u, Delete(u, id), id);
    } else {
      PrunedMore(t, u, u, id);
    }
  }

  lemma DeleteIndexed(h: Hasher, s: Tables, id: int)
    requires Indexed(h, s) && id in Idle(s)
    ensures Indexed(h, Delete(s, id)) && OnlyDeleted(s, Delete(s, id), id)
    ensures Delete(s, id).addrs == s.addrs - {s.info[id].addr.net}
  {
    hide Numbered, NewOk, TriedOk, RefsOk, CountsOk, Delete, SwapRandom;
    DeleteOnly(s, id);
    var t := SwapRandom(s, s.info[id].randomPos, |s.random| - 1);
    var v := Delete(s, id);
    hide RandomOk;
    ReorderedIndexed(h, s, t);
    SlotsNone(s, id);
    RemoveLastTables(h, t, id);
    RemoveLastCounts(t, id, Idle(s), {});
    RemoveLastRandom(t, id);
    StillIdle(s, v, id);
    NumberedLess(s, v);
  }

  lemma SlotsNone(s: Tables, id: int)
    requires RefsOk(s, Idle(s)) && id in Idle(s)
    ensures SlotsOf(s, id) == {}
  {
    assert s.info[id].refCount == |SlotsOf(s, id)|;
  }

  lemma NumberedLess(s: Tables, v: Tables)
    requires Numbered(s) && v.idCount == s.idCount && forall x :: x in v.info ==> x in s.info
    ensures Numbered(v)
  {
  }

  lemma ReorderedIndexed(h: Hasher, s: Tables, t: Tables)
    requires Reordered(s, t) && NewOk(h, s) && TriedOk(h, s) && RefsOk(s, Idle(s)) && CountsOk(s, {})
    ensures NewOk(h, t) && TriedOk(h, t) && RefsOk(t, Idle(s)) && CountsOk(t, {})
  {
    SameIds(s, t);
    hide NewIds, TriedIds, SlotsIn;
    forall slot | slot in t.newTab ensures NewAt(h, t, t.newTab[slot], slot) {
      assert NewAt(h, s, s.newTab[slot], slot);
    }
    forall slot | slot in t.triedTab ensures TriedAt(h, t, t.triedTab[slot], slot) {
      assert TriedAt(h, s, s.triedTab[slot], slot);
    }
  }

  lemma RemoveLastRandom(s: Tables, id: int)
    requires RandomOk(s) && id in s.info && s.random != [] && s.info[id].randomPos == |s.random| - 1
    ensures RandomOk(RemoveLast(s, id))
  {
    var t := RemoveLast(s, id);
    forall p | 0 <= p < |t.random| ensures HasRandomPos(t, t.random[p], p) {
      assert HasRandomPos(s, s.random[p], p);
    }
  }

  lemma StillIdle(u: Tables, v: Tables, id: int)
    requires OnlyDeleted(u, v, id)
    ensures Idle(v) == Idle(u) - {id}
  {
    forall x ensures x in Idle(v) <==> x in Idle(u) && x != id {
      assert x in v.info ==> SameEntry(u.info[x], v.info[x]);
    }
  }

  lemma PrunedMore(t: Tables, u: Tables, v: Tables, id: nat)
    requires OnlyPruned(t, u, id)
    requires if id in Idle(u) then OnlyDeleted(u, v, id) && v.addrs == u.addrs - {u.info[id].addr.net} else v == u
    ensures OnlyPruned(t, v, id + 1)
  {
    ForgottenMore(t, u, id);
    forall x | x in v.info ensures SameEntry(t.info[x], v.info[x]) {
      assert x in u.info && SameEntry(t.info[x], u.info[x]);
    }
    assert id in t.info && id in u.info ==> SameEntry(t.info[id], u.info[id]);
    assert id in t.info ==> id in u.info;
  }

  lemma ForgottenMore(t: Tables, u: Tables, id: nat)
    requires OnlyPruned(t, u, id)
    ensures id in t.info <==> id in u.info
    ensures id in Idle(t) <==> id in Idle(u)
    ensures id in t.info ==> u.info[id].addr == t.info[id].addr
    ensures forall a :: Forgotten(t, id + 1, a) <==>
                        Forgotten(t, id, a) || (id in Idle(t) && t.info[id].addr.net == a)
  {
    assert id in t.info ==> id in u.info && SameEntry(t.info[id], u.info[id]);
  }

  // ---------------------------------------------------------------------------
  // The whole
  // ---------------------------------------------------------------------------

  /** An entry that has a place shares its address with no other entry. */
  ghost predicate Alone(t: Tables) {
    forall j, k :: j in t.info && k in t.info && j != k && t.info[j].addr.net == t.info[k].addr.net ==>
      j in Idle(t) && k in Idle(t)
  }

  /**
   * Whatever an accepted image with natural counts says about versions, buckets, positions and
   * collisions, all indexes of the manager it gives are in order, but for mapAddr.  The manager
   * is consistent if and only if, before pruning, every entry that has a place is the only one
   * with its address; in particular if no address is stored twice.  A new entry is kept exactly
   * if it found a place, with what was stored.
   */
  lemma LoadConsistent(h: Hasher, m: Image)
    requires Unserialize(h, m).Some? && m.nNew >= 0 && m.nTried >= 0
    ensures var t := Unserialize(h, m).value;
            && RandomOk(t) && NewOk(h, t) && TriedOk(h, t) && RefsOk(t, {}) && CountsOk(t, {}) && t.lastGood == 1
            && (Inv(h, t) <==> Alone(Stage3(h, m))) && (NoTwins(m) ==> Inv(h, t))
            && (forall x :: 0 <= x < m.nNew ==> (x in t.info <==> SlotsOf(t, x) != {}))
            && (forall x :: 0 <= x < m.nNew && x in t.info ==>
                  t.info[x] == Load(m.news[x], t.info[x].randomPos, t.info[x].refCount, false))
  {
    hide Indexed, AddrsLast, RowsSoFar, OnlyPruned, Prune, Unserialize, NoTwins, RandomOk, NewOk, TriedOk, RefsOk,
         CountsOk, Inv, Alone, Stage3, SlotsOf;
    LoadStages(h, m);
    var t := Stage3(h, m);
    var u := Prune(t, Max0(t.idCount));
    AllPruned(h, m, t, u);
    AddrsExact(h, m, t, u);
  }

  lemma AddrsExact(h: Hasher, m: Image, t: Tables, u: Tables)
    requires RowsSoFar(h, m, t) && Indexed(h, u) && OnlyPruned(t, u, Max0(t.idCount)) && RefsOk(u, {})
    ensures Inv(h, u) <==> Alone(t)
    ensures NoTwins(m) ==> Alone(t)
  {
    NoIdleLeft(h, t, u);
    InvIs(h, u);
    ForgottenAll(h, t);
    hide NewOk, TriedOk, RefsOk, CountsOk, RandomOk, Inv, NoTwins, Holds, NewBelow;
    assert Apart(t) ==> Alone(t);
    if Alone(t) {
      AloneAddrs(h, t, u);
    }
    if AddrsOk(u) {
      AddrsAlone(h, t, u);
    }
  }

  lemma InvIs(h: Hasher, u: Tables)
    requires Indexed(h, u) && RefsOk(u, {})
    ensures Inv(h, u) <==> AddrsOk(u)
  {
    hide Numbered, AddrsOk, RandomOk, NewOk, TriedOk, CountsOk;
  }

  /** The addresses that pruning forgets are those of idle entries. */
  lemma ForgottenAll(h: Hasher, t: Tables)
    requires Loading(h, t)
    ensures forall a :: Forgotten(t, Max0(t.idCount), a) <==> exists x :: x in Idle(t) && t.info[x].addr.net == a
  {
    hide RandomOk, NewOk, TriedOk, RefsOk, CountsOk, AddrsLast;
  }

  lemma AloneAddrs(h: Hasher, t: Tables, u: Tables)
    requires Loading(h, t) && Indexed(h, u) && OnlyPruned(t, u, Max0(t.idCount)) && Alone(t)
    requires forall a :: Forgotten(t, Max0(t.idCount), a) <==> exists x :: x in Idle(t) && t.info[x].addr.net == a
    ensures AddrsOk(u)
  {
    hide RandomOk, NewOk, TriedOk, RefsOk, CountsOk, Forgotten, Idle;
    forall id | id in u.info ensures u.info[id].addr.net in u.addrs && u.addrs[u.info[id].addr.net] == id {
      KeptAddr(h, t, u, id);
    }
    forall a | a in u.addrs ensures HasAddr(u, u.addrs[a], a) {
      var x := t.addrs[a];
      assert HasAddr(t, x, a);
      assert x !in Idle(t);
      assert x in u.info && SameEntry(t.info[x], u.info[x]);
    }
  }

  lemma KeptAddr(h: Hasher, t: Tables, u: Tables, id: int)
    requires Loading(h, t) && OnlyPruned(t, u, Max0(t.idCount)) && Alone(t) && id in u.info
    requires forall a :: Forgotten(t, Max0(t.idCount), a) <==> exists x :: x in Idle(t) && t.info[x].addr.net == a
    ensures u.info[id].addr.net in u.addrs && u.addrs[u.info[id].addr.net] == id
  {
    hide RandomOk, NewOk, TriedOk, RefsOk, CountsOk, Forgotten;
    var a := t.info[id].addr.net;
    assert id in t.info && SameEntry(t.info[id], u.info[id]) && 0 <= id < t.idCount;
    assert id !in Idle(t);
    forall x | x in t.info && t.info[x].addr.net == a ensures x == id {
    }
    assert HasAddr(t, t.addrs[a], a);
    assert !Forgotten(t, Max0(t.idCount), a);
  }

  lemma AddrsAlone(h: Hasher, t: Tables, u: Tables)
    requires Loading(h, t) && OnlyPruned(t, u, Max0(t.idCount)) && AddrsOk(u)
    requires forall a :: Forgotten(t, Max0(t.idCount), a) <==> exists x :: x in Idle(t) && t.info[x].addr.net == a
    ensures Alone(t)
  {
    hide RandomOk, NewOk, TriedOk, RefsOk, CountsOk, Forgotten, Idle;
    forall j, k | j in t.info && k in t.info && j != k && t.info[j].addr.net == t.info[k].addr.net
      ensures j in Idle(t)
    {
      if j !in Idle(t) {
        OneHolder(h, t, u, j, k);
      }
    }
  }

  /** A kept entry whose address another entry had would be missing from mapAddr, or share its place there. */
  lemma OneHolder(h: Hasher, t: Tables, u: Tables, j: int, k: int)
    requires Loading(h, t) && OnlyPruned(t, u, Max0(t.idCount)) && AddrsOk(u)
    requires forall a :: Forgotten(t, Max0(t.idCount), a) <==> exists x :: x in Idle(t) && t.info[x].addr.net == a
    requires j in t.info && k in t.info && j !in Idle(t) && t.info[j].addr.net == t.info[k].addr.net
    ensures j == k
  {
    hide RandomOk, NewOk, TriedOk, RefsOk, CountsOk, Forgotten, Idle;
    var a := t.info[j].addr.net;
    assert j in u.info && SameEntry(t.info[j], u.info[j]);
    assert a in u.addrs && u.addrs[a] == j;
    assert !Forgotten(t, Max0(t.idCount), a);
    assert k !in Idle(t);
    assert k in u.info && SameEntry(t.info[k], u.info[k]);
  }

  /** The tables after the loop over the new entries. */
  function Stage1(h: Hasher, m: Image): Tables {
    LoadNews(h, Fresh(m), m, |m.news|).(idCount := m.nNew)
  }

  /** The tables after the loop over the tried entries. */
  function Stage2(h: Hasher, m: Image): Tables {
    LoadTrieds(h, Stage1(h, m), m, |m.trieds|)
  }

  /** The tables before pruning. */
  function Stage3(h: Hasher, m: Image): Tables {
    if UsesPlaces(m) then LoadRows(h, Stage2(h, m), m.places, |m.places|) else Stage2(h, m)
  }

  lemma LoadStages(h: Hasher, m: Image)
    requires Unserialize(h, m).Some? && m.nNew >= 0 && m.nTried >= 0
    ensures m.nNew == |m.news| && RowsSoFar(h, m, Stage3(h, m))
    ensures var t, n := Stage3(h, m), Max0(Stage3(h, m).idCount);
            Unserialize(h, m) == Some(Prune(t, n)) && Indexed(h, Prune(t, n)) && OnlyPruned(t, Prune(t, n), n)
  {
    NewsLoaded(h, m, |m.news|);
    TriedsStart(h, m, LoadNews(h, Fresh(m), m, |m.news|));
    TriedsLoaded(h, m, Stage1(h, m), |m.trieds|);
    var t2 := Stage2(h, m);
    hide NewsSoFar, LoadNews, LoadTrieds, NoTwins, Indexed, AddrsLast, Prune, LoadRows, Holds, NewBelow, Stored,
         OnlyPruned, Apart;
    assert t2.(nTried := t2.nTried - m.nTried + |m.trieds|) == t2;
    assert RowsSoFar(h, m, t2);
    if UsesPlaces(m) {
      RowsStep(h, m, t2, m.places, |m.places|);
    }
    Pruned(h, Stage3(h, m), Max0(Stage3(h, m).idCount));
  }

  lemma AllPruned(h: Hasher, m: Image, t: Tables, u: Tables)
    requires RowsSoFar(h, m, t) && Indexed(h, u) && OnlyPruned(t, u, Max0(t.idCount)) && m.nNew == |m.news|
    ensures RandomOk(u) && NewOk(h, u) && TriedOk(h, u) && RefsOk(u, {}) && CountsOk(u, {}) && u.lastGood == 1
    ensures forall x :: 0 <= x < m.nNew ==> (x in u.info <==> SlotsOf(u, x) != {})
    ensures forall x :: 0 <= x < m.nNew && x in u.info ==>
              u.info[x] == Load(m.news[x], u.info[x].randomPos, u.info[x].refCount, false)
  {
    NoIdleLeft(h, t, u);
    hide NoTwins, Apart, AddrsLast, RandomOk, TriedOk, CountsOk;
    forall x | 0 <= x < m.nNew
      ensures x in u.info <==> SlotsOf(u, x) != {}
      ensures x in u.info ==> u.info[x] == Load(m.news[x], u.info[x].randomPos, u.info[x].refCount, false)
    {
      if x in u.info {
        assert u.info[x].refCount == |SlotsOf(u, x)| && SameEntry(t.info[x], u.info[x]);
        assert x !in Idle(u);
      } else {
        UnusedHasNoSlots(h, u, x);
      }
    }
  }

  lemma NoIdleLeft(h: Hasher, t: Tables, u: Tables)
    requires Loading(h, t) && OnlyPruned(t, u, Max0(t.idCount))
    ensures Idle(u) == {}
  {
    forall x ensures x !in Idle(u) {
      if x in u.info {
        assert x in t.info && 0 <= x < t.idCount && SameEntry(t.info[x], u.info[x]);
      }
    }
  }

  // ---------------------------------------------------------------------------
  // Who gets a place
  // ---------------------------------------------------------------------------

  /** Record k is the first of n whose source dictates this place. */
  ghost predicate FirstNew(h: Hasher, vs: seq<Saved>, n: nat, slot: Slot, k: int)
    requires n <= |vs|
  {
    && 0 <= k < n && NewSlot(h, vs[k].addr, vs[k].source) == slot
    && forall j :: 0 <= j < k ==> NewSlot(h, vs[j].addr, vs[j].source) != slot
  }

  ghost predicate HeldBy(tab: map<Slot, int>, slot: Slot, k: int) {
    slot in tab && tab[slot] == k
  }

  /** Without usable places, new entries take the places their sources dictate, first come first served. */
  lemma {:induction false} BySource(h: Hasher, m: Image, n: nat)
    requires n <= |m.news| && !UsesPlaces(m)
    ensures forall slot, k :: HeldBy(LoadNews(h, Fresh(m), m, n).newTab, slot, k) <==> FirstNew(h, m.news, n, slot, k)
  {
    hide NewSlot, UsesPlaces;
    if n > 0 {
      BySource(h, m, n - 1);
      var t, t' := LoadNews(h, Fresh(m), m, n - 1), LoadNews(h, Fresh(m), m, n);
      hide LoadNews;
      forall slot, k ensures HeldBy(t'.newTab, slot, k) <==> FirstNew(h, m.news, n, slot, k) {
        BySourceStep(h, m, t, n - 1, slot, k);
      }
    }
  }

  lemma BySourceStep(h: Hasher, m: Image, t: Tables, n: nat, slot: Slot, k: int)
    requires n < |m.news| && !UsesPlaces(m)
    requires forall x, j :: HeldBy(t.newTab, x, j) <==> FirstNew(h, m.news, n, x, j)
    ensures HeldBy(LoadNew(h, t, m.news[n], n, UsesPlaces(m)).newTab, slot, k) <==> FirstNew(h, m.news, n + 1, slot, k)
  {
    hide NewSlot, UsesPlaces;
    var place := NewSlot(h, m.news[n].addr, m.news[n].source);
    if place in t.newTab {
      assert FirstNew(h, m.news, n, place, t.newTab[place]) by { assert HeldBy(t.newTab, place, t.newTab[place]); }
    } else if k == n && slot == place {
      NoneBefore(h, m.news, n, place, t.newTab);
    }
    assert HeldBy(t.newTab, slot, k) <==> FirstNew(h, m.news, n, slot, k);
  }

  /** If a place is free, no record dictates it: some record would be the first. */
  lemma {:induction false} NoneBefore(h: Hasher, vs: seq<Saved>, n: nat, slot: Slot, tab: map<Slot, int>)
    requires n <= |vs| && slot !in tab && forall k :: FirstNew(h, vs, n, slot, k) ==> HeldBy(tab, slot, k)
    ensures forall j :: 0 <= j < n ==> NewSlot(h, vs[j].addr, vs[j].source) != slot
  {
    hide NewSlot;
    var j := 0;
    while j < n
      invariant 0 <= j <= n && forall i :: 0 <= i < j ==> NewSlot(h, vs[i].addr, vs[i].source) != slot
    {
      assert !FirstNew(h, vs, n, slot, j);
      j := j + 1;
    }
  }

  /** Record k is the first of n with this place in the tried table. */
  ghost predicate FirstTried(h: Hasher, vs: seq<Saved>, n: nat, slot: Slot, k: int)
    requires n <= |vs|
  {
    0 <= k < n && TriedSlot(h, vs[k].addr) == slot && forall j :: 0 <= j < k ==> TriedSlot(h, vs[j].addr) != slot
  }

  /** Some record has this place. */
  ghost predicate SomeTried(h: Hasher, vs: seq<Saved>, n: nat, slot: Slot)
    requires n <= |vs|
  {
    exists k :: 0 <= k < n && TriedSlot(h, vs[k].addr) == slot
  }

  /** Tried entries are kept first come first served, each with what was stored. */
  ghost predicate TriedsPlaced(h: Hasher, vs: seq<Saved>, n: nat, t: Tables)
    requires n <= |vs|
  {
    && (forall slot :: slot in t.triedTab ==> t.triedTab[slot] in t.info && t.triedTab[slot] < t.idCount)
    && (forall slot, k :: FirstTried(h, vs, n, slot, k) ==> HoldsTried(t, slot, vs[k]))
    && (forall slot :: slot in t.triedTab ==> SomeTried(h, vs, n, slot))
  }

  ghost predicate HoldsTried(t: Tables, slot: Slot, v: Saved) {
    && slot in t.triedTab && t.triedTab[slot] in t.info
    && t.info[t.triedTab[slot]] == Load(v, t.info[t.triedTab[slot]].randomPos, 0, true)
  }

  lemma {:induction false} TriedsInOrder(h: Hasher, m: Image, t: Tables, n: nat)
    requires n <= |m.trieds| && t.triedTab == map[] && t.idCount >= 0
    ensures LoadTrieds(h, t, m, n).idCount >= 0 && TriedsPlaced(h, m.trieds, n, LoadTrieds(h, t, m, n))
  {
    hide TriedSlot, LoadTried;
    if n > 0 {
      TriedsInOrder(h, m, t, n - 1);
      hide TriedsPlaced;
      TriedsInOrderStep(h, m.trieds, n - 1, LoadTrieds(h, t, m, n - 1));
    }
  }

  lemma TriedsInOrderStep(h: Hasher, vs: seq<Saved>, n: nat, t: Tables)
    requires n < |vs| && t.idCount >= 0 && TriedsPlaced(h, vs, n, t)
    ensures LoadTried(h, t, vs[n]).idCount >= 0 && TriedsPlaced(h, vs, n + 1, LoadTried(h, t, vs[n]))
  {
    hide TriedSlot;
    var t', place := LoadTried(h, t, vs[n]), TriedSlot(h, vs[n].addr);
    if place !in t.triedTab {
      forall j | 0 <= j < n ensures TriedSlot(h, vs[j].addr) != place {
        NotTaken(h, vs, n, t, place);
      }
    }
    forall slot, k | FirstTried(h, vs, n + 1, slot, k) ensures HoldsTried(t', slot, vs[k]) {
      if k < n {
        assert FirstTried(h, vs, n, slot, k);
        assert HoldsTried(t, slot, vs[k]);
      } else {
        FirstIsFree(h, vs, n, t, slot);
      }
    }
    forall slot | slot in t'.triedTab ensures SomeTried(h, vs, n + 1, slot) {
      SomeMore(h, vs, n, slot);
    }
  }

  lemma SomeMore(h: Hasher, vs: seq<Saved>, n: nat, slot: Slot)
    requires n < |vs|
    ensures SomeTried(h, vs, n, slot) || TriedSlot(h, vs[n].addr) == slot ==> SomeTried(h, vs, n + 1, slot)
  {
    hide TriedSlot;
  }

  lemma NotTaken(h: Hasher, vs: seq<Saved>, n: nat, t: Tables, slot: Slot)
    requires n <= |vs| && TriedsPlaced(h, vs, n, t) && slot !in t.triedTab
    ensures forall j :: 0 <= j < n ==> TriedSlot(h, vs[j].addr) != slot
  {
    hide TriedSlot;
    var j := 0;
    while j < n
      invariant 0 <= j <= n && forall i :: 0 <= i < j ==> TriedSlot(h, vs[i].addr) != slot
    {
      assert FirstTried(h, vs, n, slot, j) ==> HoldsTried(t, slot, vs[j]);
      j := j + 1;
    }
  }

  lemma FirstIsFree(h: Hasher, vs: seq<Saved>, n: nat, t: Tables, slot: Slot)
    requires n < |vs| && TriedsPlaced(h, vs, n, t) && FirstTried(h, vs, n + 1, slot, n)
    ensures slot !in t.triedTab && slot == TriedSlot(h, vs[n].addr)
  {
    hide TriedSlot;
    assert !SomeTried(h, vs, n, slot);
  }

  /**
   * Who is kept.  A tried place holds the first record that belongs there.  When the stored
   * positions cannot be used, a new entry's place holds the first record whose source dictates it.
   */
  lemma LoadOrder(h: Hasher, m: Image)
    requires Unserialize(h, m).Some? && m.nNew >= 0 && m.nTried >= 0
    ensures var t := Unserialize(h, m).value;
            && (forall slot, k :: FirstTried(h, m.trieds, |m.trieds|, slot, k) ==> HoldsTried(t, slot, m.trieds[k]))
            && (forall slot :: slot in t.triedTab ==> SomeTried(h, m.trieds, |m.trieds|, slot))
            && (!UsesPlaces(m) ==>
                  forall slot, k :: HeldBy(t.newTab, slot, k) <==> FirstNew(h, m.news, |m.news|, slot, k))
  {
    hide Indexed, RowsSoFar, OnlyPruned, Prune, Unserialize, LoadTrieds, LoadNews, FirstTried, FirstNew,
         SomeTried;
    LoadStages(h, m);
    Stage1Fresh(h, m);
    TriedsInOrder(h, m, Stage1(h, m), |m.trieds|);
    if UsesPlaces(m) {
      RowsKeep(h, Stage2(h, m), m.places, |m.places|);
    } else {
      BySource(h, m, |m.news|);
      NewTabKept(h, Stage1(h, m), m, |m.trieds|);
      OnlyCounted(Stage2(h, m));
    }
    TriedsSurvive(h, m, Stage2(h, m), Stage3(h, m), Prune(Stage3(h, m), Max0(Stage3(h, m).idCount)));
  }

  lemma {:induction false} Stage1Fresh(h: Hasher, m: Image)
    ensures Stage1(h, m).triedTab == map[] && Stage1(h, m).idCount == m.nNew
    ensures Stage1(h, m).newTab == LoadNews(h, Fresh(m), m, |m.news|).newTab
  {
    NoTried(h, m, |m.news|);
  }

  lemma {:induction false} NoTried(h: Hasher, m: Image, n: nat)
    requires n <= |m.news|
    ensures LoadNews(h, Fresh(m), m, n).triedTab == map[]
  {
    hide NewSlot, UsesPlaces;
    if n > 0 {
      NoTried(h, m, n - 1);
    }
  }

  lemma {:induction false} NewTabKept(h: Hasher, t: Tables, m: Image, n: nat)
    requires n <= |m.trieds|
    ensures LoadTrieds(h, t, m, n).newTab == t.newTab
  {
    hide TriedSlot;
    if n > 0 {
      NewTabKept(h, t, m, n - 1);
    }
  }

  /** Entries stay, and differ at most in their reference counts. */
  ghost predicate OnlyRefs(t: Tables, u: Tables) {
    && u.triedTab == t.triedTab
    && forall x :: x in t.info ==> x in u.info && u.info[x] == t.info[x].(refCount := u.info[x].refCount)
  }

  lemma OnlyCounted(t: Tables)
    ensures OnlyRefs(t, t)
  {
  }

  lemma {:induction false} RowKeep(h: Hasher, t: Tables, b: nat, row: seq<int>)
    ensures OnlyRefs(t, LoadRow(h, t, b, row))
  {
    hide PlaceIn;
    if row != [] {
      RowKeep(h, t, b, row[..|row| - 1]);
    }
  }

  lemma {:induction false} RowsKeep(h: Hasher, t: Tables, rows: seq<seq<int>>, n: nat)
    requires n <= |rows|
    ensures OnlyRefs(t, LoadRows(h, t, rows, n))
  {
    hide LoadRow;
    if n > 0 {
      RowsKeep(h, t, rows, n - 1);
      RowKeep(h, LoadRows(h, t, rows, n - 1), n - 1, rows[n - 1]);
    }
  }

  lemma TriedsSurvive(h: Hasher, m: Image, t: Tables, u: Tables, v: Tables)
    requires TriedsPlaced(h, m.trieds, |m.trieds|, t) && OnlyRefs(t, u) && OnlyPruned(u, v, Max0(u.idCount))
    requires Indexed(h, v)
    ensures forall slot, k :: FirstTried(h, m.trieds, |m.trieds|, slot, k) ==> HoldsTried(v, slot, m.trieds[k])
    ensures forall slot :: slot in v.triedTab ==> SomeTried(h, m.trieds, |m.trieds|, slot)
    ensures v.newTab == u.newTab
  {
    forall slot, k | FirstTried(h, m.trieds, |m.trieds|, slot, k) ensures HoldsTried(v, slot, m.trieds[k]) {
      assert HoldsTried(t, slot, m.trieds[k]);
      var x := t.triedTab[slot];
      assert x in u.info && u.info[x].inTried && x !in Idle(u);
      assert x in v.info && SameEntry(u.info[x], v.info[x]);
      TriedNoRefs(h, v, x);
    }
  }

  lemma TriedNoRefs(h: Hasher, s: Tables, id: int)
    requires Indexed(h, s) && id in s.info && s.info[id].inTried
    ensures s.info[id].refCount == 0
  {
  }

  // ---------------------------------------------------------------------------
  // Images that do not load into a consistent manager
  // ---------------------------------------------------------------------------

  /** Negative counts are accepted and stay. */
  lemma LoadNegative(h: Hasher, m: Image)
    requires Unserialize(h, m).Some? && (m.nNew < 0 || m.nTried < 0)
    ensures !Inv(h, Unserialize(h, m).value)
  {
    hide Inv, LoadNews, LoadTrieds, LoadRows, Prune, UsesPlaces, BucketCount;
    NewsNumbers(h, m, |m.news|);
    TriedsNumbers(h, Stage1(h, m), m, |m.trieds|);
    if UsesPlaces(m) {
      RowsNumbers(h, Stage2(h, m), m.places, |m.places|);
    }
    var t, n := Stage3(h, m), Max0(Stage3(h, m).idCount);
    PruneNumbers(t, n);
    assert Unserialize(h, m).value == Prune(t, n);
    if Inv(h, Prune(t, n)) {
      CountsNatural(h, Prune(t, n));
    }
  }

  lemma CountsNatural(h: Hasher, s: Tables)
    requires Inv(h, s)
    ensures s.nNew >= 0 && s.nTried >= 0
  {
  }

  lemma {:induction false} NewsNumbers(h: Hasher, m: Image, n: nat)
    requires n <= |m.news|
    ensures var t := LoadNews(h, Fresh(m), m, n); t.nNew == m.nNew && t.nTried == m.nTried
  {
    hide NewSlot, UsesPlaces;
    if n > 0 {
      NewsNumbers(h, m, n - 1);
    }
  }

  lemma {:induction false} TriedsNumbers(h: Hasher, t: Tables, m: Image, n: nat)
    requires n <= |m.trieds|
    ensures var u := LoadTrieds(h, t, m, n); u.nNew == t.nNew && u.nTried <= t.nTried
  {
    hide TriedSlot;
    if n > 0 {
      TriedsNumbers(h, t, m, n - 1);
    }
  }

  lemma {:induction false} RowNumbers(h: Hasher, t: Tables, b: nat, row: seq<int>)
    ensures LoadRow(h, t, b, row).nNew == t.nNew && LoadRow(h, t, b, row).nTried == t.nTried
  {
    hide PlaceIn;
    if row != [] {
      RowNumbers(h, t, b, row[..|row| - 1]);
    }
  }

  lemma {:induction false} RowsNumbers(h: Hasher, t: Tables, rows: seq<seq<int>>, n: nat)
    requires n <= |rows|
    ensures LoadRows(h, t, rows, n).nNew == t.nNew && LoadRows(h, t, rows, n).nTried == t.nTried
  {
    hide LoadRow;
    if n > 0 {
      RowsNumbers(h, t, rows, n - 1);
      RowNumbers(h, LoadRows(h, t, rows, n - 1), n - 1, rows[n - 1]);
    }
  }

  lemma {:induction false} PruneNumbers(t: Tables, n: nat)
    ensures Prune(t, n).nNew <= t.nNew && Prune(t, n).nTried == t.nTried
  {
    hide SwapRandom;
    if n > 0 {
      PruneNumbers(t, n - 1);
      var u := Prune(t, n - 1);
      SwapNumbers(u, n - 1);
    }
  }

  lemma SwapNumbers(s: Tables, id: int)
    ensures Delete(s, id).nNew <= s.nNew && Delete(s, id).nTried == s.nTried
  {
  }

  /** A hasher that sends the addresses told by different sources to different buckets. */
  function BySourceHasher(): Hasher {
    Hasher(_ => 0, (_, source) => source, (_, _, _) => 0)
  }

  /** Two records of one address, told by two sources, in an image without usable places. */
  function Twins(): Image {
    Image(0, 32, 2, 0, 0, [Saved(Service(7, 1), 5, {}, 0, 0, 0), Saved(Service(7, 1), 5, {}, 1, 0, 0)], [], [])
  }

  /** An address that is stored twice is kept twice, and only one of the two is found by address. */
  lemma TwinsInconsistent()
    ensures var h, m := BySourceHasher(), Twins();
            Unserialize(h, m).Some? && !NoTwins(m) && !Inv(h, Unserialize(h, m).value)
  {
    var h, m := BySourceHasher(), Twins();
    assert (m.news + m.trieds)[0].addr.net == (m.news + m.trieds)[1].addr.net;
    assert !UsesPlaces(m);
    var t1 := LoadNews(h, Fresh(m), m, 1);
    assert LoadNews(h, Fresh(m), m, 0) == Fresh(m);
    assert t1 == LoadNew(h, Fresh(m), m.news[0], 0, false);
    assert t1.newTab == map[Slot(0, 0) := 0] && t1.info[0].refCount == 1;
    var t2 := LoadNews(h, Fresh(m), m, 2);
    assert t2 == LoadNew(h, t1, m.news[1], 1, false);
    assert t2.info.Keys == {0, 1} && t2.info[0].refCount == 1 && t2.info[1].refCount == 1;
    var t := t2.(idCount := 2);
    assert LoadTrieds(h, t, m, 0) == t;
    assert Prune(t, 0) == t && Prune(t, 1) == t && Prune(t, 2) == t;
    assert t.info[0].addr.net == t.info[1].addr.net == 7;
  }
}
