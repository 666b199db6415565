/**
 * Every run of the address manager: all operations, in any order, with any arguments, any
 * random choices and any hash functions, starting from an empty manager.
 */
module AddrRuns {
  import opened Wrappers
  import opened Sets
  import opened AddrTables
  import opened AddrInvariant

  datatype Op =
    | DoAdd(m: Announce)
    | DoGood(a: Service, time: int)
    | DoAttempt(a: Service, countFailure: bool, time: int)
    | DoConnected(a: Service, time: int)
    | DoSetServices(a: Service, services: Services)
    | DoGetAddr(pick: nat -> nat, now: int)

  function Apply(h: Hasher, s: Tables, op: Op): Tables {
    match op
    case DoAdd(m) => Add(h, s, m).0
    case DoGood(a, time) => Good(h, s, a, time)
    case DoAttempt(a, countFailure, time) => Attempt(s, a, countFailure, time)
    case DoConnected(a, time) => Connected(s, a, time)
    case DoSetServices(a, services) => SetServices(s, a, services)
    case DoGetAddr(pick, now) => GetAddr(s, pick, now).0
  }

  function Run(h: Hasher, s: Tables, ops: seq<Op>): Tables
    decreases |ops|
  {
    if ops == [] then s else Run(h, Apply(h, s, ops[0]), ops[1..])
  }

  // ---------------------------------------------------------------------------
  // Each operation keeps the invariant
  // ---------------------------------------------------------------------------

  lemma FindExact(h: Hasher, s: Tables, a: NetAddr)
    requires Inv(h, s)
    ensures Find(s, a).Some? <==> a in s.addrs
    ensures Find(s, a).Some? ==> HasAddr(s, Find(s, a).value, a)
    ensures forall id :: HasAddr(s, id, a) ==> Find(s, a) == Some(id)
  {
    if a in s.addrs {
      assert HasAddr(s, s.addrs[a], a);
    }
  }

  lemma NewEntry(s: Tables, id: int)
    requires RefsOk(s, {}) && id in s.info
    ensures !s.info[id].inTried ==> 1 <= s.info[id].refCount <= MAX_REFS
  {
    assert s.info[id].refCount == |SlotsOf(s, id)|;
  }

  lemma LastGoodFree(h: Hasher, s: Tables, time: int)
    requires Inv(h, s)
    ensures Inv(h, s.(lastGood := time))
  {
    var t := s.(lastGood := time);
    SameIds(s, t);
    SameNames(s, t);
    hide SlotsIn, NewIds, TriedIds, AddrsOk, RandomOk;
    forall slot | slot in t.newTab ensures NewAt(h, t, t.newTab[slot], slot) {
      assert NewAt(h, s, s.newTab[slot], slot);
    }
    forall slot | slot in t.triedTab ensures TriedAt(h, t, t.triedTab[slot], slot) {
      assert TriedAt(h, s, s.triedTab[slot], slot);
    }
  }

  /** The state in which Good_ looks for a bucket and promotes. */
  function Praised(s: Tables, id: int, time: int): Tables
    requires id in s.info
  {
    SetInfo(s.(lastGood := time), id, s.info[id].(lastSuccess := time, lastTry := time, attempts := 0))
  }

  /** A known new entry is found in some bucket, so Good_ always promotes it. */
  lemma GoodPromotes(h: Hasher, s: Tables, a: Service, time: int)
    requires Inv(h, s) && Exactly(s, a).Some?
    ensures var id := Exactly(s, a).value;
            && Inv(h, Praised(s, id, time))
            && Good(h, s, a, time) == if s.info[id].inTried then Praised(s, id, time)
                                      else MakeTried(h, Praised(s, id, time), id)
  {
    var id := Exactly(s, a).value;
    LastGoodFree(h, s, time);
    var s' := s.(lastGood := time);
    var i := s.info[id].(lastSuccess := time, lastTry := time, attempts := 0);
    StatsKeeps(h, s', id, i, {}, {});
    NewEntry(s, id);
    var t := Praised(s, id, time);
    FoundAll(h, t, id);
    assert t.info[id].refCount == |SlotsOf(t, id)|;
  }

  lemma GoodKeeps(h: Hasher, s: Tables, a: Service, time: int)
    requires Inv(h, s)
    ensures Inv(h, Good(h, s, a, time))
  {
    if Exactly(s, a).Some? {
      GoodPromotes(h, s, a, time);
      var id := Exactly(s, a).value;
      hide Inv, MakeTried;
      if !s.info[id].inTried {
        MakeTriedKeeps(h, Praised(s, id, time), id);
      }
    } else {
      LastGoodFree(h, s, time);
    }
  }

  lemma ExactlyKeeps(h: Hasher, s: Tables, a: Service, i: Info)
    requires Inv(h, s) && Exactly(s, a).Some?
    requires SameButStats(s.info[Exactly(s, a).value], i) && i.refCount == s.info[Exactly(s, a).value].refCount
    ensures Inv(h, SetInfo(s, Exactly(s, a).value, i))
  {
    hide AddrsOk, RandomOk, NewOk, TriedOk, RefsOk, CountsOk;
    StatsKeeps(h, s, Exactly(s, a).value, i, {}, {});
  }

  lemma BookkeepingKeeps(h: Hasher, s: Tables, op: Op)
    requires Inv(h, s) && (op.DoAttempt? || op.DoConnected? || op.DoSetServices?)
    ensures Inv(h, Apply(h, s, op))
  {
    hide AddrsOk, RandomOk, NewOk, TriedOk, RefsOk, CountsOk;
    if Exactly(s, op.a).Some? {
      var i := Apply(h, s, op).info[Exactly(s, op.a).value];
      ExactlyKeeps(h, s, op.a, i);
      assert SetInfo(s, Exactly(s, op.a).value, s.info[Exactly(s, op.a).value]) == s;
    }
  }

  // ---------------------------------------------------------------------------
  // getaddr
  // ---------------------------------------------------------------------------

  /** The entries at random positions below `n` that are not terrible, in order. */
  ghost function Decent(s: Tables, n: nat, now: int): seq<Info>
    requires n <= |s.random|
  {
    if n == 0 then []
    else
      var rest := Decent(s, n - 1, now);
      if s.random[n - 1] in s.info && !IsTerrible(s.info[s.random[n - 1]], now)
      then rest + [s.info[s.random[n - 1]]] else rest
  }

  lemma {:induction false} DecentFrame(s: Tables, t: Tables, n: nat, now: int)
    requires n <= |s.random| && n <= |t.random|
    requires forall p :: 0 <= p < n ==> t.random[p] == s.random[p]
    requires forall p :: 0 <= p < n ==> (s.random[p] in s.info <==> s.random[p] in t.info)
    requires forall p :: 0 <= p < n && s.random[p] in s.info ==> t.info[s.random[p]] == s.info[s.random[p]]
    ensures Decent(t, n, now) == Decent(s, n, now)
  {
    if n > 0 {
      DecentFrame(s, t, n - 1, now);
    }
  }

  /** A swap of positions at or after `n` does not touch what was gathered before. */
  lemma SwapBehind(s: Tables, n: nat, j: nat, now: int)
    requires RandomOk(s) && n <= j < |s.random|
    ensures var t := SwapRandom(s, n, j);
            && RandomOk(t) && Reordered(s, t) && |t.random| == |s.random|
            && Decent(t, n, now) == Decent(s, n, now)
  {
    SwapRandomOk(s, n, j);
    var t := SwapRandom(s, n, j);
    forall p | 0 <= p < n
      ensures t.random[p] == s.random[p] && s.random[p] in s.info && s.random[p] in t.info
      ensures t.info[s.random[p]] == s.info[s.random[p]]
    {
      assert HasRandomPos(s, s.random[p], p) && HasRandomPos(s, s.random[n], n) && HasRandomPos(s, s.random[j], j);
    }
    DecentFrame(s, t, n, now);
  }

  lemma ReorderedTrans(s: Tables, t: Tables, u: Tables)
    requires Reordered(s, t) && Reordered(t, u)
    ensures Reordered(s, u)
  {
    forall id | id in u.info ensures SameEntry(s.info[id], u.info[id]) {
      assert SameEntry(s.info[id], t.info[id]) && SameEntry(t.info[id], u.info[id]);
    }
  }

  /** The gathered entries after position `n` was looked at. */
  function Extend(t: Tables, n: nat, now: int, found: seq<Info>): seq<Info>
    requires n < |t.random|
  {
    if t.random[n] in t.info && !IsTerrible(t.info[t.random[n]], now) then found + [t.info[t.random[n]]] else found
  }

  lemma GatherStep(h: Hasher, s: Tables, n: nat, j: nat, now: int, found: seq<Info>)
    requires Inv(h, s) && n <= j < |s.random| && found == Decent(s, n, now)
    ensures var t := SwapRandom(s, n, j);
            && Inv(h, t) && Reordered(s, t) && |t.random| == |s.random|
            && Extend(t, n, now, found) == Decent(t, n + 1, now)
            && |Extend(t, n, now, found)| <= |found| + 1
  {
    hide NewOk, TriedOk, RefsOk, CountsOk, AddrsOk, RandomOk, SwapRandom, IsTerrible;
    SwapBehind(s, n, j, now);
    ReorderedKeeps(h, s, SwapRandom(s, n, j), {}, {});
  }

  lemma PickInRange(x: nat, n: nat, size: nat)
    requires n < size
    ensures n <= x % (size - n) + n < size
  {
  }

  lemma {:induction false} GatherKeeps(h: Hasher, s: Tables, n: nat, limit: nat, pick: nat -> nat, now: int,
                                       found: seq<Info>)
    returns (stop: nat)
    requires Inv(h, s) && n <= |s.random| && found == Decent(s, n, now) && |found| <= limit
    ensures var (t, out) := Gather(s, n, limit, pick, now, found);
            && Inv(h, t) && Reordered(s, t) && |t.random| == |s.random|
            && stop <= |t.random| && out == Decent(t, stop, now)
            && |out| <= limit && (stop == |t.random| || |out| == limit)
    decreases |s.random| - n
  {
    hide Inv, Reordered, SwapRandom, IsTerrible, Decent;
    if n >= |s.random| || |found| >= limit {
      stop := n;
      ReorderedSelf(s);
    } else {
      PickInRange(pick(n), n, |s.random|);
      var j := pick(n) % (|s.random| - n) + n;
      var t := SwapRandom(s, n, j);
      GatherStep(h, s, n, j, now, found);
      stop := GatherKeeps(h, t, n + 1, limit, pick, now, Extend(t, n, now, found));
      ReorderedTrans(s, t, Gather(s, n, limit, pick, now, found).0);
    }
  }

  lemma ReorderedSelf(s: Tables)
    ensures Reordered(s, s)
  {
  }

  /**
   * getaddr only reorders the tables.  Its answer is the decent entries of an initial part
   * of the new random order, so it never repeats an entry, never holds a terrible one, and
   * is short only if the whole order was searched.
   */
  lemma GetAddrAnswer(h: Hasher, s: Tables, pick: nat -> nat, now: int) returns (stop: nat)
    requires Inv(h, s)
    ensures var (t, out) := GetAddr(s, pick, now);
            && Inv(h, t) && Reordered(s, t) && |t.random| == |s.random|
            && stop <= |t.random| && out == Decent(t, stop, now)
            && |out| <= AnswerLimit(s) && (stop == |t.random| || |out| == AnswerLimit(s))
  {
    hide AddrsOk, RandomOk, NewOk, TriedOk, RefsOk, CountsOk;
    stop := GatherKeeps(h, s, 0, AnswerLimit(s), pick, now, []);
  }

  // ---------------------------------------------------------------------------
  // Every run
  // ---------------------------------------------------------------------------

  lemma StepKeeps(h: Hasher, s: Tables, op: Op)
    requires Inv(h, s)
    ensures Inv(h, Apply(h, s, op))
  {
    hide Inv, Add, Good, GetAddr;
    match op
    case DoAdd(m) => AddKeeps(h, s, m);
    case DoGood(a, time) => GoodKeeps(h, s, a, time);
    case DoAttempt(_, _, _) => BookkeepingKeeps(h, s, op);
    case DoConnected(_, _) => BookkeepingKeeps(h, s, op);
    case DoSetServices(_, _) => BookkeepingKeeps(h, s, op);
    case DoGetAddr(pick, now) => var stop := GetAddrAnswer(h, s, pick, now);
  }

  lemma EmptyKeeps(h: Hasher)
    ensures Inv(h, EMPTY) && TimesOk(EMPTY)
  {
    assert NewIds(EMPTY) == {} && TriedIds(EMPTY) == {};
  }

  /** Every run from consistent tables ends in consistent tables. */
  lemma {:induction false} RunKeeps(h: Hasher, s: Tables, ops: seq<Op>)
    requires Inv(h, s)
    ensures Inv(h, Run(h, s, ops))
    decreases |ops|
  {
    hide Inv, Apply;
    if ops != [] {
      StepKeeps(h, s, ops[0]);
      RunKeeps(h, Apply(h, s, ops[0]), ops[1..]);
    }
  }

  // ---------------------------------------------------------------------------
  // What may be lost
  // ---------------------------------------------------------------------------

  /** The entries of `s` that are gone in `t`. */
  function Gone(s: Tables, t: Tables): set<int> {
    set id | id in s.info && id !in t.info
  }

  /** The same entry up to its reference count and random position. */
  ghost predicate SameRecord(i: Info, j: Info) {
    j == i.(refCount := j.refCount, randomPos := j.randomPos)
  }

  /** `t` has no entry that `s` has not, and the entries it has are unchanged. */
  ghost predicate Subrecords(s: Tables, t: Tables) {
    && t.triedTab == s.triedTab && t.nTried == s.nTried
    && (forall x :: x in t.info ==> x in s.info && SameRecord(s.info[x], t.info[x]))
  }

  /** At most one entry other than `id` is gone, and only a terrible one. */
  ghost predicate FewGone(s: Tables, t: Tables, id: int, now: int) {
    && |Gone(s, t) - {id}| <= 1
    && (forall x :: x in Gone(s, t) && x != id ==> IsTerrible(s.info[x], now))
  }

  lemma NothingGone(s: Tables, t: Tables, id: int, now: int)
    requires forall x :: x in s.info && x != id ==> x in t.info
    ensures FewGone(s, t, id, now)
  {
    assert forall x :: x !in Gone(s, t) - {id};
    assert Gone(s, t) - {id} == {};
  }

  lemma TakeLoses(s: Tables, u: Tables, id: int, slot: Slot, now: int)
    requires id in s.info && id in u.info && OnlyCleared(s, u, slot) && MayTake(s, slot, s.info[id].refCount, now)
    ensures FewGone(s, AddSlot(u, id, slot), id, now) && Subrecords(s, AddSlot(u, id, slot))
  {
    hide IsTerrible;
    var t := AddSlot(u, id, slot);
    forall x | x in t.info ensures x in s.info && SameRecord(s.info[x], t.info[x]) {
      assert SameEntry(s.info[x], u.info[x].(refCount := s.info[x].refCount));
    }
    assert forall x :: x in Gone(s, t) <==> x in Cleared(s, slot);
    assert Gone(s, t) == Cleared(s, slot);
    assert Gone(s, t) - {id} <= Cleared(s, slot);
    SubsetSize(Gone(s, t) - {id}, Cleared(s, slot));
  }

  lemma DropLoses(s: Tables, t: Tables, id: int, now: int)
    requires OnlyDeleted(s, t, id)
    ensures FewGone(s, t, id, now) && Subrecords(s, t)
  {
    NothingGone(s, t, id, now);
    forall x | x in t.info ensures x in s.info && SameRecord(s.info[x], t.info[x]) {
      assert SameEntry(s.info[x], t.info[x]);
    }
  }

  /** Whether Place keeps `id`: it has a reference already, or may take the place it belongs to. */
  predicate Welcome(h: Hasher, s: Tables, id: int, source: NetAddr, now: int)
    requires id in s.info
  {
    s.info[id].refCount != 0 || MayTake(s, NewSlot(h, s.info[id].addr, source), 0, now)
  }

  /** Placing a reference loses at most one other entry, and only a terrible one. */
  lemma PlaceLoses(h: Hasher, s: Tables, id: int, source: NetAddr, now: int)
    requires id in s.info && !s.info[id].inTried && s.info[id].refCount < MAX_REFS
    requires Midway(h, s, if s.info[id].refCount == 0 then {id} else {}, {})
    ensures var t := Place(h, s, id, source, now);
            FewGone(s, t, id, now) && Subrecords(s, t) && (id in t.info <==> Welcome(h, s, id, source, now))
  {
    hide AddrsOk, RandomOk, NewOk, TriedOk, RefsOk, CountsOk, IsTerrible, NewSlot, ClearNew, Delete, FewGone,
         Subrecords;
    var idle := if s.info[id].refCount == 0 then {id} else {};
    var slot := NewSlot(h, s.info[id].addr, source);
    HoldsPlace(s, id, slot, idle);
    if slot in s.newTab && s.newTab[slot] == id {
      SelfLoses(s, id, now);
    } else if MayTake(s, slot, s.info[id].refCount, now) {
      ClearNewKeeps(h, s, slot, idle, {});
      TakeLoses(s, ClearNew(s, slot), id, slot, now);
    } else if s.info[id].refCount == 0 {
      DeleteKeeps(h, s, id, idle, {});
      DropLoses(s, Delete(s, id), id, now);
    } else {
      SelfLoses(s, id, now);
    }
  }

  lemma SelfLoses(s: Tables, id: int, now: int)
    ensures FewGone(s, s, id, now) && Subrecords(s, s)
  {
    NothingGone(s, s, id, now);
  }

  lemma HoldsPlace(s: Tables, id: int, slot: Slot, idle: set<int>)
    requires RefsOk(s, idle) && id in s.info
    ensures slot in s.newTab && s.newTab[slot] == id ==> s.info[id].refCount > 0
  {
    assert s.info[id].refCount == |SlotsOf(s, id)|;
    assert slot in s.newTab && s.newTab[slot] == id ==> slot in SlotsOf(s, id);
  }

  /** The state in which Add_ places a reference: a refreshed or a created entry. */
  function Prepared(s: Tables, m: Announce, id: int): Tables {
    if id in s.info then SetInfo(s, id, Refresh(s.info[id], m)) else CreateNew(s, m)
  }

  /** Which entry an announcement is about. */
  function Subject(s: Tables, m: Announce): int {
    if m.addr.net in s.addrs then s.addrs[m.addr.net] else s.idCount
  }

  /** Preparing touches no other entry, and of a known entry only time and services. */
  ghost predicate OnlyPrepared(s: Tables, u: Tables, id: int) {
    && id in u.info && u.triedTab == s.triedTab && u.nTried == s.nTried
    && (forall x :: x in u.info <==> x in s.info || x == id)
    && (forall x :: x in s.info && x != id ==> u.info[x] == s.info[x])
    && (id in s.info ==> u.info[id] == s.info[id].(time := u.info[id].time, services := u.info[id].services))
    && (id !in s.info ==> !u.info[id].inTried && u.info[id].lastTry == u.info[id].lastSuccess == 0)
  }

  /** Whether Add_ goes on to place a reference. */
  predicate Wanted(s: Tables, m: Announce, id: int) {
    id in s.info ==> !Enough(Refresh(s.info[id], m), m)
  }

  lemma PreparedOnly(s: Tables, m: Announce, id: int)
    requires id in s.info || id == s.idCount
    ensures OnlyPrepared(s, Prepared(s, m, id), id)
  {
  }

  lemma AddStages(h: Hasher, s: Tables, m: Announce)
    requires Inv(h, s) && m.routable
    ensures var id := Subject(s, m);
            var u := Prepared(s, m, id);
            && (m.addr.net in s.addrs <==> id in s.info)
            && OnlyPrepared(s, u, id)
            && Add(h, s, m) == (if Wanted(s, m, id) then Place(h, u, id, m.source, m.now) else u, id !in s.info)
  {
    FindExact(h, s, m.addr.net);
    assert s.idCount !in s.info;
    hide Inv, Midway, Place, Refresh, Enough;
    var id := Subject(s, m);
    PreparedOnly(s, m, id);
    if m.addr.net in s.addrs {
      assert Find(s, m.addr.net) == Some(id);
    } else {
      assert Find(s, m.addr.net) == None;
    }
  }

  lemma PreparedKeeps(h: Hasher, s: Tables, m: Announce)
    requires Inv(h, s) && m.routable && Wanted(s, m, Subject(s, m))
    ensures var id := Subject(s, m);
            var u := Prepared(s, m, id);
            && id in u.info && !u.info[id].inTried && u.info[id].refCount < MAX_REFS
            && Midway(h, u, if u.info[id].refCount == 0 then {id} else {}, {})
            && (id in s.info ==> u.info[id].refCount > 0)
  {
    FindExact(h, s, m.addr.net);
    var id := Subject(s, m);
    if m.addr.net in s.addrs {
      NewEntry(s, id);
      hide AddrsOk, RandomOk, NewOk, TriedOk, RefsOk, CountsOk;
      StatsKeeps(h, s, id, Refresh(s.info[id], m), {}, {});
    } else {
      CreateKeeps(h, s, m);
      hide AddrsOk, RandomOk, NewOk, TriedOk, RefsOk, CountsOk;
    }
  }

  lemma AddKeeps(h: Hasher, s: Tables, m: Announce)
    requires Inv(h, s)
    ensures Inv(h, Add(h, s, m).0)
  {
    if m.routable {
      AddStages(h, s, m);
      var id := Subject(s, m);
      if Wanted(s, m, id) {
        PreparedKeeps(h, s, m);
        hide Inv, Midway, Add, Place, Prepared;
        PlaceKeeps(h, Prepared(s, m, id), id, m.source, m.now);
      } else {
        hide AddrsOk, RandomOk, NewOk, TriedOk, RefsOk, CountsOk, Refresh;
        StatsKeeps(h, s, id, Prepared(s, m, id).info[id], {}, {});
      }
    }
  }

  /**
   * Announcing an address never loses an entry of good quality and never more than one
   * entry; it reports "new" exactly for a routable address that was not known, and it
   * leaves the tried table alone.
   */
  lemma AddLoses(h: Hasher, s: Tables, m: Announce)
    requires Inv(h, s)
    ensures var (t, isNew) := Add(h, s, m);
            && (isNew <==> m.routable && m.addr.net !in s.addrs)
            && |Gone(s, t)| <= 1
            && (forall x :: x in Gone(s, t) ==> IsTerrible(s.info[x], m.now))
            && t.triedTab == s.triedTab && t.nTried == s.nTried
            && (m.routable && m.addr.net in s.addrs ==> s.addrs[m.addr.net] in t.info)
  {
    hide Inv, Midway, Place, IsTerrible, Prepared, NewSlot, Wanted;
    var t := Add(h, s, m).0;
    if !m.routable {
      assert Gone(s, t) == {};
    } else {
      AddStages(h, s, m);
      hide Add;
      var id := Subject(s, m);
      var u := Prepared(s, m, id);
      if Wanted(s, m, id) {
        PreparedKeeps(h, s, m);
        PlaceLoses(h, u, id, m.source, m.now);
        assert forall x :: x in Gone(s, t) <==> x in Gone(u, t) - {id};
        assert Gone(s, t) == Gone(u, t) - {id};
      } else {
        assert forall x :: x !in Gone(s, t);
        assert Gone(s, t) == {};
      }
    }
  }

  /** Good_ loses at most one address, never the praised one and never a tried one. */
  lemma GoodLoses(h: Hasher, s: Tables, a: Service, time: int)
    requires Inv(h, s)
    ensures var t := Good(h, s, a, time);
            && |Gone(s, t)| <= 1
            && (forall x :: x in Gone(s, t) ==> !s.info[x].inTried && s.info[x].addr != a)
            && (Exactly(s, a).Some? ==> Exactly(s, a).value in t.info && t.info[Exactly(s, a).value].inTried)
            && (forall x :: x in t.info ==> x in s.info && t.info[x].addr == s.info[x].addr)
  {
    hide Inv, MakeTried, Lost;
    var t := Good(h, s, a, time);
    if Exactly(s, a).Some? {
      GoodPromotes(h, s, a, time);
      hide Good;
      var id := Exactly(s, a).value;
      var u := Praised(s, id, time);
      if s.info[id].inTried {
        assert Gone(s, t) == {};
      } else {
        MakeTriedKeeps(h, u, id);
        LostIsNew(h, u, id);
        forall x | x in t.info ensures t.info[x].addr == s.info[x].addr {
          assert SameAddr(u.info[x], t.info[x]);
        }
        assert forall x :: x in Gone(s, t) <==> x in Lost(h, u, id);
        assert Gone(s, t) == Lost(h, u, id);
      }
    } else {
      assert Gone(s, t) == {};
    }
  }

  lemma LostIsNew(h: Hasher, s: Tables, id: int)
    requires Inv(h, s) && id in s.info && !s.info[id].inTried
    ensures forall x :: x in Lost(h, s, id) ==> x in s.info && !s.info[x].inTried && x != id
    ensures forall x :: x in Lost(h, s, id) ==> s.info[x].addr.net != s.info[id].addr.net
  {
    UnlinkKeeps(h, s, id);
    forall x | x in Lost(h, s, id)
      ensures x in s.info && !s.info[x].inTried && x != id && s.info[x].addr.net != s.info[id].addr.net
    {
      var t := Unlinked(h, s, id);
      var slot := Target(h, t.info[s.triedTab[TriedSlot(h, s.info[id].addr)]]);
      assert NewAt(h, t, t.newTab[slot], slot);
    }
  }

  // ---------------------------------------------------------------------------
  // Time stamps
  // ---------------------------------------------------------------------------

  /** The times a run passes in are positive, as clock readings are. */
  predicate Timely(op: Op) {
    && (op.DoGood? ==> op.time > 0)
    && (op.DoAttempt? ==> op.time >= 0)
  }

  lemma AddTimes(h: Hasher, s: Tables, m: Announce)
    requires Inv(h, s) && TimesOk(s)
    ensures TimesOk(Add(h, s, m).0)
  {
    hide Inv, Midway, Place, Prepared, Wanted, FewGone, Subrecords;
    if m.routable {
      AddStages(h, s, m);
      hide Add;
      var id := Subject(s, m);
      var u := Prepared(s, m, id);
      assert TimesOk(u);
      if Wanted(s, m, id) {
        PreparedKeeps(h, s, m);
        PlaceLoses(h, u, id, m.source, m.now);
        SubrecordTimes(u, Place(h, u, id, m.source, m.now));
      }
    }
  }

  lemma SubrecordTimes(s: Tables, t: Tables)
    requires TimesOk(s) && Subrecords(s, t)
    ensures TimesOk(t)
  {
    forall x | x in t.info
      ensures t.info[x].lastTry >= 0 && t.info[x].lastSuccess >= 0 && (t.info[x].inTried ==> t.info[x].lastSuccess != 0)
    {
      assert SameRecord(s.info[x], t.info[x]);
    }
  }

  /**
   * After Good_ the time stamps satisfy Check_ exactly if the praised service was unknown or
   * the time passed in is positive: a praised entry ends up tried with that time as its last
   * success.
   */
  lemma GoodTimes(h: Hasher, s: Tables, a: Service, time: int)
    requires Inv(h, s) && TimesOk(s)
    ensures TimesOk(Good(h, s, a, time)) <==> Exactly(s, a).None? || time > 0
  {
    hide Inv, MakeTried, Lost;
    if Exactly(s, a).Some? {
      GoodPromotes(h, s, a, time);
      hide Good;
      var id := Exactly(s, a).value;
      var u := Praised(s, id, time);
      if s.info[id].inTried {
        assert id in u.info && u.info[id].lastSuccess == time && u.info[id].inTried;
      } else {
        MakeTriedKeeps(h, u, id);
        InvTried(h, u);
        InvTried(h, MakeTried(h, u, id));
        PromotedTimes(h, u, MakeTried(h, u, id), id);
      }
    }
  }

  lemma RunTwo(h: Hasher, s: Tables, a: Op, b: Op)
    ensures Run(h, s, [a, b]) == Apply(h, Apply(h, s, a), b)
  {
    hide Apply;
    assert [a, b][1..] == [b] && [b][1..] == [];
    assert Run(h, Apply(h, s, a), [b]) == Run(h, Apply(h, Apply(h, s, a), b), []);
  }

  /** A first announcement is taken by an empty manager. */
  lemma FirstAdded(h: Hasher, m: Announce)
    requires m.routable
    ensures Exactly(Add(h, EMPTY, m).0, m.addr).Some?
  {
    var t := Add(h, EMPTY, m).0;
    assert Find(EMPTY, m.addr.net) == None;
    assert Find(t, m.addr.net) == Some(0);
  }

  /** Praising any known address with a time of 0 or less leaves time stamps that Check_ refuses. */
  lemma UntimelyRun(h: Hasher, m: Announce, time: int)
    requires m.routable && time <= 0
    ensures var s := Run(h, EMPTY, [DoAdd(m), DoGood(m.addr, time)]);
            Inv(h, s) && !TimesOk(s)
  {
    var s := Add(h, EMPTY, m).0;
    EmptyKeeps(h);
    FirstAdded(h, m);
    hide Inv, TimesOk, Add, Good;
    RunTwo(h, EMPTY, DoAdd(m), DoGood(m.addr, time));
    StepKeeps(h, EMPTY, DoAdd(m));
    AddTimes(h, EMPTY, m);
    StepKeeps(h, s, DoGood(m.addr, time));
    GoodTimes(h, s, m.addr, time);
  }

  lemma InvTried(h: Hasher, s: Tables)
    requires Inv(h, s)
    ensures TriedOk(h, s)
  {
  }

  lemma PromotedTimes(h: Hasher, s: Tables, t: Tables, id: int)
    requires TriedOk(h, s) && TriedOk(h, t) && id in s.info && OnlyPromoted(h, s, t, id)
    requires forall x :: x in s.info && x != id ==>
               && s.info[x].lastTry >= 0 && s.info[x].lastSuccess >= 0
               && (s.info[x].inTried ==> s.info[x].lastSuccess != 0)
    ensures TimesOk(t) <==> s.info[id].lastTry >= 0 && s.info[id].lastSuccess > 0
  {
    hide Lost, TriedSlot;
    assert SameAddr(s.info[id], t.info[id]);
    forall x | x in t.info && x != id
      ensures t.info[x].lastTry >= 0 && t.info[x].lastSuccess >= 0 && (t.info[x].inTried ==> t.info[x].lastSuccess != 0)
    {
      assert SameAddr(s.info[x], t.info[x]);
      var slot := TriedSlot(h, t.info[x].addr);
      assert t.info[x].inTried ==> slot in s.triedTab && s.triedTab[slot] == x;
      assert t.info[x].inTried ==> TriedAt(h, s, s.triedTab[slot], slot);
    }
  }

  lemma StepTimes(h: Hasher, s: Tables, op: Op)
    requires Inv(h, s) && TimesOk(s) && Timely(op)
    ensures TimesOk(Apply(h, s, op))
  {
    hide Inv, GetAddr, Add, Good;
    match op
    case DoAdd(m) => AddTimes(h, s, m);
    case DoGood(a, time) => GoodTimes(h, s, a, time);
    case DoAttempt(a, _, _) =>
    case DoConnected(a, _) =>
    case DoSetServices(a, _) =>
    case DoGetAddr(pick, now) =>
      var stop := GetAddrAnswer(h, s, pick, now);
      var t := GetAddr(s, pick, now).0;
      assert forall x :: x in t.info ==> SameEntry(s.info[x], t.info[x]);
  }

  /**
   * Every run with positive times from an empty manager keeps everything that Check_ tests,
   * for all hash functions and all random choices.
   */
  lemma {:induction false} RunConsistent(h: Hasher, s: Tables, ops: seq<Op>)
    requires Inv(h, s) && TimesOk(s) && forall i :: 0 <= i < |ops| ==> Timely(ops[i])
    ensures Inv(h, Run(h, s, ops)) && TimesOk(Run(h, s, ops))
    decreases |ops|
  {
    hide Inv, TimesOk, Apply;
    if ops != [] {
      StepKeeps(h, s, ops[0]);
      StepTimes(h, s, ops[0]);
      RunConsistent(h, Apply(h, s, ops[0]), ops[1..]);
    }
  }
}
