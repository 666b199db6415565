/**
 * What the operations of the address manager leave in an entry, field by field (Good_, Add_,
 * Attempt_, Connected_, SetServices_ of src/addrman.cpp).  The laws name the hashes, the
 * constants and the fields themselves, none of the functions that the operations are made of.
 */
module AddrLaws {
  import opened Wrappers
  import opened AddrTables
  import opened AddrInvariant
  import opened AddrRuns

  // ---------------------------------------------------------------------------
  // Places, quality and limits
  // ---------------------------------------------------------------------------

  /** Where the announcement of `source` puts an address among 1024 buckets of 64 places. */
  function NewPlace(h: Hasher, a: Service, source: NetAddr): Slot {
    Slot(h.newHash(a, source) % 1024, h.positionHash(true, h.newHash(a, source) % 1024, a) % 64)
  }

  /** The only place of an address among 256 buckets of 64 places. */
  function TriedPlace(h: Hasher, a: Service): Slot {
    Slot(h.triedHash(a) % 256, h.positionHash(false, h.triedHash(a) % 256, a) % 64)
  }

  lemma PlacesAre(h: Hasher, a: Service, source: NetAddr)
    ensures NewSlot(h, a, source) == NewPlace(h, a, source) && TriedSlot(h, a) == TriedPlace(h, a)
  {
  }

  /** Tried within the last minute. */
  predicate JustTried(i: Info, now: int) {
    i.lastTry != 0 && now <= i.lastTry + 60
  }

  /** Dated more than ten minutes ahead, undated, or not seen for a week. */
  predicate Unseen(i: Info, now: int) {
    i.time == 0 || i.time > now + 600 || i.time + 604800 < now
  }

  /** Three attempts and never a success, or ten attempts and no success for two days. */
  predicate Failing(i: Info, now: int) {
    (i.attempts >= 3 && i.lastSuccess == 0) || (i.attempts >= 10 && i.lastSuccess + 172800 < now)
  }

  predicate Worthless(i: Info, now: int) {
    !JustTried(i, now) && (Unseen(i, now) || Failing(i, now))
  }

  lemma TerribleExact(i: Info, now: int)
    ensures IsTerrible(i, now) <==> Worthless(i, now)
  {
  }

  /** An answer holds the largest number of addresses within 23 percent and 2500. */
  lemma AnswerLimitExact(s: Tables)
    ensures AnswerLimit(s) <= 2500 && 100 * AnswerLimit(s) <= 23 * |s.random|
    ensures AnswerLimit(s) == 2500 || 23 * |s.random| < 100 * (AnswerLimit(s) + 1)
  {
  }

  // ---------------------------------------------------------------------------
  // Answering getaddr
  // ---------------------------------------------------------------------------

  /** Step n of a Fisher-Yates shuffle: position n takes what stands at a random position from n on. */
  function ShuffleStep(r: seq<int>, n: nat, pick: nat): seq<int>
    requires n < |r|
  {
    var j := n + pick % (|r| - n);
    r[n := r[j]][j := r[n]]
  }

  /** Steps n to m - 1 of the shuffle. */
  function Shuffle(r: seq<int>, n: nat, m: nat, pick: nat -> nat): (r': seq<int>)
    requires n <= m <= |r|
    ensures |r'| == |r|
    decreases m - n
  {
    if n == m then r else Shuffle(ShuffleStep(r, n, pick(n)), n + 1, m, pick)
  }

  lemma {:induction false} GatherShuffles(h: Hasher, s: Tables, n: nat, limit: nat, pick: nat -> nat, now: int,
                                          found: seq<Info>)
    returns (stop: nat)
    requires Inv(h, s) && n <= |s.random| && found == Decent(s, n, now) && |found| <= limit
    ensures var (t, out) := Gather(s, n, limit, pick, now, found);
            && n <= stop <= |s.random| && t.random == Shuffle(s.random, n, stop, pick)
            && |t.random| == |s.random| && out == Decent(t, stop, now)
            && |out| <= limit && (stop == |s.random| || |out| == limit)
    decreases |s.random| - n
  {
    hide *;
    if n >= |s.random| || |found| >= limit {
      stop := n;
      GatherEnds(s, n, limit, pick, now, found);
    } else {
      PickInRange(pick(n), n, |s.random|);
      var j := pick(n) % (|s.random| - n) + n;
      var t := SwapRandom(s, n, j);
      GatherStep(h, s, n, j, now, found);
      SwapIsStep(h, s, n, j);
      GatherGoesOn(s, n, limit, pick, now, found);
      stop := GatherShuffles(h, t, n + 1, limit, pick, now, Extend(t, n, now, found));
      ShuffleGoesOn(s.random, n, stop, pick);
    }
  }

  lemma GatherEnds(s: Tables, n: nat, limit: nat, pick: nat -> nat, now: int, found: seq<Info>)
    requires n <= |s.random| && (n == |s.random| || |found| >= limit)
    ensures Gather(s, n, limit, pick, now, found) == (s, found) && Shuffle(s.random, n, n, pick) == s.random
  {
  }

  lemma GatherGoesOn(s: Tables, n: nat, limit: nat, pick: nat -> nat, now: int, found: seq<Info>)
    requires n < |s.random| && |found| < limit
    ensures var t := SwapRandom(s, n, pick(n) % (|s.random| - n) + n);
            && n < |t.random| == |s.random|
            && Gather(s, n, limit, pick, now, found)
               == Gather(t, n + 1, limit, pick, now, Extend(t, n, now, found))
  {
    hide IsTerrible, SwapRandom;
    SwapLength(s, n, pick(n) % (|s.random| - n) + n);
  }

  lemma SwapLength(s: Tables, i: int, j: int)
    ensures |SwapRandom(s, i, j).random| == |s.random|
  {
  }

  lemma ShuffleGoesOn(r: seq<int>, n: nat, m: nat, pick: nat -> nat)
    requires n < m <= |r|
    ensures var j := pick(n) % (|r| - n) + n;
            Shuffle(r, n, m, pick) == Shuffle(r[n := r[j]][j := r[n]], n + 1, m, pick)
  {
  }

  lemma SwapIsStep(h: Hasher, s: Tables, n: nat, j: nat)
    requires Inv(h, s) && n <= j < |s.random|
    ensures SwapRandom(s, n, j).random == s.random[n := s.random[j]][j := s.random[n]]
  {
    assert HasRandomPos(s, s.random[n], n) && HasRandomPos(s, s.random[j], j);
  }

  /**
   * getaddr shuffles the random order as far as it looks, and answers with the entries there
   * that are not worthless; it looks on until the answer is full.
   */
  lemma GetAddrShuffles(h: Hasher, s: Tables, pick: nat -> nat, now: int) returns (stop: nat)
    requires Inv(h, s)
    ensures var (t, out) := GetAddr(s, pick, now);
            && stop <= |s.random| && t.random == Shuffle(s.random, 0, stop, pick) && |t.random| == |s.random|
            && out == Decent(t, stop, now)
            && |out| <= AnswerLimit(s) && (stop == |s.random| || |out| == AnswerLimit(s))
  {
    hide Inv;
    stop := GatherShuffles(h, s, 0, AnswerLimit(s), pick, now, []);
  }

  // ---------------------------------------------------------------------------
  // Adding
  // ---------------------------------------------------------------------------

  /** The announced time less the penalty, which a self-announcement does not pay, in 32 bits. */
  function Aged(m: Announce): nat {
    var penalty := if m.addr.net == m.source then 0 else m.penalty;
    (if m.time < penalty then 0 else m.time - penalty) % 0x1_0000_0000
  }

  /** The entry is as it was, except for its position in the random order. */
  ghost predicate Untouched(i: Info, j: Info) {
    j == i.(randomPos := j.randomPos)
  }

  /** Entries other than `id` stay as they are, but the one at the place that is taken loses a reference. */
  ghost predicate OnlyDisplaced(s: Tables, t: Tables, id: int, place: Slot, taken: bool) {
    forall x :: x in s.info && x != id ==>
      if taken && place in s.newTab && s.newTab[place] == x
      then (x in t.info <==> s.info[x].refCount > 1)
           && (x in t.info ==> Untouched(s.info[x].(refCount := s.info[x].refCount - 1), t.info[x]))
      else x in t.info && Untouched(s.info[x], t.info[x])
  }

  /** A reference to `id` may be put at a place. */
  ghost predicate MayEnter(s: Tables, place: Slot, id: int, now: int)
    requires id in s.info
  {
    place in s.newTab ==>
      && s.newTab[place] != id && s.newTab[place] in s.info
      && (Worthless(s.info[s.newTab[place]], now)
          || (s.info[s.newTab[place]].refCount > 1 && s.info[id].refCount == 0))
  }

  lemma PlaceExact(h: Hasher, s: Tables, id: int, source: NetAddr, now: int)
    requires id in s.info && !s.info[id].inTried && s.info[id].refCount < MAX_REFS
    requires Midway(h, s, if s.info[id].refCount == 0 then {id} else {}, {})
    ensures var t := Place(h, s, id, source, now);
            var place := NewPlace(h, s.info[id].addr, source);
            if MayEnter(s, place, id, now) then
              && id in t.info && Untouched(s.info[id].(refCount := s.info[id].refCount + 1), t.info[id])
              && t.newTab == s.newTab[place := id] && OnlyDisplaced(s, t, id, place, true)
              && t.triedTab == s.triedTab && t.idCount == s.idCount && t.lastGood == s.lastGood
            else if s.info[id].refCount == 0 then t == Delete(s, id)
            else t == s
  {
    var idle := if s.info[id].refCount == 0 then {id} else {};
    var place := NewPlace(h, s.info[id].addr, source);
    PlacesAre(h, s.info[id].addr, source);
    HoldsPlace(s, id, place, idle);
    OccupantKnown(h, s, place, now);
    if place in s.newTab {
      HoldsPlace(s, s.newTab[place], place, idle);
    }
    ClearNewKeeps(h, s, place, idle, {});
    hide Midway, NewPlace, NewSlot, Worthless, IsTerrible, ClearNew, Delete;
    if MayEnter(s, place, id, now) {
      EnterExact(s, ClearNew(s, place), id, place);
    }
  }

  lemma OccupantKnown(h: Hasher, s: Tables, place: Slot, now: int)
    requires NewOk(h, s)
    ensures place in s.newTab ==>
              && s.newTab[place] in s.info
              && (IsTerrible(s.info[s.newTab[place]], now) <==> Worthless(s.info[s.newTab[place]], now))
  {
    if place in s.newTab {
      assert NewAt(h, s, s.newTab[place], place);
      TerribleExact(s.info[s.newTab[place]], now);
    }
  }

  lemma EnterExact(s: Tables, u: Tables, id: int, place: Slot)
    requires id in s.info && OnlyCleared(s, u, place) && u == ClearNew(s, place)
    requires place in s.newTab ==>
               s.newTab[place] in s.info && s.newTab[place] != id && s.info[s.newTab[place]].refCount > 0
    ensures id in u.info
    ensures var t := AddSlot(u, id, place);
            && Untouched(s.info[id].(refCount := s.info[id].refCount + 1), t.info[id])
            && t.newTab == s.newTab[place := id] && OnlyDisplaced(s, t, id, place, true)
            && t.triedTab == s.triedTab && t.idCount == s.idCount && t.lastGood == s.lastGood
  {
    hide ClearNew;
    var t := AddSlot(u, id, place);
    assert (s.newTab - {place})[place := id] == s.newTab[place := id];
    if place in s.newTab && s.newTab[place] in t.info {
      DroppedOne(s, place);
    }
  }

  /** ClearNew takes one reference from the holder of the place. */
  lemma DroppedOne(s: Tables, place: Slot)
    requires place in s.newTab && s.newTab[place] in s.info && s.newTab[place] in ClearNew(s, place).info
    ensures ClearNew(s, place).info[s.newTab[place]]
            == s.info[s.newTab[place]].(refCount := s.info[s.newTab[place]].refCount - 1)
  {
  }

  /**
   * Add_ of an unknown address.  It stays exactly if the place its source dictates is free, or
   * is held by a worthless entry or by one with another reference.  Then the entry holds what
   * was announced and has that place; otherwise only an id is used up.
   */
  lemma AddUnknown(h: Hasher, s: Tables, m: Announce)
    requires Inv(h, s) && m.routable && m.addr.net !in s.addrs
    ensures var (t, isNew) := Add(h, s, m);
            var id, place := s.idCount, NewPlace(h, m.addr, m.source);
            var stays := place in s.newTab ==>
                           && s.newTab[place] in s.info
                           && (Worthless(s.info[s.newTab[place]], m.now) || s.info[s.newTab[place]].refCount > 1);
            && isNew && (id in t.info <==> stays)
            && (stays ==>
                  && t.info[id].addr == m.addr && t.info[id].services == m.services && t.info[id].source == m.source
                  && t.info[id].time == Aged(m) && !t.info[id].inTried && t.info[id].refCount == 1
                  && t.info[id].lastTry == t.info[id].lastCount == t.info[id].lastSuccess == t.info[id].attempts == 0
                  && t.newTab == s.newTab[place := id] && t.triedTab == s.triedTab
                  && OnlyDisplaced(s, t, id, place, true) && t.lastGood == s.lastGood)
            && (!stays ==> t == s.(idCount := id + 1))
  {
    hide Inv, Midway, NewPlace, Worthless, Add, CreateNew, Place, Delete, Aged, OnlyDisplaced;
    var id, u := s.idCount, CreateNew(s, m);
    AddIsPlace(h, s, m);
    CreatedExact(h, s, m);
    PlaceExact(h, u, id, m.source, m.now);
    var place := NewPlace(h, m.addr, m.source);
    if MayEnter(u, place, id, m.now) {
      DisplacedFrom(s, u, Place(h, u, id, m.source, m.now), id, place);
    }
  }

  lemma AddIsPlace(h: Hasher, s: Tables, m: Announce)
    requires Inv(h, s) && m.routable && m.addr.net !in s.addrs
    ensures var u, id := CreateNew(s, m), s.idCount;
            && id in u.info && !u.info[id].inTried && u.info[id].refCount == 0
            && Midway(h, u, {id}, {}) && Add(h, s, m) == (Place(h, u, id, m.source, m.now), true)
  {
    hide Midway, Place, CreateNew;
    AddStages(h, s, m);
    PreparedKeeps(h, s, m);
    CreatedExact(h, s, m);
  }

  lemma DisplacedFrom(s: Tables, u: Tables, t: Tables, id: int, place: Slot)
    requires OnlyDisplaced(u, t, id, place, true) && u.newTab == s.newTab
    requires forall x :: x in s.info && x != id ==> x in u.info && u.info[x] == s.info[x]
    ensures OnlyDisplaced(s, t, id, place, true)
  {
  }

  lemma CreatedExact(h: Hasher, s: Tables, m: Announce)
    requires Inv(h, s) && m.addr.net !in s.addrs
    ensures var u, id := CreateNew(s, m), s.idCount;
            && id !in s.info && (forall x :: x in s.info ==> x in u.info && u.info[x] == s.info[x])
            && id in u.info && u.newTab == s.newTab && u.triedTab == s.triedTab && u.lastGood == s.lastGood
            && u.info[id] == Info(m.addr, Aged(m), m.services, m.source, 0, 0, 0, 0, 0, false, u.info[id].randomPos)
            && Delete(u, id) == s.(idCount := id + 1)
            && (forall slot :: slot in s.newTab ==> s.newTab[slot] != id && s.newTab[slot] in s.info)
  {
    FreshId(h, s);
    hide Inv;
    var u, id := CreateNew(s, m), s.idCount;
    assert u.random[..|u.random| - 1] == s.random;
    assert u.addrs - {m.addr.net} == s.addrs;
    assert u.info - {id} == s.info;
  }

  lemma FreshId(h: Hasher, s: Tables)
    requires Inv(h, s)
    ensures s.idCount !in s.info
    ensures forall slot :: slot in s.newTab ==> s.newTab[slot] != s.idCount && s.newTab[slot] in s.info
  {
    forall slot | slot in s.newTab ensures s.newTab[slot] != s.idCount && s.newTab[slot] in s.info {
      assert NewAt(h, s, s.newTab[slot], slot);
    }
  }

  /** Whether the time of a known entry is brought up to date: hourly if online, else daily. */
  predicate Newer(i: Info, m: Announce) {
    var penalty := if m.addr.net == m.source then 0 else m.penalty;
    var interval := if m.now - m.time < 86400 then 3600 else 86400;
    m.time != 0 && (i.time == 0 || i.time + interval + penalty < m.time)
  }

  /** Whether a known entry with this time is worth a further reference: news, and the roll succeeds. */
  predicate GoesOn(i: Info, time: nat, m: Announce) {
    m.time != 0 && (time == 0 || time < m.time) && !i.inTried && i.refCount != 8 && m.roll == 0
  }

  /**
   * Add_ of a known address: its services grow by the announced ones, its time changes exactly
   * by the rule above, and it gains a reference exactly if it goes on and may have the place.
   */
  lemma AddKnown(h: Hasher, s: Tables, m: Announce)
    requires Inv(h, s) && m.routable && m.addr.net in s.addrs
    ensures s.addrs[m.addr.net] in s.info
    ensures var (t, isNew) := Add(h, s, m);
            var id := s.addrs[m.addr.net];
            var i, place := s.info[id], NewPlace(h, s.info[id].addr, m.source);
            var time := if Newer(i, m) then Aged(m) else i.time;
            var taken := GoesOn(i, time, m)
                         && (place in s.newTab ==>
                               && s.newTab[place] != id && s.newTab[place] in s.info
                               && Worthless(s.info[s.newTab[place]], m.now));
            && !isNew && id in t.info
            && Untouched(i.(time := time, services := i.services + m.services,
                            refCount := i.refCount + (if taken then 1 else 0)), t.info[id])
            && t.newTab == (if taken then s.newTab[place := id] else s.newTab)
            && t.triedTab == s.triedTab && t.idCount == s.idCount && t.lastGood == s.lastGood
            && OnlyDisplaced(s, t, id, place, taken)
  {
    hide Inv, Midway, NewPlace, Worthless, Add, Place, Delete, Aged, Newer, GoesOn, OnlyDisplaced;
    KnownStages(h, s, m);
    FreshId(h, s);
    var id := s.addrs[m.addr.net];
    var time := if Newer(s.info[id], m) then Aged(m) else s.info[id].time;
    var u := SetInfo(s, id, s.info[id].(time := time, services := s.info[id].services + m.services));
    if GoesOn(s.info[id], time, m) {
      PlaceExact(h, u, id, m.source, m.now);
      var place := NewPlace(h, s.info[id].addr, m.source);
      if MayEnter(u, place, id, m.now) {
        DisplacedFrom(s, u, Place(h, u, id, m.source, m.now), id, place);
      } else {
        NoneDisplaced(s, u, id, place);
      }
    } else {
      NoneDisplaced(s, u, id, NewPlace(h, s.info[id].addr, m.source));
    }
  }

  lemma NoneDisplaced(s: Tables, u: Tables, id: int, place: Slot)
    requires forall x :: x in s.info && x != id ==> x in u.info && u.info[x] == s.info[x]
    ensures OnlyDisplaced(s, u, id, place, false)
  {
  }

  /** Add_ of a known address brings the entry up to date and then places a reference if it goes on. */
  lemma KnownStages(h: Hasher, s: Tables, m: Announce)
    requires Inv(h, s) && m.routable && m.addr.net in s.addrs
    ensures s.addrs[m.addr.net] in s.info
    ensures var id := s.addrs[m.addr.net];
            var i := s.info[id];
            var time := if Newer(i, m) then Aged(m) else i.time;
            var u := SetInfo(s, id, i.(time := time, services := i.services + m.services));
            && Add(h, s, m) == (if GoesOn(i, time, m) then Place(h, u, id, m.source, m.now) else u, false)
            && (GoesOn(i, time, m) ==> 0 < i.refCount < MAX_REFS && !i.inTried && Midway(h, u, {}, {}))
  {
    var id := s.addrs[m.addr.net];
    FindExact(h, s, m.addr.net);
    AddStages(h, s, m);
    RefreshExact(s.info[id], m) by { NewEntry(s, id); }
    if Wanted(s, m, id) {
      PreparedKeeps(h, s, m);
    }
    hide Inv, Midway, Add, Place, Aged, Newer, Refresh, Enough;
  }

  lemma RefreshExact(i: Info, m: Announce)
    requires !i.inTried ==> i.refCount > 0
    ensures var j := Refresh(i, m);
            && j == i.(time := if Newer(i, m) then Aged(m) else i.time, services := i.services + m.services)
            && (Enough(j, m) <==> !GoesOn(i, j.time, m))
  {
  }

  // ---------------------------------------------------------------------------
  // Praising
  // ---------------------------------------------------------------------------

  /** The service, port included, is known as entry `id`. */
  ghost predicate KnownAs(s: Tables, a: Service, id: int) {
    a.net in s.addrs && s.addrs[a.net] == id && id in s.info && s.info[id].addr == a
  }

  ghost predicate Unknown(s: Tables, a: Service) {
    forall id :: !KnownAs(s, a, id)
  }

  /** The entry is as it was, except for where it is. */
  ghost predicate OnlyMoved(i: Info, j: Info) {
    j == i.(refCount := j.refCount, inTried := j.inTried, randomPos := j.randomPos)
  }

  /**
   * Good_ of a known service: its entry is tried, at its own place and nowhere else, with the
   * given time as last try and last success and no failed attempts.  The tried entry that was
   * there gets one reference, at the place its own source dictates.  Nothing else changes.
   */
  lemma GoodExact(h: Hasher, s: Tables, a: Service, time: int, id: int)
    requires Inv(h, s) && KnownAs(s, a, id)
    ensures var t := Good(h, s, a, time);
            var i, place := s.info[id], TriedPlace(h, a);
            && id in t.info && t.lastGood == time && t.idCount == s.idCount
            && t.info[id] == i.(lastSuccess := time, lastTry := time, attempts := 0, inTried := true, refCount := 0,
                                randomPos := t.info[id].randomPos)
            && t.triedTab == s.triedTab[place := id]
            && (forall x :: x in t.info && x != id ==> x in s.info && OnlyMoved(s.info[x], t.info[x]))
            && (i.inTried ==> t.newTab == s.newTab && forall x :: x in s.info ==> x in t.info)
            && (!i.inTried && place !in s.triedTab ==> t.newTab == s.newTab - SlotsOf(s, id))
            && (!i.inTried && place in s.triedTab ==>
                  var e := s.triedTab[place];
                  && e in s.info && e in t.info && !t.info[e].inTried && t.info[e].refCount == 1
                  && t.newTab == (s.newTab - SlotsOf(s, id))[NewPlace(h, s.info[e].addr, s.info[e].source) := e])
  {
    hide Inv, Good, MakeTried, NewPlace, TriedPlace, NewSlot, TriedSlot, SlotsOf;
    GoodPromotes(h, s, a, time);
    PlacesAre(h, a, 0);
    if s.info[id].inTried {
      TriedFacts(h, s, id);
      assert s.triedTab[TriedPlace(h, a) := id] == s.triedTab;
    } else {
      PromotedExact(h, s, id, time);
    }
  }

  lemma TriedFacts(h: Hasher, s: Tables, id: int)
    requires Inv(h, s) && id in s.info && s.info[id].inTried
    ensures TriedSlot(h, s.info[id].addr) in s.triedTab && s.triedTab[TriedSlot(h, s.info[id].addr)] == id
    ensures s.info[id].refCount == 0 && SlotsOf(s, id) == {}
  {
    hide TriedSlot;
    assert s.info[id].refCount == |SlotsOf(s, id)|;
  }

  lemma PromotedExact(h: Hasher, s: Tables, id: int, time: int)
    requires id in s.info && !s.info[id].inTried && Inv(h, s) && Inv(h, Praised(s, id, time))
    ensures var u := Praised(s, id, time);
            var t, place := MakeTried(h, u, id), TriedPlace(h, s.info[id].addr);
            && id in t.info && t.lastGood == time && t.idCount == s.idCount
            && t.info[id] == u.info[id].(inTried := true, refCount := 0, randomPos := t.info[id].randomPos)
            && t.triedTab == s.triedTab[place := id]
            && (forall x :: x in t.info && x != id ==> x in s.info && OnlyMoved(s.info[x], t.info[x]))
            && (place !in s.triedTab ==> t.newTab == s.newTab - SlotsOf(s, id))
            && (place in s.triedTab ==>
                  var e := s.triedTab[place];
                  && e in s.info && e in t.info && !t.info[e].inTried && t.info[e].refCount == 1
                  && t.newTab == (s.newTab - SlotsOf(s, id))[NewPlace(h, s.info[e].addr, s.info[e].source) := e])
  {
    hide Inv, MakeTried, NewPlace, TriedPlace, NewSlot, TriedSlot, Lost, SlotsOf;
    var u := Praised(s, id, time);
    var t, place := MakeTried(h, u, id), TriedPlace(h, s.info[id].addr);
    MakeTriedKeeps(h, u, id);
    PromotionCounters(h, u, id);
    PlacesAre(h, s.info[id].addr, 0);
    TriedFacts(h, t, id);
    assert SlotsOf(u, id) == SlotsOf(s, id) by { SameSlots(s, u, id); }
    forall x | x in t.info ensures x in u.info && SameAddr(u.info[x], t.info[x]) {
    }
    if place in s.triedTab {
      var e := s.triedTab[place];
      EvictedFacts(h, s, place, id);
      PlacesAre(h, s.info[e].addr, s.info[e].source);
      RehousedCount(h, s, u, t, id, e);
    }
  }

  lemma SameSlots(s: Tables, u: Tables, id: int)
    requires u.newTab == s.newTab
    ensures SlotsOf(u, id) == SlotsOf(s, id)
  {
  }

  lemma EvictedFacts(h: Hasher, s: Tables, place: Slot, id: int)
    requires Inv(h, s) && place in s.triedTab && id in s.info && !s.info[id].inTried
    ensures var e := s.triedTab[place]; e in s.info && e != id && s.info[e].inTried && SlotsOf(s, e) == {}
  {
    hide TriedSlot;
    var e := s.triedTab[place];
    assert TriedAt(h, s, e, place);
    TriedFacts(h, s, e);
  }

  lemma RehousedCount(h: Hasher, s: Tables, u: Tables, t: Tables, id: int, e: int)
    requires Inv(h, t) && e in s.info && e in t.info && SlotsOf(s, e) == {} && u.newTab == s.newTab
    requires t.newTab == (u.newTab - SlotsOf(u, id))[Target(h, s.info[e]) := e]
    ensures t.info[e].refCount == 1
  {
    hide NewSlot;
    assert t.info[e].refCount == |SlotsOf(t, e)|;
    NoSlots(s, e);
    assert SlotsOf(t, e) == {Target(h, s.info[e])};
  }

  /** A promotion leaves the id counter and the last success of all alone. */
  lemma PromotionCounters(h: Hasher, s: Tables, id: int)
    requires id in s.info
    ensures MakeTried(h, s, id).idCount == s.idCount && MakeTried(h, s, id).lastGood == s.lastGood
  {
    hide NewSlot, TriedSlot, FoundIn, ClearNew;
    var slot, t := TriedSlot(h, s.info[id].addr), Unlink(h, s, id, NEW_BUCKETS).(nNew := s.nNew - 1);
    if slot in t.triedTab && t.triedTab[slot] in t.info {
      EvictCounters(h, t, slot);
    }
  }

  lemma EvictCounters(h: Hasher, s: Tables, slot: Slot)
    requires slot in s.triedTab && s.triedTab[slot] in s.info
    ensures Evict(h, s, slot).idCount == s.idCount && Evict(h, s, slot).lastGood == s.lastGood
  {
    hide NewSlot, ClearNew;
    var i := s.info[s.triedTab[slot]];
    var t := SetInfo(s, s.triedTab[slot], i.(inTried := false));
    t := t.(triedTab := s.triedTab - {slot}, nTried := s.nTried - 1);
    ClearNewCounters(t, NewSlot(h, i.addr, i.source));
  }

  lemma ClearNewCounters(s: Tables, slot: Slot)
    ensures ClearNew(s, slot).idCount == s.idCount && ClearNew(s, slot).lastGood == s.lastGood
  {
  }

  /** Good_ of an unknown service only records the time. */
  lemma GoodUnknown(h: Hasher, s: Tables, a: Service, time: int)
    requires Unknown(s, a)
    ensures Good(h, s, a, time) == s.(lastGood := time)
  {
    assert Exactly(s, a).Some? ==> KnownAs(s, a, Exactly(s, a).value);
  }

  // ---------------------------------------------------------------------------
  // Bookkeeping
  // ---------------------------------------------------------------------------

  /** Only the entry `id` differs. */
  ghost predicate OnlyEntry(s: Tables, t: Tables, id: int) {
    && t == s.(info := t.info) && t.info.Keys == s.info.Keys
    && forall x :: x in s.info && x != id ==> t.info[x] == s.info[x]
  }

  /** Attempt_ counts a failure only if none was counted since the last success of any address. */
  lemma AttemptExact(s: Tables, a: Service, countFailure: bool, time: int, id: int)
    ensures var t := Attempt(s, a, countFailure, time);
            && (Unknown(s, a) ==> t == s)
            && (KnownAs(s, a, id) ==>
                  var counts := countFailure && s.info[id].lastCount < s.lastGood;
                  && OnlyEntry(s, t, id)
                  && t.info[id] == s.info[id].(lastTry := time,
                                               lastCount := if counts then time else s.info[id].lastCount,
                                               attempts := s.info[id].attempts + (if counts then 1 else 0)))
  {
    assert Exactly(s, a).Some? ==> KnownAs(s, a, Exactly(s, a).value);
  }

  /** Two attempts without a success in between count as one failure, unless the clock was behind. */
  lemma AttemptOnce(s: Tables, a: Service, t1: int, t2: int, id: int)
    requires KnownAs(s, a, id) && t1 >= s.lastGood
    ensures var t := Attempt(s, a, true, t1);
            KnownAs(t, a, id) && Attempt(t, a, true, t2).info[id].attempts == t.info[id].attempts
  {
  }

  /** Connected_ dates an entry anew if it was last seen more than twenty minutes before. */
  lemma ConnectedExact(s: Tables, a: Service, time: int, id: int)
    ensures var t := Connected(s, a, time);
            && (Unknown(s, a) ==> t == s)
            && (KnownAs(s, a, id) ==>
                  && OnlyEntry(s, t, id)
                  && t.info[id] == s.info[id].(time := if s.info[id].time + 1200 < time then time % 0x1_0000_0000
                                                       else s.info[id].time))
  {
    assert Exactly(s, a).Some? ==> KnownAs(s, a, Exactly(s, a).value);
  }

  /** SetServices_ replaces the services, and a second call replaces the first. */
  lemma SetServicesExact(s: Tables, a: Service, services: Services, id: int)
    ensures var t := SetServices(s, a, services);
            && (Unknown(s, a) ==> t == s)
            && (KnownAs(s, a, id) ==> OnlyEntry(s, t, id) && t.info[id] == s.info[id].(services := services))
  {
    assert Exactly(s, a).Some? ==> KnownAs(s, a, Exactly(s, a).value);
  }
}
