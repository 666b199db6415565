/** The address manager's own consistency check (Check_, src/addrman.cpp), and what it decides. */
module AddrCheck {
  import opened Wrappers
  import opened Sets
  import T = AddrTables
  import V = AddrInvariant
  import I = AddrImage
  import P = AddrRestore
  import R = AddrRuns
  import A = AddrMan

  // ---------------------------------------------------------------------------
  // What a zero result means
  // ---------------------------------------------------------------------------

  /** mapAddr[info]: a missing address reads as id 0. */
  function AddrId(s: T.Tables, a: T.NetAddr): int {
    if a in s.addrs then s.addrs[a] else 0
  }

  predicate EntryOk(s: T.Tables, id: int)
    requires id in s.info
  {
    var i := s.info[id];
    && (if i.inTried then i.lastSuccess != 0 && i.refCount == 0 else 1 <= i.refCount <= T.MAX_REFS)
    && AddrId(s, i.addr.net) == id
    && 0 <= i.randomPos < |s.random| && s.random[i.randomPos] == id
    && i.lastTry >= 0 && i.lastSuccess >= 0
  }

  ghost predicate EntriesOk(s: T.Tables) {
    forall id :: id in s.info ==> EntryOk(s, id)
  }

  /** New entries have exactly their reference count of places. */
  ghost predicate RefsExact(s: T.Tables) {
    forall id :: id in s.info && !s.info[id].inTried ==> s.info[id].refCount == |V.SlotsOf(s, id)|
  }

  ghost predicate Passes(h: T.Hasher, s: T.Tables) {
    && |s.random| == s.nTried + s.nNew
    && EntriesOk(s)
    && s.nTried == |V.TriedIds(s)| && s.nNew == |V.NewIds(s)|
    && V.TriedOk(h, s) && V.NewOk(h, s) && RefsExact(s)
  }

  /** Every reachable manager with positive times passes. */
  lemma ConsistentPasses(h: T.Hasher, s: T.Tables)
    requires V.Inv(h, s) && V.TimesOk(s)
    ensures Passes(h, s)
  {
    RandomLength(h, s);
    forall id | id in s.info ensures EntryOk(s, id) {
      assert s.info[id].refCount == |V.SlotsOf(s, id)|;
    }
  }

  /** vRandom lists every entry once. */
  lemma RandomLength(h: T.Hasher, s: T.Tables)
    requires V.Inv(h, s)
    ensures |s.random| == s.nTried + s.nNew
  {
    RandomDistinct(s);
    DistinctSize(s.random);
    RandomElements(s);
    assert V.NewIds(s) !! V.TriedIds(s);
  }

  lemma RandomDistinct(s: T.Tables)
    requires V.RandomOk(s)
    ensures Distinct(s.random)
  {
    forall p, q | 0 <= p < q < |s.random| ensures s.random[p] != s.random[q] {
      assert V.HasRandomPos(s, s.random[p], p) && V.HasRandomPos(s, s.random[q], q);
    }
  }

  lemma RandomElements(s: T.Tables)
    requires V.RandomOk(s)
    ensures Elements(s.random) == V.NewIds(s) + V.TriedIds(s)
  {
    forall id ensures id in s.random <==> id in s.info {
      if id in s.random {
        var p :| 0 <= p < |s.random| && s.random[p] == id;
        assert V.HasRandomPos(s, s.random[p], p);
      }
      if id in s.info {
        assert s.random[s.info[id].randomPos] == id;
      }
    }
    assert forall id :: id in Elements(s.random) <==> id in V.NewIds(s) + V.TriedIds(s);
  }

  /** Every run with positive times from an empty manager passes its own check. */
  lemma RunPasses(h: T.Hasher, ops: seq<R.Op>)
    requires forall i :: 0 <= i < |ops| ==> R.Timely(ops[i])
    ensures Passes(h, R.Run(h, T.EMPTY, ops))
  {
    R.EmptyKeeps(h);
    hide V.Inv, Passes;
    R.RunConsistent(h, T.EMPTY, ops);
    ConsistentPasses(h, R.Run(h, T.EMPTY, ops));
  }

  /** A saved and restored manager passes the check at the end of loading whenever the saved one does. */
  lemma RestoredPasses(h: T.Hasher, s: T.Tables)
    requires V.Inv(h, s) && Passes(h, s)
    ensures I.Unserialize(h, I.Serialize(s)).Some? && Passes(h, I.Unserialize(h, I.Serialize(s)).value)
  {
    assert V.AddrsOk(s);
    hide V.Inv, Passes, I.Unserialize, I.Serialize, V.TimesOk;
    PassesMeansConsistent(h, s);
    P.RoundTrip(h, s);
    ConsistentPasses(h, I.Unserialize(h, I.Serialize(s)).value);
  }

  // ---------------------------------------------------------------------------
  // The converse
  // ---------------------------------------------------------------------------

  ghost function Positions(s: T.Tables, ids: set<int>): set<int>
    requires forall id :: id in ids ==> id in s.info
  {
    set id | id in ids :: s.info[id].randomPos
  }

  /** Entries at different positions: as many positions as entries. */
  lemma {:induction false} PositionsCount(s: T.Tables, ids: set<int>)
    requires forall id :: id in ids ==> id in s.info && EntryOk(s, id)
    ensures |Positions(s, ids)| == |ids|
    decreases ids
  {
    if |ids| > 0 {
      var x := P.PickId(ids);
      var rest := ids - {x};
      PositionsCount(s, rest);
      var p := s.info[x].randomPos;
      forall id | id in rest ensures s.info[id].randomPos != p {
        assert EntryOk(s, id) && EntryOk(s, x);
      }
      assert p !in Positions(s, rest);
      assert Positions(s, ids) == Positions(s, rest) + {p};
    }
  }

  lemma AllPositions(s: T.Tables, p: int)
    requires EntriesOk(s) && |s.random| == |V.TriedIds(s)| + |V.NewIds(s)| && 0 <= p < |s.random|
    ensures V.HasRandomPos(s, s.random[p], p)
  {
    var ids := V.TriedIds(s) + V.NewIds(s);
    assert V.TriedIds(s) !! V.NewIds(s);
    PositionsCount(s, ids);
    var all := P.Range(0, |s.random|);
    forall q | q in Positions(s, ids) ensures q in all {
      var id :| id in ids && s.info[id].randomPos == q;
      assert EntryOk(s, id);
    }
    SubsetSize(Positions(s, ids), all);
    assert p in all;
    var id :| id in ids && s.info[id].randomPos == p;
    assert EntryOk(s, id);
  }

  /** Passing the check, with mapAddr the inverse of mapInfo, is the whole invariant. */
  lemma PassesMeansConsistent(h: T.Hasher, s: T.Tables)
    requires V.AddrsOk(s)
    ensures Passes(h, s) <==> V.Inv(h, s) && V.TimesOk(s)
  {
    if V.Inv(h, s) && V.TimesOk(s) {
      ConsistentPasses(h, s);
    }
    if Passes(h, s) {
      forall p | 0 <= p < |s.random| ensures V.HasRandomPos(s, s.random[p], p) {
        AllPositions(s, p);
      }
      hide V.AddrsOk, V.NewOk, V.TriedIds, V.NewIds;
      forall id | id in s.info ensures s.info[id].refCount == |V.SlotsOf(s, id)| <= T.MAX_REFS && EntryOk(s, id) {
        assert EntryOk(s, id);
        if s.info[id].inTried {
          TriedHasNoPlace(h, s, id);
        }
      }
    }
  }

  /** What passes is the whole invariant exactly if mapAddr is the inverse of mapInfo. */
  lemma PassesExactly(h: T.Hasher, s: T.Tables)
    requires Passes(h, s)
    ensures V.Inv(h, s) <==> V.AddrsOk(s)
  {
    if V.AddrsOk(s) {
      PassesMeansConsistent(h, s);
    }
  }

  /** A surplus address passes unnoticed. */
  lemma SurplusPasses(h: T.Hasher)
    ensures var s := T.EMPTY.(addrs := map[3 := 5]);
            Passes(h, s) && !V.AddrsOk(s) && !V.Inv(h, s)
  {
    var s := T.EMPTY.(addrs := map[3 := 5]);
    assert V.TriedIds(s) == {} && V.NewIds(s) == {};
    assert !V.HasAddr(s, s.addrs[3], 3);
  }

  /** A known address praised with a time of 0 or less fails the check. */
  lemma UntimelyFails(h: T.Hasher, m: T.Announce, time: int)
    requires m.routable && time <= 0
    ensures var s := R.Run(h, T.EMPTY, [R.DoAdd(m), R.DoGood(m.addr, time)]);
            V.Inv(h, s) && !V.TimesOk(s) && !Passes(h, s)
  {
    var s := R.Run(h, T.EMPTY, [R.DoAdd(m), R.DoGood(m.addr, time)]);
    R.UntimelyRun(h, m, time);
    assert V.AddrsOk(s);
    hide V.Inv, V.TimesOk, Passes, R.Run;
    PassesMeansConsistent(h, s);
  }

  lemma TriedHasNoPlace(h: T.Hasher, s: T.Tables, id: int)
    requires V.NewOk(h, s) && id in s.info && s.info[id].inTried
    ensures V.SlotsOf(s, id) == {}
  {
    forall slot | slot in s.newTab ensures s.newTab[slot] != id {
      assert V.NewAt(h, s, s.newTab[slot], slot);
    }
  }

  // ---------------------------------------------------------------------------
  // The tried buckets
  // ---------------------------------------------------------------------------

  ghost predicate SeenAt(s: T.Tables, id: int, b: nat, p: nat) {
    exists slot :: slot in s.triedTab && s.triedTab[slot] == id && P.Before(slot, b, p)
  }

  /** Places before (b, p) are right, and `left` holds the tried entries not seen there. */
  ghost predicate TriedSeen(h: T.Hasher, s: T.Tables, left: set<int>, b: nat, p: nat) {
    && (forall slot :: slot in s.triedTab && P.Before(slot, b, p) ==> V.TriedAt(h, s, s.triedTab[slot], slot))
    && (forall id :: id in left <==> id in V.TriedIds(s) && !SeenAt(s, id, b, p))
  }

  lemma TriedSkip(h: T.Hasher, s: T.Tables, left: set<int>, b: nat, p: nat)
    requires TriedSeen(h, s, left, b, p) && T.Slot(b, p) !in s.triedTab
    ensures TriedSeen(h, s, left, b, p + 1)
  {
    P.BeforeStep(b, p);
    forall id ensures SeenAt(s, id, b, p + 1) <==> SeenAt(s, id, b, p) {
    }
  }

  lemma TriedHit(h: T.Hasher, s: T.Tables, left: set<int>, b: nat, p: nat)
    requires TriedSeen(h, s, left, b, p) && T.Slot(b, p) in s.triedTab
    ensures V.TriedAt(h, s, s.triedTab[T.Slot(b, p)], T.Slot(b, p)) ==>
              s.triedTab[T.Slot(b, p)] in left && TriedSeen(h, s, left - {s.triedTab[T.Slot(b, p)]}, b, p + 1)
    ensures s.triedTab[T.Slot(b, p)] in left ==>
              s.triedTab[T.Slot(b, p)] in s.info && s.info[s.triedTab[T.Slot(b, p)]].inTried
  {
    var slot := T.Slot(b, p);
    var x := s.triedTab[slot];
    P.BeforeStep(b, p);
    if V.TriedAt(h, s, x, slot) {
      assert !SeenAt(s, x, b, p);
      forall id ensures SeenAt(s, id, b, p + 1) <==> SeenAt(s, id, b, p) || id == x {
        if id == x {
          assert P.Before(slot, b, p + 1);
        }
      }
    }
  }

  method CheckTriedSlot(am: A.AddrMan, b: nat, p: nat, left: set<int>) returns (code: int, left': set<int>)
    requires am.Shaped() && b < T.TRIED_BUCKETS && p < T.BUCKET_SIZE
    requires TriedSeen(am.hasher, am.Tables(), left, b, p)
    ensures code == 0 ==> TriedSeen(am.hasher, am.Tables(), left', b, p + 1)
    ensures code != 0 ==> !V.TriedOk(am.hasher, am.Tables())
  {
    ghost var s := am.Tables();
    ghost var slot := T.Slot(b, p);
    A.Lookup(am.vvTried, b, p);
    var id := am.vvTried[b, p];
    left' := left;
    if id == A.EMPTY_SLOT {
      TriedSkip(am.hasher, s, left, b, p);
      return 0, left;
    }
    TriedHit(am.hasher, s, left, b, p);
    hide TriedSeen, A.Occupied;
    assert slot in s.triedTab && s.triedTab[slot] == id;
    if id !in left {
      return -11, left;
    }
    var a := am.info[id].addr;
    if am.hasher.triedHash(a) % T.TRIED_BUCKETS != b {
      return -17, left;
    }
    if T.Position(am.hasher, false, b, a) != p {
      return -18, left;
    }
    return 0, left - {id};
  }

  method CheckTried(am: A.AddrMan, setTried: set<int>) returns (code: int, left: set<int>)
    requires am.Shaped() && setTried == V.TriedIds(am.Tables())
    ensures code == 0 ==> TriedSeen(am.hasher, am.Tables(), left, T.TRIED_BUCKETS, 0)
    ensures code != 0 ==> !V.TriedOk(am.hasher, am.Tables())
  {
    ghost var s := am.Tables();
    left := setTried;
    hide TriedSeen, V.TriedOk, V.TriedIds, A.Occupied;
    TriedStart(am.hasher, s);
    for b := 0 to T.TRIED_BUCKETS
      invariant TriedSeen(am.hasher, am.Tables(), left, b, 0)
    {
      hide TriedSeen, V.TriedOk, V.TriedIds, A.Occupied;
      for p := 0 to T.BUCKET_SIZE
        invariant TriedSeen(am.hasher, am.Tables(), left, b, p)
      {
        hide TriedSeen, V.TriedOk, V.TriedIds, A.Occupied;
        code, left := CheckTriedSlot(am, b, p, left);
        if code != 0 {
          return code, left;
        }
      }
      TriedNextBucket(am, left, b);
    }
    code := 0;
  }

  lemma TriedStart(h: T.Hasher, s: T.Tables)
    ensures TriedSeen(h, s, V.TriedIds(s), 0, 0)
  {
  }

  lemma TriedNextBucket(am: A.AddrMan, left: set<int>, b: nat)
    requires am.Shaped() && TriedSeen(am.hasher, am.Tables(), left, b, T.BUCKET_SIZE)
    ensures TriedSeen(am.hasher, am.Tables(), left, b + 1, 0)
  {
    var s := am.Tables();
    forall slot | slot in s.triedTab ensures P.Before(slot, b + 1, 0) <==> P.Before(slot, b, T.BUCKET_SIZE) {
      assert slot.pos < T.BUCKET_SIZE;
    }
    forall id ensures SeenAt(s, id, b + 1, 0) <==> SeenAt(s, id, b, T.BUCKET_SIZE) {
    }
  }

  /** After all buckets, nothing left over means that every tried entry has its place. */
  lemma TriedDone(am: A.AddrMan, left: set<int>)
    requires am.Shaped() && TriedSeen(am.hasher, am.Tables(), left, T.TRIED_BUCKETS, 0)
    ensures left == {} <==> V.TriedOk(am.hasher, am.Tables())
  {
    var h, s := am.hasher, am.Tables();
    forall slot | slot in s.triedTab
      ensures P.Before(slot, T.TRIED_BUCKETS, 0) && V.TriedAt(h, s, s.triedTab[slot], slot)
    {
      assert slot.bucket < T.TRIED_BUCKETS;
    }
    hide T.TriedSlot;
    forall id | id in s.info && s.info[id].inTried
      ensures id !in left <==>
              T.TriedSlot(h, s.info[id].addr) in s.triedTab && s.triedTab[T.TriedSlot(h, s.info[id].addr)] == id
    {
      assert id in V.TriedIds(s);
      if SeenAt(s, id, T.TRIED_BUCKETS, 0) {
        var slot :| slot in s.triedTab && s.triedTab[slot] == id && P.Before(slot, T.TRIED_BUCKETS, 0);
        assert V.TriedAt(h, s, id, slot);
      }
    }
    EmptyIff(left);
  }

  lemma EmptyIff(left: set<int>)
    ensures left == {} <==> forall id :: id !in left
  {
    if |left| > 0 {
      var x := P.PickId(left);
    }
  }

  // ---------------------------------------------------------------------------
  // The new buckets
  // ---------------------------------------------------------------------------

  /** References of `id` still expected after the places before (b, p). */
  ghost function Owed(s: T.Tables, id: int, b: nat, p: nat): int
    requires id in s.info
  {
    s.info[id].refCount - |P.DoneSlots(s, id, b, p)|
  }

  ghost predicate NewSeen(h: T.Hasher, s: T.Tables, left: map<int, int>, b: nat, p: nat) {
    && (forall slot :: slot in s.newTab && P.Before(slot, b, p) ==> V.NewAt(h, s, s.newTab[slot], slot))
    && (forall id :: id in V.NewIds(s) ==> Owed(s, id, b, p) >= 0)
    && (forall id :: id in left <==> id in V.NewIds(s) && Owed(s, id, b, p) > 0)
    && (forall id :: id in left ==> id in s.info && left[id] == Owed(s, id, b, p))
  }

  /** One reference less for one entry. */
  function Paid(left: map<int, int>, id: int): map<int, int>
    requires id in left
  {
    if left[id] - 1 == 0 then left - {id} else left[id := left[id] - 1]
  }

  lemma NewSkip(h: T.Hasher, s: T.Tables, left: map<int, int>, b: nat, p: nat)
    requires NewSeen(h, s, left, b, p) && T.Slot(b, p) !in s.newTab
    ensures NewSeen(h, s, left, b, p + 1)
  {
    P.BeforeStep(b, p);
    forall id ensures P.DoneSlots(s, id, b, p + 1) == P.DoneSlots(s, id, b, p) {
      P.DoneStep(s, id, b, p);
    }
    hide P.DoneSlots;
  }

  lemma NewHit(h: T.Hasher, s: T.Tables, left: map<int, int>, b: nat, p: nat)
    requires NewSeen(h, s, left, b, p) && T.Slot(b, p) in s.newTab && s.newTab[T.Slot(b, p)] in left
    requires V.NewAt(h, s, s.newTab[T.Slot(b, p)], T.Slot(b, p))
    ensures NewSeen(h, s, Paid(left, s.newTab[T.Slot(b, p)]), b, p + 1)
  {
    var x := s.newTab[T.Slot(b, p)];
    P.BeforeStep(b, p);
    forall id | id in s.info ensures Owed(s, id, b, p + 1) == Owed(s, id, b, p) - if id == x then 1 else 0 {
      P.DoneStep(s, id, b, p);
    }
    hide Owed;
    forall id ensures id in Paid(left, x) <==> id in V.NewIds(s) && Owed(s, id, b, p + 1) > 0 {
    }
  }

  /** An entry at a place but not expected there has too many places, or is not a new entry. */
  lemma NewUnexpected(h: T.Hasher, s: T.Tables, left: map<int, int>, b: nat, p: nat)
    requires NewSeen(h, s, left, b, p) && T.Slot(b, p) in s.newTab && s.newTab[T.Slot(b, p)] !in left
    ensures !(V.NewOk(h, s) && RefsExact(s))
  {
    var slot := T.Slot(b, p);
    var x := s.newTab[slot];
    if V.NewAt(h, s, x, slot) {
      assert x in V.NewIds(s) && Owed(s, x, b, p) == 0;
      var done := P.DoneSlots(s, x, b, p);
      assert done <= V.SlotsOf(s, x) - {slot} && slot in V.SlotsOf(s, x);
      SubsetSize(done, V.SlotsOf(s, x) - {slot});
    }
  }

  method CheckNewSlot(am: A.AddrMan, b: nat, p: nat, left: map<int, int>) returns (code: int, left': map<int, int>)
    requires am.Shaped() && b < T.NEW_BUCKETS && p < T.BUCKET_SIZE
    requires NewSeen(am.hasher, am.Tables(), left, b, p)
    ensures code == 0 ==> NewSeen(am.hasher, am.Tables(), left', b, p + 1)
    ensures code != 0 ==> !(V.NewOk(am.hasher, am.Tables()) && RefsExact(am.Tables()))
  {
    ghost var s := am.Tables();
    ghost var slot := T.Slot(b, p);
    A.Lookup(am.vvNew, b, p);
    var id := am.vvNew[b, p];
    left' := left;
    if id == A.EMPTY_SLOT {
      NewSkip(am.hasher, s, left, b, p);
      return 0, left;
    }
    if id !in left {
      NewUnexpected(am.hasher, s, left, b, p);
      return -12, left;
    }
    assert id in V.NewIds(s);
    if T.Position(am.hasher, true, b, am.info[id].addr) != p {
      assert !V.NewAt(am.hasher, s, s.newTab[slot], slot);
      return -19, left;
    }
    assert V.NewAt(am.hasher, s, s.newTab[slot], slot);
    NewHit(am.hasher, s, left, b, p);
    return 0, Paid(left, id);
  }

  method CheckNew(am: A.AddrMan, mapNew: map<int, int>) returns (code: int, left: map<int, int>)
    requires am.Shaped() && NewSeen(am.hasher, am.Tables(), mapNew, 0, 0)
    ensures code == 0 ==> NewSeen(am.hasher, am.Tables(), left, T.NEW_BUCKETS, 0)
    ensures code != 0 ==> !(V.NewOk(am.hasher, am.Tables()) && RefsExact(am.Tables()))
  {
    left := mapNew;
    hide NewSeen, V.NewOk, RefsExact, A.Occupied;
    for b := 0 to T.NEW_BUCKETS
      invariant NewSeen(am.hasher, am.Tables(), left, b, 0)
    {
      hide NewSeen, V.NewOk, RefsExact, A.Occupied;
      for p := 0 to T.BUCKET_SIZE
        invariant NewSeen(am.hasher, am.Tables(), left, b, p)
      {
        hide NewSeen, V.NewOk, RefsExact, A.Occupied;
        code, left := CheckNewSlot(am, b, p, left);
        if code != 0 {
          return code, left;
        }
      }
      NewNextBucket(am, left, b);
    }
    code := 0;
  }

  lemma NewNextBucket(am: A.AddrMan, left: map<int, int>, b: nat)
    requires am.Shaped() && NewSeen(am.hasher, am.Tables(), left, b, T.BUCKET_SIZE)
    ensures NewSeen(am.hasher, am.Tables(), left, b + 1, 0)
  {
    var s := am.Tables();
    forall slot | slot in s.newTab ensures P.Before(slot, b + 1, 0) <==> P.Before(slot, b, T.BUCKET_SIZE) {
      assert slot.pos < T.BUCKET_SIZE;
    }
    forall id ensures P.DoneSlots(s, id, b + 1, 0) == P.DoneSlots(s, id, b, T.BUCKET_SIZE) {
    }
    hide P.DoneSlots;
  }

  /** After all buckets, nothing owed means that all reference counts are exact. */
  lemma NewDone(am: A.AddrMan, left: map<int, int>)
    requires am.Shaped() && NewSeen(am.hasher, am.Tables(), left, T.NEW_BUCKETS, 0)
    ensures left == map[] <==> V.NewOk(am.hasher, am.Tables()) && RefsExact(am.Tables())
  {
    var h, s := am.hasher, am.Tables();
    forall slot | slot in s.newTab ensures P.Before(slot, T.NEW_BUCKETS, 0) && V.NewAt(h, s, s.newTab[slot], slot) {
      assert slot.bucket < T.NEW_BUCKETS;
    }
    forall id ensures P.DoneSlots(s, id, T.NEW_BUCKETS, 0) == V.SlotsOf(s, id) {
    }
    hide P.DoneSlots, V.SlotsOf;
    forall id | id in V.NewIds(s) ensures id !in left <==> s.info[id].refCount == |V.SlotsOf(s, id)| {
    }
    EmptyIff(left.Keys);
    assert left == map[] <==> left.Keys == {};
  }

  // ---------------------------------------------------------------------------
  // The whole check
  // ---------------------------------------------------------------------------

  /** mapAddr[info] adds a missing address, with id 0. */
  ghost predicate Padded(was: map<T.NetAddr, int>, now: map<T.NetAddr, int>) {
    && (forall a :: a in was ==> a in now && now[a] == was[a])
    && (forall a :: a in now && a !in was ==> now[a] == 0)
  }

  /** The result for one entry of mapInfo. */
  method CheckEntry(am: A.AddrMan, n: int, addrs: map<T.NetAddr, int>) returns (code: int, addrs': map<T.NetAddr, int>)
    requires n in am.info && Padded(am.addrs, addrs)
    ensures Padded(am.addrs, addrs') && forall a :: a in addrs ==> a in addrs' && addrs'[a] == addrs[a]
    ensures code == 0 <==> EntryOk(am.Tables(), n)
    ensures code == 0 ==> am.info[n].addr.net in addrs' && addrs'[am.info[n].addr.net] == n
  {
    hide A.Occupied;
    var info := am.info[n];
    addrs' := addrs;
    if info.inTried {
      if info.lastSuccess == 0 {
        return -1, addrs;
      }
      if info.refCount != 0 {
        return -2, addrs;
      }
    } else {
      if info.refCount < 0 || info.refCount > T.MAX_REFS {
        return -3, addrs;
      }
      if info.refCount == 0 {
        return -4, addrs;
      }
    }
    if info.addr.net !in addrs {
      addrs' := addrs[info.addr.net := 0];
    }
    if addrs'[info.addr.net] != n {
      return -5, addrs';
    }
    if info.randomPos < 0 || info.randomPos >= |am.random| || am.random[info.randomPos] != n {
      return -14, addrs';
    }
    if info.lastTry < 0 {
      return -6, addrs';
    }
    if info.lastSuccess < 0 {
      return -8, addrs';
    }
    return 0, addrs';
  }

  /** The entries seen so far, sorted into tried ones and new ones with their counts. */
  ghost predicate Sorted(s: T.Tables, left: set<int>, setTried: set<int>, mapNew: map<int, int>) {
    && (forall id :: id in left ==> id in s.info)
    && (forall id :: id in s.info && id !in left ==> EntryOk(s, id))
    && (forall id :: id in setTried <==> id in s.info && id !in left && s.info[id].inTried)
    && (forall id :: id in mapNew <==> id in s.info && id !in left && !s.info[id].inTried)
    && (forall id :: id in mapNew ==> mapNew[id] == s.info[id].refCount)
  }

  /** mapAddr leads from the address of each entry outside `left` to its id. */
  ghost predicate Reached(info: map<int, T.Info>, left: set<int>, addrs: map<T.NetAddr, int>) {
    forall id :: id in info && id !in left ==> info[id].addr.net in addrs && addrs[info[id].addr.net] == id
  }

  method CheckEntries(am: A.AddrMan)
    returns (code: int, setTried: set<int>, mapNew: map<int, int>, addrs: map<T.NetAddr, int>)
    ensures code == 0 <==> EntriesOk(am.Tables())
    ensures code == 0 ==> Sorted(am.Tables(), {}, setTried, mapNew)
    ensures Padded(am.addrs, addrs) && (code == 0 ==> Reached(am.info, {}, addrs))
  {
    ghost var s := am.Tables();
    hide A.Occupied, EntryOk;
    setTried, mapNew, addrs := {}, map[], am.addrs;
    var left := am.info.Keys;
    while |left| > 0
      invariant Sorted(s, left, setTried, mapNew)
      invariant Padded(am.addrs, addrs) && Reached(am.info, left, addrs)
      decreases |left|
    {
      hide A.Occupied, EntryOk;
      ghost var m := P.PickId(left);
      assert m in left;
      var n :| n in left;
      code, addrs := CheckEntry(am, n, addrs);
      if code != 0 {
        return;
      }
      if am.info[n].inTried {
        setTried := setTried + {n};
      } else {
        mapNew := mapNew[n := am.info[n].refCount];
      }
      left := left - {n};
    }
    assert left == {};
    code := 0;
  }

  lemma SortedSeen(h: T.Hasher, s: T.Tables, setTried: set<int>, mapNew: map<int, int>)
    requires Sorted(s, {}, setTried, mapNew)
    ensures setTried == V.TriedIds(s) && mapNew.Keys == V.NewIds(s) && NewSeen(h, s, mapNew, 0, 0)
  {
    assert forall id :: id in setTried <==> id in V.TriedIds(s);
    assert forall id :: id in mapNew.Keys <==> id in V.NewIds(s);
    forall id ensures P.DoneSlots(s, id, 0, 0) == {} {
    }
    forall id | id in s.info && !s.info[id].inTried ensures s.info[id].refCount >= 1 {
      assert EntryOk(s, id);
    }
  }

  /**
   * Check_ returns 0 exactly for tables that pass (with a key that is not null).  It may add
   * addresses to mapAddr; when it returns 0, mapAddr leads from every entry's address to it.
   */
  method Check(am: A.AddrMan, keyNull: bool) returns (code: int)
    requires am.Shaped()
    modifies am`addrs
    ensures code == 0 <==> Passes(am.hasher, old(am.Tables())) && !keyNull
    ensures am.Tables() == old(am.Tables()).(addrs := am.addrs)
    ensures Padded(old(am.addrs), am.addrs) && (code == 0 ==> Reached(am.info, {}, am.addrs))
  {
    hide A.Occupied, Passes, Padded, Reached;
    var addrs;
    code, addrs := Decide(am, keyNull);
    am.addrs := addrs;
  }

  method Decide(am: A.AddrMan, keyNull: bool) returns (code: int, addrs: map<T.NetAddr, int>)
    requires am.Shaped()
    ensures code == 0 <==> Passes(am.hasher, am.Tables()) && !keyNull
    ensures Padded(am.addrs, addrs) && (code == 0 ==> Reached(am.info, {}, addrs))
  {
    addrs := am.addrs;
    hide A.Occupied, EntriesOk, Reached, V.TriedOk, V.NewOk, RefsExact, TriedSeen, NewSeen, Sorted, V.TriedIds,
         V.NewIds;
    ghost var s := am.Tables();
    if |am.random| != am.nTried + am.nNew {
      return -7, addrs;
    }
    var setTried, mapNew;
    code, setTried, mapNew, addrs := CheckEntries(am);
    if code != 0 {
      return;
    }
    SortedSeen(am.hasher, s, setTried, mapNew);
    assert |mapNew| == |mapNew.Keys|;
    if |setTried| != am.nTried {
      return -9, addrs;
    }
    if |mapNew| != am.nNew {
      return -10, addrs;
    }
    var leftTried, leftNew;
    code, leftTried := CheckTried(am, setTried);
    if code != 0 {
      return;
    }
    TriedDone(am, leftTried);
    code, leftNew := CheckNew(am, mapNew);
    if code != 0 {
      return;
    }
    NewDone(am, leftNew);
    if leftTried != {} {
      return -13, addrs;
    }
    if leftNew != map[] {
      return -15, addrs;
    }
    if keyNull {
      return -16, addrs;
    }
    return 0, addrs;
  }
}
