/**
 * The address manager as the class it is (CAddrMan, src/addrman.h): two bucket arrays, two
 * maps, a vector and counters, updated in place.  Every method is proved equal to the table
 * function of the same name, so the theorems of AddrRuns hold of it, and every assertion of
 * the source is proved where it stands.
 */
module AddrMan {
  import opened Wrappers
  import T = AddrTables
  import V = AddrInvariant
  import R = AddrRuns

  const EMPTY_SLOT := -1

  /** The occupied places of a bucket array. */
  ghost function Occupied(a: array2<int>): map<T.Slot, int>
    reads a
  {
    map b: nat, p: nat | b < a.Length0 && p < a.Length1 && a[b, p] != EMPTY_SLOT :: T.Slot(b, p) := a[b, p]
  }

  /** Write one place of a bucket array. */
  method Put(a: array2<int>, b: nat, p: nat, id: int)
    requires b < a.Length0 && p < a.Length1
    modifies a
    ensures a[b, p] == id
    ensures Occupied(a)
            == if id == EMPTY_SLOT then old(Occupied(a)) - {T.Slot(b, p)} else old(Occupied(a))[T.Slot(b, p) := id]
  {
    a[b, p] := id;
  }

  lemma Lookup(a: array2<int>, b: nat, p: nat)
    requires b < a.Length0 && p < a.Length1
    ensures T.Slot(b, p) in Occupied(a) <==> a[b, p] != EMPTY_SLOT
    ensures T.Slot(b, p) in Occupied(a) ==> Occupied(a)[T.Slot(b, p)] == a[b, p]
  {
  }

  class AddrMan {
    const hasher: T.Hasher
    var idCount: int
    var info: map<int, T.Info>
    var addrs: map<T.NetAddr, int>
    var random: seq<int>
    var nTried: int
    const vvTried: array2<int>
    var nNew: int
    const vvNew: array2<int>
    var lastGood: int

    ghost predicate Shaped() {
      && vvTried.Length0 == T.TRIED_BUCKETS && vvTried.Length1 == T.BUCKET_SIZE
      && vvNew.Length0 == T.NEW_BUCKETS && vvNew.Length1 == T.BUCKET_SIZE
      && vvTried != vvNew
    }

    ghost function Tables(): T.Tables
      reads this, vvTried, vvNew
    {
      T.Tables(idCount, info, addrs, random, nTried, Occupied(vvTried), nNew, Occupied(vvNew), lastGood)
    }

    ghost predicate Valid()
      reads this, vvTried, vvNew
    {
      Shaped() && V.Inv(hasher, Tables())
    }

    constructor (h: T.Hasher)
      ensures Valid() && Tables() == T.EMPTY && hasher == h && fresh(vvTried) && fresh(vvNew)
    {
      hasher := h;
      idCount, info, addrs, random, nTried, nNew, lastGood := 0, map[], map[], [], 0, 0, 1;
      vvTried := new int[T.TRIED_BUCKETS, T.BUCKET_SIZE]((_, _) => EMPTY_SLOT);
      vvNew := new int[T.NEW_BUCKETS, T.BUCKET_SIZE]((_, _) => EMPTY_SLOT);
      new;
      assert Occupied(vvTried) == map[] && Occupied(vvNew) == map[];
      R.EmptyKeeps(h);
    }

    method Find(a: T.NetAddr) returns (id: Option<int>)
      ensures id == T.Find(Tables(), a)
    {
      if a !in addrs {
        return None;
      }
      if addrs[a] in info {
        return Some(addrs[a]);
      }
      return None;
    }

    method Create(a: T.Service, time: nat, services: T.Services, source: T.NetAddr) returns (id: int)
      modifies this
      ensures id == old(idCount) && Tables() == T.Create(old(Tables()), a, time, services, source)
    {
      id := idCount;
      idCount := idCount + 1;
      info := info[id := T.Info(a, time, services, source, 0, 0, 0, 0, 0, false, -1)];
      addrs := addrs[a.net := id];
      info := info[id := info[id].(randomPos := |random|)];
      random := random + [id];
    }

    method SwapRandom(i: nat, j: nat)
      requires V.RandomOk(Tables()) && i < |random| && j < |random|
      modifies this`info, this`random
      ensures Tables() == T.SwapRandom(old(Tables()), i, j)
    {
      if i == j {
        return;
      }
      assert i < |random| && j < |random|;
      var a, b := random[i], random[j];
      assert V.HasRandomPos(Tables(), a, i) && V.HasRandomPos(Tables(), b, j);
      assert a in info && b in info;
      info := info[a := info[a].(randomPos := j)];
      info := info[b := info[b].(randomPos := i)];
      random := random[i := b];
      random := random[j := a];
    }

    method Delete(id: int)
      requires V.RandomOk(Tables())
      requires id in info && !info[id].inTried && info[id].refCount == 0   // the source's assertions
      modifies this`info, this`random, this`addrs, this`nNew
      ensures Tables() == T.Delete(old(Tables()), id)
    {
      ghost var s := Tables();
      V.SwapToLast(s, id);
      SwapRandom(info[id].randomPos, |random| - 1);
      random := random[..|random| - 1];
      addrs := addrs - {info[id].addr.net};
      info := info - {id};
      nNew := nNew - 1;
    }

    method ClearNew(b: nat, p: nat, ghost idle: set<int>, ghost uncounted: set<int>)
      requires Shaped() && b < T.NEW_BUCKETS && p < T.BUCKET_SIZE
      requires V.Midway(hasher, Tables(), idle, uncounted)
      modifies this`info, this`random, this`addrs, this`nNew, vvNew
      ensures Tables() == T.ClearNew(old(Tables()), T.Slot(b, p))
      ensures vvNew[b, p] == EMPTY_SLOT
    {
      hide V.AddrsOk, V.RandomOk, V.NewOk, V.TriedOk, V.RefsOk, V.CountsOk, Occupied, T.Delete;
      Lookup(vvNew, b, p);
      if vvNew[b, p] != EMPTY_SLOT {
        var id := vvNew[b, p];
        ghost var slot := T.Slot(b, p);
        V.HolderOf(hasher, Tables(), slot);
        V.DropSlotKeeps(hasher, Tables(), slot, idle, uncounted);
        assert info[id].refCount > 0;
        info := info[id := info[id].(refCount := info[id].refCount - 1)];
        Put(vvNew, b, p, EMPTY_SLOT);
        assert Tables() == T.DropSlot(old(Tables()), slot);
        if info[id].refCount == 0 {
          Delete(id);
        }
      }
    }

    method MakeTried(id: int)
      requires Valid() && id in info && !info[id].inTried
      modifies this`info, this`random, this`addrs, this`nNew, this`nTried, vvNew, vvTried
      ensures Valid() && Tables() == T.MakeTried(hasher, old(Tables()), id)
    {
      hide V.AddrsOk, V.RandomOk, V.NewOk, V.TriedOk, V.RefsOk, V.CountsOk, Occupied, T.Unlink, T.Evict, T.Position;
      hide V.OnlyPromoted, V.OnlyEvicted;
      ghost var s := Tables();
      V.KnownId(s, id);
      V.UnlinkKeeps(hasher, s, id);
      V.MakeTriedKeeps(hasher, s, id);
      UnlinkAll(id);
      nNew := nNew - 1;
      ghost var t := V.Unlinked(hasher, s, id);
      assert Tables() == t;
      assert info[id].refCount == 0;
      var kb := hasher.triedHash(info[id].addr) % T.TRIED_BUCKETS;
      var kp := T.Position(hasher, false, kb, info[id].addr);
      PositionInRange(hasher, false, kb, info[id].addr);
      Lookup(vvTried, kb, kp);
      assert T.Slot(kb, kp) == T.TriedSlot(hasher, s.info[id].addr);
      if vvTried[kb, kp] != EMPTY_SLOT {
        V.EvictKeeps(hasher, t, T.Slot(kb, kp), id);
        Evict(kb, kp, id);
        EvictEmpties(hasher, t, T.Slot(kb, kp));
      }
      Lookup(vvTried, kb, kp);
      assert vvTried[kb, kp] == EMPTY_SLOT;
      Put(vvTried, kb, kp, id);
      nTried := nTried + 1;
      info := info[id := info[id].(inTried := true)];
    }

    /** The loop of MakeTried that removes an entry from all new buckets. */
    method UnlinkAll(id: int)
      requires Shaped() && id in info && id != EMPTY_SLOT
      modifies this`info, vvNew
      ensures Tables() == T.Unlink(hasher, old(Tables()), id, T.NEW_BUCKETS)
    {
      ghost var s := Tables();
      var b := 0;
      UnlinkNone(hasher, s, id);
      hide Occupied, T.Unlink, T.Position;
      while b < T.NEW_BUCKETS
        invariant 0 <= b <= T.NEW_BUCKETS && id in info
        invariant info[id].addr == s.info[id].addr
        invariant Tables() == T.Unlink(hasher, s, id, b)
      {
        UnlinkStep(id, b, s);
        b := b + 1;
      }
    }

    method UnlinkStep(id: int, b: nat, ghost s: T.Tables)
      requires Shaped() && id in info && id != EMPTY_SLOT && b < T.NEW_BUCKETS
      requires id in s.info && info[id].addr == s.info[id].addr && Tables() == T.Unlink(hasher, s, id, b)
      modifies this`info, vvNew
      ensures id in info && info[id].addr == s.info[id].addr && Tables() == T.Unlink(hasher, s, id, b + 1)
    {
      hide Occupied, T.Unlink, T.Position;
      var p := T.Position(hasher, true, b, info[id].addr);
      PositionInRange(hasher, true, b, info[id].addr);
      Lookup(vvNew, b, p);
      UnlinkNext(hasher, s, id, b);
      if vvNew[b, p] == id {
        Put(vvNew, b, p, EMPTY_SLOT);
        info := info[id := info[id].(refCount := info[id].refCount - 1)];
      }
    }

    /** The branch of MakeTried that moves the entry at a tried place back to the new table. */
    method Evict(kb: nat, kp: nat, ghost id: int)
      requires Shaped() && kb < T.TRIED_BUCKETS && kp < T.BUCKET_SIZE && vvTried[kb, kp] != EMPTY_SLOT
      requires V.Midway(hasher, Tables(), {id}, {id})
      modifies this`info, this`random, this`addrs, this`nNew, this`nTried, vvNew, vvTried
      ensures T.Slot(kb, kp) in old(Tables()).triedTab
      ensures old(Tables()).triedTab[T.Slot(kb, kp)] in old(Tables()).info
      ensures Tables() == T.Evict(hasher, old(Tables()), T.Slot(kb, kp))
    {
      hide V.AddrsOk, V.RandomOk, V.NewOk, V.TriedOk, V.RefsOk, V.CountsOk, Occupied, T.ClearNew;
      ghost var s := Tables();
      Lookup(vvTried, kb, kp);
      ghost var slot := T.Slot(kb, kp);
      var evict := vvTried[kb, kp];
      V.EvictKeeps(hasher, s, slot, id);
      V.UntriedKeeps(hasher, s, evict, slot, {id}, {id});
      assert evict in info;
      info := info[evict := info[evict].(inTried := false)];
      Put(vvTried, kb, kp, EMPTY_SLOT);
      nTried := nTried - 1;
      ghost var t := Tables();
      assert t == V.Untried(s, evict, slot);
      var ub := hasher.newHash(info[evict].addr, info[evict].source) % T.NEW_BUCKETS;
      var up := T.Position(hasher, true, ub, info[evict].addr);
      V.ClearNewKeeps(hasher, t, T.Slot(ub, up), {id} + {evict}, {id} + {evict});
      ClearNew(ub, up, {id} + {evict}, {id} + {evict});
      assert vvNew[ub, up] == EMPTY_SLOT;
      assert evict in {id} + {evict};
      info := info[evict := info[evict].(refCount := 1)];
      Put(vvNew, ub, up, evict);
      nNew := nNew + 1;
    }

    method Good(a: T.Service, time: int, start: nat)
      requires Valid() && start < T.NEW_BUCKETS
      modifies this, vvNew, vvTried
      ensures Valid() && Tables() == T.Good(hasher, old(Tables()), a, time)
    {
      hide V.AddrsOk, V.RandomOk, V.NewOk, V.TriedOk, V.RefsOk, V.CountsOk, Occupied, T.MakeTried, T.Position;
      ghost var s := Tables();
      R.GoodKeeps(hasher, s, a, time);
      lastGood := time;
      var found := Find(a.net);
      if found.None? {
        return;
      }
      var id := found.value;
      if info[id].addr != a {
        return;
      }
      R.GoodPromotes(hasher, s, a, time);
      info := info[id := info[id].(lastSuccess := time, lastTry := time, attempts := 0)];
      assert Tables() == R.Praised(s, id, time);
      if info[id].inTried {
        return;
      }
      V.KnownId(Tables(), id);
      var bucket := FindBucket(id, start);
      if bucket == -1 {
        return;
      }
      MakeTried(id);
    }

    /** The search of Good_ for a bucket that holds the entry, from a random bucket on. */
    method FindBucket(id: int, start: nat) returns (bucket: int)
      requires Shaped() && start < T.NEW_BUCKETS && id in info && id != EMPTY_SLOT
      ensures bucket == -1 <==> T.FoundIn(hasher, Tables(), id, T.NEW_BUCKETS) == {}
      ensures bucket != -1 ==> 0 <= bucket < T.NEW_BUCKETS
                               && vvNew[bucket, T.Position(hasher, true, bucket, info[id].addr)] == id
    {
      bucket := -1;
      var n := 0;
      while n < T.NEW_BUCKETS
        invariant 0 <= n <= T.NEW_BUCKETS && bucket == -1
        invariant forall k: nat :: k < n ==> !Holds(Rotated(k, start), id)
      {
        var b := Rotated(n, start);
        var p := T.Position(hasher, true, b, info[id].addr);
        if vvNew[b, p] == id {
          bucket := b;
          assert Holds(b, id);
          HoldsFound(b, id);
          return;
        }
        n := n + 1;
      }
      forall b: nat | b < T.NEW_BUCKETS ensures !Holds(b, id) {
        var k := if b >= start then b - start else b - start + T.NEW_BUCKETS;
        assert Rotated(k, start) == b;
      }
      forall slot | slot in T.FoundIn(hasher, Tables(), id, T.NEW_BUCKETS) ensures false {
        assert Holds(slot.bucket, id);
      }
    }

    /** The `k`-th bucket of a search that starts at bucket `start`. */
    static function Rotated(k: nat, start: nat): (b: nat)
      ensures b < T.NEW_BUCKETS
    {
      (k + start) % T.NEW_BUCKETS
    }

    /** Bucket `b` holds the entry at the place its hash dictates there. */
    ghost predicate Holds(b: nat, id: int)
      reads this, vvNew
      requires Shaped() && b < T.NEW_BUCKETS && id in info
    {
      vvNew[b, T.Position(hasher, true, b, info[id].addr)] == id
    }

    lemma HoldsFound(b: nat, id: int)
      requires Shaped() && b < T.NEW_BUCKETS && id in info && id != EMPTY_SLOT && Holds(b, id)
      ensures T.FoundIn(hasher, Tables(), id, T.NEW_BUCKETS) != {}
    {
      var p := T.Position(hasher, true, b, info[id].addr);
      Lookup(vvNew, b, p);
      assert T.Slot(b, p) in T.FoundIn(hasher, Tables(), id, T.NEW_BUCKETS);
    }

    method Add(m: T.Announce) returns (isNew: bool)
      requires Valid()
      modifies this, vvNew
      ensures Valid() && (Tables(), isNew) == T.Add(hasher, old(Tables()), m)
    {
      hide V.AddrsOk, V.RandomOk, V.NewOk, V.TriedOk, V.RefsOk, V.CountsOk, Occupied, T.Place, T.Refresh, T.Enough,
           R.OnlyPrepared;
      ghost var s := Tables();
      R.AddKeeps(hasher, s, m);
      if !m.routable {
        return false;
      }
      R.FindExact(hasher, s, m.addr.net);
      R.AddStages(hasher, s, m);
      hide T.Add, T.CreateNew;
      isNew := false;
      var found := Find(m.addr.net);
      var id;
      if found.Some? {
        id := found.value;
        var enough := Refresh(id, m);
        if enough {
          return false;
        }
      } else {
        id := CreateNew(m);
        isNew := true;
      }
      R.PreparedKeeps(hasher, s, m);
      Place(id, m.source, m.now);
    }

    /** The branch of Add_ for an unknown address. */
    method CreateNew(m: T.Announce) returns (id: int)
      modifies this
      ensures id == old(idCount) && Tables() == T.CreateNew(old(Tables()), m)
    {
      hide Occupied;
      var penalty := if m.addr.net == m.source then 0 else m.penalty;
      id := Create(m.addr, m.time, m.services, m.source);
      info := info[id := info[id].(time := T.Max0(info[id].time - penalty) % T.TWO32)];
      nNew := nNew + 1;
    }

    /** The branch of Add_ for a known address: update it, and tell whether that is all. */
    method Refresh(id: int, m: T.Announce) returns (enough: bool)
      requires id in info
      modifies this`info
      ensures Tables() == T.SetInfo(old(Tables()), id, T.Refresh(old(info[id]), m))
      ensures enough == T.Enough(T.Refresh(old(info[id]), m), m)
    {
      hide Occupied, T.Refresh;
      var i := Refreshed(info[id], m);
      info := info[id := i];
      if m.time == 0 || (i.time != 0 && m.time <= i.time) || i.inTried || i.refCount == T.MAX_REFS {
        return true;
      }
      var factor := Factor(i.refCount);
      enough := factor > 1 && m.roll != 0;
    }

    static method Refreshed(i: T.Info, m: T.Announce) returns (i': T.Info)
      ensures i' == T.Refresh(i, m)
    {
      var penalty := if m.addr.net == m.source then 0 else m.penalty;
      var online := m.now - m.time < 24 * 60 * 60;
      var interval := if online then 60 * 60 else 24 * 60 * 60;
      i' := i;
      if m.time != 0 && (i.time == 0 || i.time < m.time - interval - penalty) {
        i' := i'.(time := T.Max0(m.time - penalty) % T.TWO32);
      }
      i' := i'.(services := i'.services + m.services);
    }

    /** nFactor: how many times harder each further reference is to get. */
    method Factor(refs: int) returns (factor: int)
      ensures factor > 1 <==> refs > 0
    {
      factor := 1;
      var n := 0;
      while n < refs
        invariant factor >= 1 && 0 <= n && (n == 0 || n <= refs) && (n > 0 <==> factor > 1)
      {
        factor := factor * 2;
        n := n + 1;
      }
    }

    /** The last part of Add_: insert into the bucket the source dictates. */
    method Place(id: int, source: T.NetAddr, now: int)
      requires Shaped() && id in info && !info[id].inTried && info[id].refCount < T.MAX_REFS
      requires V.Midway(hasher, Tables(), if info[id].refCount == 0 then {id} else {}, {})
      modifies this`info, this`random, this`addrs, this`nNew, vvNew
      ensures Tables() == T.Place(hasher, old(Tables()), id, source, now)
    {
      hide V.AddrsOk, V.RandomOk, V.NewOk, V.TriedOk, V.RefsOk, V.CountsOk, Occupied, T.ClearNew, T.Delete,
           T.IsTerrible, T.Position;
      ghost var s := Tables();
      ghost var idle := if info[id].refCount == 0 then {id} else {};
      V.KnownId(s, id);
      var b := hasher.newHash(info[id].addr, source) % T.NEW_BUCKETS;
      var p := T.Position(hasher, true, b, info[id].addr);
      PositionInRange(hasher, true, b, info[id].addr);
      Lookup(vvNew, b, p);
      ghost var slot := T.Slot(b, p);
      assert slot == T.NewSlot(hasher, info[id].addr, source);
      if vvNew[b, p] != id {
        var insert := vvNew[b, p] == EMPTY_SLOT;
        if !insert {
          V.HolderOf(hasher, s, slot);
          var existing := info[vvNew[b, p]];
          if T.IsTerrible(existing, now) || (existing.refCount > 1 && info[id].refCount == 0) {
            insert := true;
          }
        }
        assert insert == T.MayTake(s, slot, info[id].refCount, now);
        if insert {
          V.ClearNewKeeps(hasher, s, slot, idle, {});
          ClearNew(b, p, idle, {});
          assert id in info;
          info := info[id := info[id].(refCount := info[id].refCount + 1)];
          Put(vvNew, b, p, id);
        } else if info[id].refCount == 0 {
          Delete(id);
        }
      }
    }

    method Attempt(a: T.Service, countFailure: bool, time: int)
      requires Valid()
      modifies this`info
      ensures Valid() && Tables() == T.Attempt(old(Tables()), a, countFailure, time)
    {
      hide V.AddrsOk, V.RandomOk, V.NewOk, V.TriedOk, V.RefsOk, V.CountsOk, Occupied;
      R.BookkeepingKeeps(hasher, Tables(), R.DoAttempt(a, countFailure, time));
      var found := Find(a.net);
      if found.None? {
        return;
      }
      var id := found.value;
      if info[id].addr != a {
        return;
      }
      info := info[id := info[id].(lastTry := time)];
      if countFailure && info[id].lastCount < lastGood {
        info := info[id := info[id].(lastCount := time, attempts := info[id].attempts + 1)];
        assert Tables() == T.Attempt(old(Tables()), a, countFailure, time);
      }
    }

    method Connected(a: T.Service, time: int)
      requires Valid()
      modifies this`info
      ensures Valid() && Tables() == T.Connected(old(Tables()), a, time)
    {
      hide V.AddrsOk, V.RandomOk, V.NewOk, V.TriedOk, V.RefsOk, V.CountsOk, Occupied;
      R.BookkeepingKeeps(hasher, Tables(), R.DoConnected(a, time));
      var found := Find(a.net);
      if found.None? {
        return;
      }
      var id := found.value;
      if info[id].addr != a {
        return;
      }
      if time - info[id].time > 20 * 60 {
        info := info[id := info[id].(time := time % T.TWO32)];
      }
    }

    method SetServices(a: T.Service, services: T.Services)
      requires Valid()
      modifies this`info
      ensures Valid() && Tables() == T.SetServices(old(Tables()), a, services)
    {
      hide V.AddrsOk, V.RandomOk, V.NewOk, V.TriedOk, V.RefsOk, V.CountsOk, Occupied;
      R.BookkeepingKeeps(hasher, Tables(), R.DoSetServices(a, services));
      var found := Find(a.net);
      if found.None? {
        return;
      }
      var id := found.value;
      if info[id].addr != a {
        return;
      }
      info := info[id := info[id].(services := services)];
    }

    method GetAddr(pick: nat -> nat, now: int) returns (answer: seq<T.Info>)
      requires Valid()
      modifies this`info, this`random
      ensures Valid() && (Tables(), answer) == T.GetAddr(old(Tables()), pick, now)
    {
      hide V.AddrsOk, V.NewOk, V.TriedOk, V.RefsOk, V.CountsOk, Occupied, T.IsTerrible;
      ghost var s := Tables();
      var limit := T.GETADDR_MAX_PCT * |random| / 100;
      if limit > T.GETADDR_MAX {
        limit := T.GETADDR_MAX;
      }
      answer := [];
      var n := 0;
      while n < |random| && |answer| < limit
        invariant 0 <= n <= |random|
        invariant V.Inv(hasher, Tables())
        invariant T.Gather(Tables(), n, limit, pick, now, answer) == T.Gather(s, 0, limit, pick, now, [])
      {
        answer := GatherStep(n, limit, pick, now, answer);
        n := n + 1;
      }
    }

    method GatherStep(n: nat, limit: nat, pick: nat -> nat, now: int, found: seq<T.Info>) returns (found': seq<T.Info>)
      requires Valid() && n < |random| && |found| < limit
      modifies this`info, this`random
      ensures Valid() && |random| == old(|random|)
      ensures T.Gather(Tables(), n + 1, limit, pick, now, found') == old(T.Gather(Tables(), n, limit, pick, now, found))
    {
      hide V.AddrsOk, V.RandomOk, V.NewOk, V.TriedOk, V.RefsOk, V.CountsOk, Occupied, T.IsTerrible, T.SwapRandom;
      ghost var s := Tables();
      R.PickInRange(pick(n), n, |random|);
      var j := pick(n) % (|random| - n) + n;
      V.SwapKeeps(hasher, s, n, j, {}, {});
      SwapRandom(n, j);
      V.AtRandom(Tables(), n);
      assert random[n] in info;
      found' := found;
      if !T.IsTerrible(info[random[n]], now) {
        found' := found + [info[random[n]]];
      }
    }
  }

  lemma PositionInRange(h: T.Hasher, isNew: bool, b: nat, a: T.Service)
    ensures T.Position(h, isNew, b, a) < T.BUCKET_SIZE
  {
  }

  lemma EvictEmpties(h: T.Hasher, s: T.Tables, slot: T.Slot)
    requires slot in s.triedTab && s.triedTab[slot] in s.info && V.OnlyEvicted(h, s, T.Evict(h, s, slot), slot)
    ensures slot !in T.Evict(h, s, slot).triedTab
  {
    hide T.Evict;
  }

  lemma UnlinkNone(h: T.Hasher, s: T.Tables, id: int)
    requires id in s.info
    ensures T.Unlink(h, s, id, 0) == s
  {
    assert T.FoundIn(h, s, id, 0) == {};
    assert s.newTab - {} == s.newTab;
  }

  /** One more bucket of the loop that unlinks an entry. */
  lemma UnlinkNext(h: T.Hasher, s: T.Tables, id: int, b: nat)
    requires id in s.info
    ensures var slot := T.PlaceIn(h, b, s.info[id].addr);
            var t, u := T.Unlink(h, s, id, b), T.Unlink(h, s, id, b + 1);
            && t.info[id].addr == u.info[id].addr == s.info[id].addr
            && if slot in t.newTab && t.newTab[slot] == id
               then u == t.(newTab := t.newTab - {slot},
                            info := t.info[id := t.info[id].(refCount := t.info[id].refCount - 1)])
               else u == t
  {
    hide T.Position;
    var slot := T.PlaceIn(h, b, s.info[id].addr);
    var found, found' := T.FoundIn(h, s, id, b), T.FoundIn(h, s, id, b + 1);
    assert slot !in found;
    if slot in s.newTab && s.newTab[slot] == id {
      FoundNext(h, s, id, b);
      hide T.FoundIn;
      assert s.newTab - found' == (s.newTab - found) - {slot};
    } else {
      FoundNext(h, s, id, b);
    }
  }

  lemma FoundNext(h: T.Hasher, s: T.Tables, id: int, b: nat)
    requires id in s.info
    ensures var slot := T.PlaceIn(h, b, s.info[id].addr);
            T.FoundIn(h, s, id, b + 1) ==
              T.FoundIn(h, s, id, b) + if slot in s.newTab && s.newTab[slot] == id then {slot} else {}
  {
    hide T.Position;
    var slot := T.PlaceIn(h, b, s.info[id].addr);
    var extra := if slot in s.newTab && s.newTab[slot] == id then {slot} else {};
    assert forall x :: x in T.FoundIn(h, s, id, b + 1) <==> x in T.FoundIn(h, s, id, b) + extra;
  }
}
