/** Saving and loading the address manager in place (src/addrman.h), against module AddrImage. */
module AddrStore {
  import opened Wrappers
  import T = AddrTables
  import V = AddrInvariant
  import I = AddrImage
  import P = AddrRestore
  import A = AddrMan

  // ---------------------------------------------------------------------------
  // Saving
  // ---------------------------------------------------------------------------

  ghost predicate Stored(info: map<int, T.Info>, ids: seq<int>, v: seq<I.Saved>) {
    |v| == |ids| && forall i :: 0 <= i < |ids| ==> ids[i] in info && v[i] == I.Save(info[ids[i]])
  }

  /** The positions of all entries below `id` in the stored list. */
  ghost predicate Ranked(info: map<int, T.Info>, unk: map<int, int>, id: int) {
    && (forall k :: k in unk <==> k in info && k < id)
    && (forall k :: k in unk ==> unk[k] == I.Rank(info, k))
  }

  lemma ListedStep(info: map<int, T.Info>, id: nat, tried: bool)
    ensures I.Listed(info, id + 1, tried)
            == if I.Selected(info, id, tried) then I.Listed(info, id, tried) + [id] else I.Listed(info, id, tried)
  {
  }

  lemma StoredAll(info: map<int, T.Info>, ids: seq<int>, v: seq<I.Saved>)
    requires Stored(info, ids, v)
    ensures (forall i :: 0 <= i < |ids| ==> ids[i] in info) && v == I.SavedList(info, ids)
  {
  }

  /** What the two walks over mapInfo rely on. */
  lemma WalkFacts(h: T.Hasher, s: T.Tables)
    requires V.Inv(h, s)
    ensures s.idCount >= 0 && forall k :: k in s.info ==> 0 <= k
    ensures P.NewList(s) == I.Listed(s.info, s.idCount, false) && |P.NewList(s)| == s.nNew
    ensures P.TriedList(s) == I.Listed(s.info, s.idCount, true) && |P.TriedList(s)| == s.nTried
  {
    P.InvListable(h, s);
    P.OldIdsExact(h, s);
    P.ListNames(s);
    hide V.Inv, I.Listed, P.NewList, P.TriedList, P.OldIds;
    assert |P.OldIds(s)| == |P.NewList(s)| + |P.TriedList(s)|;
  }

  /** The new entries in ascending order of id; the source's assertion on nNew never fails. */
  method SaveNew(info: map<int, T.Info>, idCount: int, nNew: int) returns (news: seq<I.Saved>, unk: map<int, int>)
    requires idCount >= 0 && (forall k :: k in info ==> 0 <= k) && |I.Listed(info, idCount, false)| == nNew
    ensures Stored(info, I.Listed(info, idCount, false), news) && Ranked(info, unk, idCount)
  {
    hide *;
    news, unk := [], map[];
    var nIds, id := 0, 0;
    SaveStart(info);
    while id < idCount
      invariant 0 <= id <= idCount && nIds == |I.Listed(info, id, false)|
      invariant Stored(info, I.Listed(info, id, false), news) && Ranked(info, unk, id)
    {
      hide *;
      RankedStep(info, unk, id, nIds);
      ListedStep(info, id, false);
      SelectedIs(info, id);
      if id in info {
        unk := unk[id := nIds];
        if info[id].refCount != 0 {
          I.ListedAt(info, id, idCount, false);
          assert nIds != nNew;
          StoredStep(info, I.Listed(info, id, false), news, id);
          news := news + [I.Save(info[id])];
          nIds := nIds + 1;
        }
      }
      id := id + 1;
    }
  }

  lemma SaveStart(info: map<int, T.Info>)
    requires forall k :: k in info ==> 0 <= k
    ensures I.Listed(info, 0, false) == [] && I.Listed(info, 0, true) == [] && Stored(info, [], [])
            && Ranked(info, map[], 0)
  {
  }

  lemma RankedStep(info: map<int, T.Info>, unk: map<int, int>, id: nat, n: int)
    requires Ranked(info, unk, id) && n == |I.Listed(info, id, false)|
    ensures id in info ==> Ranked(info, unk[id := n], id + 1)
    ensures id !in info ==> Ranked(info, unk, id + 1)
  {
    hide I.Listed;
  }

  lemma StoredStep(info: map<int, T.Info>, ids: seq<int>, v: seq<I.Saved>, id: int)
    requires Stored(info, ids, v) && id in info
    ensures Stored(info, ids + [id], v + [I.Save(info[id])])
  {
  }

  lemma SelectedIs(info: map<int, T.Info>, id: int)
    ensures I.Selected(info, id, false) <==> id in info && info[id].refCount != 0
    ensures I.Selected(info, id, true) <==> id in info && info[id].inTried
  {
  }

  /** The tried entries; the source's assertion on nTried never fails. */
  method SaveTried(info: map<int, T.Info>, idCount: int, nTried: int) returns (trieds: seq<I.Saved>)
    requires idCount >= 0 && (forall k :: k in info ==> 0 <= k) && |I.Listed(info, idCount, true)| == nTried
    ensures Stored(info, I.Listed(info, idCount, true), trieds)
  {
    hide *;
    trieds := [];
    var nIds, id := 0, 0;
    SaveStart(info);
    while id < idCount
      invariant 0 <= id <= idCount && nIds == |I.Listed(info, id, true)|
      invariant Stored(info, I.Listed(info, id, true), trieds)
    {
      hide *;
      ListedStep(info, id, true);
      SelectedIs(info, id);
      if id in info && info[id].inTried {
        I.ListedAt(info, id, idCount, true);
        assert nIds != nTried;
        StoredStep(info, I.Listed(info, id, true), trieds, id);
        trieds := trieds + [I.Save(info[id])];
        nIds := nIds + 1;
      }
      id := id + 1;
    }
  }

  /** One bucket: its size, then the positions of its entries. */
  method SaveRow(am: A.AddrMan, unk: map<int, int>, b: nat) returns (nSize: nat, row: seq<int>)
    requires am.Valid() && b < T.NEW_BUCKETS && Ranked(am.info, unk, am.idCount)
    ensures row == I.Row(am.Tables(), b, T.BUCKET_SIZE) && nSize == |row|
  {
    hide *;
    ghost var s := am.Tables();
    RowNone(s, b);
    nSize := 0;
    for i := 0 to T.BUCKET_SIZE
      invariant nSize == |I.Row(s, b, i)|
    {
      hide *;
      SlotHere(am, b, i);
      RowStep(s, b, i);
      if am.vvNew[b, i] != A.EMPTY_SLOT {
        nSize := nSize + 1;
      }
    }
    row := [];
    for i := 0 to T.BUCKET_SIZE
      invariant row == I.Row(s, b, i)
    {
      hide *;
      SlotHere(am, b, i);
      RowStep(s, b, i);
      if am.vvNew[b, i] != A.EMPTY_SLOT {
        HolderHere(am, unk, T.Slot(b, i));
        row := row + [unk[am.vvNew[b, i]]];
      }
    }
  }

  lemma SlotHere(am: A.AddrMan, b: nat, p: nat)
    requires am.Valid() && b < T.NEW_BUCKETS && p < T.BUCKET_SIZE
    ensures am.vvNew.Length0 == T.NEW_BUCKETS && am.vvNew.Length1 == T.BUCKET_SIZE
    ensures T.Slot(b, p) in am.Tables().newTab <==> am.vvNew[b, p] != A.EMPTY_SLOT
    ensures T.Slot(b, p) in am.Tables().newTab ==> am.Tables().newTab[T.Slot(b, p)] == am.vvNew[b, p]
  {
    hide V.Inv;
    A.Lookup(am.vvNew, b, p);
  }

  lemma HolderHere(am: A.AddrMan, unk: map<int, int>, slot: T.Slot)
    requires am.Valid() && slot in am.Tables().newTab && Ranked(am.info, unk, am.idCount)
    ensures am.Tables().newTab[slot] in unk
    ensures unk[am.Tables().newTab[slot]] == I.Rank(am.Tables().info, am.Tables().newTab[slot])
  {
    hide A.Occupied, V.Inv, Ranked, I.Rank;
    HolderRanked(am.hasher, am.Tables(), unk, slot);
  }

  lemma RowNone(s: T.Tables, b: nat)
    ensures I.Row(s, b, 0) == []
  {
  }

  lemma RowStep(s: T.Tables, b: nat, i: nat)
    ensures I.Row(s, b, i + 1)
            == if T.Slot(b, i) in s.newTab then I.Row(s, b, i) + [I.Rank(s.info, s.newTab[T.Slot(b, i)])]
               else I.Row(s, b, i)
  {
    hide I.Rank;
  }

  lemma HolderRanked(h: T.Hasher, s: T.Tables, unk: map<int, int>, slot: T.Slot)
    requires V.Inv(h, s) && slot in s.newTab && Ranked(s.info, unk, s.idCount)
    ensures s.newTab[slot] in unk && unk[s.newTab[slot]] == I.Rank(s.info, s.newTab[slot])
  {
    assert V.NewAt(h, s, s.newTab[slot], slot);
  }

  method Serialize(am: A.AddrMan) returns (m: I.Image)
    requires am.Valid()
    ensures m == I.Serialize(am.Tables())
  {
    hide A.Occupied, I.Row, V.Inv, I.Listed;
    WalkFacts(am.hasher, am.Tables());
    var news, unk := SaveNew(am.info, am.idCount, am.nNew);
    var trieds := SaveTried(am.info, am.idCount, am.nTried);
    var places: seq<seq<int>> := [];
    for b := 0 to T.NEW_BUCKETS
      invariant |places| == b && forall c :: 0 <= c < b ==> places[c] == I.Row(am.Tables(), c, T.BUCKET_SIZE)
    {
      hide A.Occupied, I.Row, V.Inv, Ranked;
      var nSize, row := SaveRow(am, unk, b);
      places := places + [row];
    }
    assert places == I.Rows(am.Tables(), T.NEW_BUCKETS);
    StoredAll(am.info, P.NewList(am.Tables()), news);
    StoredAll(am.info, P.TriedList(am.Tables()), trieds);
    m := I.Image(1, 32, am.nNew, am.nTried, I.Toggle(T.NEW_BUCKETS), news, trieds, places);
  }

  // ---------------------------------------------------------------------------
  // Loading
  // ---------------------------------------------------------------------------

  /** vRandom and the entries point at each other, and all ids are below `n`. */
  ghost predicate RandomBelow(t: T.Tables, n: int) {
    V.RandomOk(t) && forall k :: k in t.info ==> k < n
  }

  lemma RandomAppend(t: T.Tables, t': T.Tables, n: int, i: T.Info)
    requires RandomBelow(t, n) && t'.info == t.info[n := i] && t'.random == t.random + [n] && i.randomPos == |t.random|
    ensures RandomBelow(t', n + 1)
  {
    forall p | 0 <= p < |t'.random| ensures V.HasRandomPos(t', t'.random[p], p) {
      assert p < |t.random| ==> V.HasRandomPos(t, t.random[p], p);
    }
  }

  /** Changing an entry but not its position. */
  lemma RandomSame(t: T.Tables, t': T.Tables, id: int, n: int)
    requires RandomBelow(t, n) && id in t.info && id in t'.info && t'.random == t.random
    requires t'.info == t.info[id := t'.info[id]] && t'.info[id].randomPos == t.info[id].randomPos
    ensures RandomBelow(t', n)
  {
    forall p | 0 <= p < |t'.random| ensures V.HasRandomPos(t', t'.random[p], p) {
      assert V.HasRandomPos(t, t.random[p], p);
    }
  }

  lemma RandomDelete(t: T.Tables, id: int, n: int)
    requires RandomBelow(t, n) && id in t.info
    ensures RandomBelow(T.Delete(t, id), n)
  {
    V.SwapToLast(t, id);
    hide T.SwapRandom;
    var u := T.SwapRandom(t, t.info[id].randomPos, |t.random| - 1);
    var d := T.Delete(t, id);
    forall p | 0 <= p < |d.random| ensures V.HasRandomPos(d, d.random[p], p) {
      assert V.HasRandomPos(u, u.random[p], p);
    }
  }

  /** One new entry. */
  method LoadNew(am: A.AddrMan, v: I.Saved, n: nat, usePlaces: bool)
    requires am.Shaped() && RandomBelow(am.Tables(), n)
    modifies am`info, am`addrs, am`random, am.vvNew
    ensures am.Tables() == I.LoadNew(am.hasher, old(am.Tables()), v, n, usePlaces) && RandomBelow(am.Tables(), n + 1)
  {
    hide A.Occupied, T.Position, T.NewSlot, RandomBelow;
    ghost var t := am.Tables();
    am.info := am.info[n := I.Load(v, -1, 0, false)];
    am.addrs := am.addrs[v.addr.net := n];
    am.info := am.info[n := am.info[n].(randomPos := |am.random|)];
    am.random := am.random + [n];
    if !usePlaces {
      PlaceBySource(am, v, n);
    }
    RandomAppend(t, am.Tables(), n, am.info[n]);
  }

  /** Without usable places an entry gets the place that its source dictates, if it is free. */
  method PlaceBySource(am: A.AddrMan, v: I.Saved, n: nat)
    requires am.Shaped() && n in am.info
    modifies am`info, am.vvNew
    ensures var slot := T.NewSlot(am.hasher, v.addr, v.source);
            am.Tables()
            == if slot in old(am.Tables()).newTab then old(am.Tables()) else T.AddSlot(old(am.Tables()), n, slot)
  {
    var b := am.hasher.newHash(v.addr, v.source) % T.NEW_BUCKETS;
    var p := T.Position(am.hasher, true, b, v.addr);
    A.PositionInRange(am.hasher, true, b, v.addr);
    A.Lookup(am.vvNew, b, p);
    hide A.Occupied, T.Position;
    if am.vvNew[b, p] == A.EMPTY_SLOT {
      A.Put(am.vvNew, b, p, n);
      am.info := am.info[n := am.info[n].(refCount := am.info[n].refCount + 1)];
    }
  }

  /** The new entries: false if the stream ends among them. */
  method LoadNews(am: A.AddrMan, m: I.Image) returns (ok: bool)
    requires am.Shaped() && |m.news| <= T.Max0(m.nNew) && RandomBelow(am.Tables(), 0)
    modifies am`info, am`addrs, am`random, am.vvNew
    ensures ok <==> |m.news| == T.Max0(m.nNew)
    ensures ok ==>
              && am.Tables() == I.LoadNews(am.hasher, old(am.Tables()), m, |m.news|)
              && RandomBelow(am.Tables(), |m.news|)
              && (m.nNew < 0 ==> am.info == old(am.info))
  {
    hide A.Occupied, RandomBelow, I.LoadNew;
    var n := 0;
    while n < m.nNew
      invariant 0 <= n <= |m.news| && (n <= m.nNew || n == 0) && (m.nNew < 0 ==> am.info == old(am.info))
      invariant am.Tables() == I.LoadNews(am.hasher, old(am.Tables()), m, n) && RandomBelow(am.Tables(), n)
    {
      hide A.Occupied, RandomBelow, I.LoadNew;
      if n == |m.news| {
        return false;
      }
      LoadNew(am, m.news[n], n, I.UsesPlaces(m));
      n := n + 1;
    }
    return true;
  }

  /** Writes a free place; the id -1 leaves it free. */
  method WriteFree(a: array2<int>, b: nat, p: nat, id: int)
    requires b < a.Length0 && p < a.Length1 && a[b, p] == A.EMPTY_SLOT
    modifies a
    ensures A.Occupied(a) == if id == -1 then old(A.Occupied(a)) else old(A.Occupied(a))[T.Slot(b, p) := id]
  {
    A.Lookup(a, b, p);
    hide A.Occupied;
    ghost var was := A.Occupied(a);
    A.Put(a, b, p, id);
    assert was - {T.Slot(b, p)} == was;
  }

  /** One tried entry: false if its place is taken. */
  method LoadTried(am: A.AddrMan, v: I.Saved) returns (kept: bool)
    requires am.Shaped() && RandomBelow(am.Tables(), am.idCount)
    modifies am`info, am`addrs, am`random, am`idCount, am.vvTried
    ensures RandomBelow(am.Tables(), am.idCount)
    ensures I.LoadTried(am.hasher, old(am.Tables()), v)
            == if kept then am.Tables() else am.Tables().(nTried := am.nTried - 1)
  {
    ghost var t := am.Tables();
    var b := am.hasher.triedHash(v.addr) % T.TRIED_BUCKETS;
    var p := T.Position(am.hasher, false, b, v.addr);
    A.PositionInRange(am.hasher, false, b, v.addr);
    A.Lookup(am.vvTried, b, p);
    hide A.Occupied, T.Position;
    if am.vvTried[b, p] != A.EMPTY_SLOT {
      return false;
    }
    var info := I.Load(v, |am.random|, 0, true);
    am.random := am.random + [am.idCount];
    am.info := am.info[am.idCount := info];
    am.addrs := am.addrs[info.addr.net := am.idCount];
    WriteFree(am.vvTried, b, p, am.idCount);
    am.idCount := am.idCount + 1;
    RandomAppend(t, am.Tables(), t.idCount, info);
    return true;
  }

  lemma TriedCountMoves(h: T.Hasher, t: T.Tables, v: I.Saved, n: int)
    ensures I.LoadTried(h, t.(nTried := n), v)
            == I.LoadTried(h, t, v).(nTried := n + I.LoadTried(h, t, v).nTried - t.nTried)
  {
  }

  /** The tried entries: false if the stream ends among them. */
  method LoadTrieds(am: A.AddrMan, m: I.Image) returns (ok: bool)
    requires am.Shaped() && |m.trieds| <= T.Max0(m.nTried) && am.nTried == m.nTried
    requires RandomBelow(am.Tables(), am.idCount)
    modifies am`info, am`addrs, am`random, am`idCount, am`nTried, am.vvTried
    ensures ok <==> |m.trieds| == T.Max0(m.nTried)
    ensures ok ==>
              && RandomBelow(am.Tables(), am.idCount)
              && am.Tables() == I.LoadTrieds(am.hasher, old(am.Tables()), m, |m.trieds|)
  {
    hide A.Occupied, RandomBelow, I.LoadTried;
    ghost var t := am.Tables();
    var nLost, n := 0, 0;
    while n < m.nTried
      invariant 0 <= n <= |m.trieds| && (n <= m.nTried || n == 0) && am.nTried == m.nTried
      invariant RandomBelow(am.Tables(), am.idCount)
      invariant am.Tables().(nTried := am.nTried - nLost) == I.LoadTrieds(am.hasher, t, m, n)
    {
      hide A.Occupied, RandomBelow, I.LoadTried;
      if n == |m.trieds| {
        return false;
      }
      ghost var u := am.Tables();
      TriedCountMoves(am.hasher, u, m.trieds[n], am.nTried - nLost);
      var kept := LoadTried(am, m.trieds[n]);
      if !kept {
        nLost := nLost + 1;
      }
      n := n + 1;
    }
    CountFree(am.Tables(), am.Tables().(nTried := am.nTried - nLost), am.idCount);
    am.nTried := am.nTried - nLost;
    return true;
  }

  /** One stored place. */
  method LoadPlace(am: A.AddrMan, b: nat, index: int)
    requires am.Shaped() && b < T.NEW_BUCKETS && RandomBelow(am.Tables(), am.idCount)
    modifies am`info, am.vvNew
    ensures RandomBelow(am.Tables(), am.idCount)
    ensures am.Tables() == I.LoadPlace(am.hasher, old(am.Tables()), b, index)
  {
    ghost var t := am.Tables();
    if 0 <= index < am.nNew && index in am.info {
      var p := T.Position(am.hasher, true, b, am.info[index].addr);
      A.PositionInRange(am.hasher, true, b, am.info[index].addr);
      A.Lookup(am.vvNew, b, p);
      hide A.Occupied, T.Position;
      if am.vvNew[b, p] == A.EMPTY_SLOT && am.info[index].refCount < T.MAX_REFS {
        am.info := am.info[index := am.info[index].(refCount := am.info[index].refCount + 1)];
        A.Put(am.vvNew, b, p, index);
        RandomSame(t, am.Tables(), index, am.idCount);
      }
    }
  }

  method LoadRow(am: A.AddrMan, b: nat, row: seq<int>)
    requires am.Shaped() && b < T.NEW_BUCKETS && RandomBelow(am.Tables(), am.idCount)
    modifies am`info, am.vvNew
    ensures RandomBelow(am.Tables(), am.idCount)
    ensures am.Tables() == I.LoadRow(am.hasher, old(am.Tables()), b, row)
  {
    hide A.Occupied, RandomBelow, I.LoadPlace;
    var n := 0;
    while n < |row|
      invariant 0 <= n <= |row| && RandomBelow(am.Tables(), am.idCount)
      invariant am.Tables() == I.LoadRow(am.hasher, old(am.Tables()), b, row[..n])
    {
      hide A.Occupied, RandomBelow, I.LoadPlace;
      assert row[..n + 1][..n] == row[..n] && row[..n + 1][n] == row[n];
      LoadPlace(am, b, row[n]);
      n := n + 1;
    }
    assert row[..n] == row;
  }

  method LoadRows(am: A.AddrMan, rows: seq<seq<int>>)
    requires am.Shaped() && |rows| == T.NEW_BUCKETS && RandomBelow(am.Tables(), am.idCount)
    modifies am`info, am.vvNew
    ensures RandomBelow(am.Tables(), am.idCount)
    ensures am.Tables() == I.LoadRows(am.hasher, old(am.Tables()), rows, |rows|)
  {
    hide A.Occupied, RandomBelow, I.LoadRow;
    var b := 0;
    while b < |rows|
      invariant 0 <= b <= |rows| && RandomBelow(am.Tables(), am.idCount)
      invariant am.Tables() == I.LoadRows(am.hasher, old(am.Tables()), rows, b)
    {
      hide A.Occupied, RandomBelow, I.LoadRow;
      LoadRow(am, b, rows[b]);
      b := b + 1;
    }
  }

  lemma BelowIsOk(t: T.Tables, n: int)
    requires RandomBelow(t, n)
    ensures V.RandomOk(t)
  {
  }

  /** Drops the entries that got no place. */
  method Prune(am: A.AddrMan)
    requires am.Shaped() && RandomBelow(am.Tables(), am.idCount)
    modifies am`info, am`random, am`addrs, am`nNew
    ensures am.Tables() == I.Prune(old(am.Tables()), T.Max0(am.idCount))
  {
    hide A.Occupied, RandomBelow, T.Delete, V.RandomOk;
    var n := 0;
    while n < am.idCount
      invariant 0 <= n <= T.Max0(am.idCount) && RandomBelow(am.Tables(), am.idCount)
      invariant am.Tables() == I.Prune(old(am.Tables()), n)
    {
      hide A.Occupied, RandomBelow, T.Delete, V.RandomOk;
      if n in am.info && !am.info[n].inTried && am.info[n].refCount == 0 {
        BelowIsOk(am.Tables(), am.idCount);
        RandomDelete(am.Tables(), n, am.idCount);
        am.Delete(n);
      }
      n := n + 1;
    }
  }

  /**
   * Unserialize into a fresh manager: false for an exception.  The stored key is the one
   * behind the manager's hash functions.
   */
  method Unserialize(am: A.AddrMan, m: I.Image) returns (ok: bool)
    requires am.Shaped() && am.Tables() == T.EMPTY && I.Read(m)
    modifies am, am.vvNew, am.vvTried
    ensures ok <==> I.Unserialize(am.hasher, m).Some?
    ensures ok ==> am.Tables() == I.Unserialize(am.hasher, m).value
  {
    hide A.Occupied, RandomBelow, I.LoadNews, I.LoadTrieds, I.LoadRows, I.Prune, I.UsesPlaces, I.BucketCount;
    if m.keySize != 32 {
      return false;
    }
    am.nNew, am.nTried := m.nNew, m.nTried;
    if am.nNew > T.NEW_BUCKETS * T.BUCKET_SIZE || am.nTried > T.TRIED_BUCKETS * T.BUCKET_SIZE {
      return false;
    }
    EmptyBelow(am.Tables());
    ok := LoadNews(am, m);
    if !ok {
      return false;
    }
    CountFree(am.Tables(), am.Tables().(idCount := am.nNew), |m.news|);
    NoneBelow(am.Tables().(idCount := am.nNew), |m.news|, am.nNew);
    am.idCount := am.nNew;
    ok := LoadTrieds(am, m);
    if !ok || |m.places| < I.BucketCount(m) {
      return false;
    }
    PlacesLength(m);
    if I.UsesPlaces(m) {
      LoadRows(am, m.places);
    }
    Prune(am);
    return true;
  }

  /** Without entries any bound holds. */
  lemma NoneBelow(t: T.Tables, n: int, k: int)
    requires RandomBelow(t, n) && (n == k || t.info == map[])
    ensures RandomBelow(t, k)
  {
  }

  lemma PlacesLength(m: I.Image)
    requires I.Framed(m)
    ensures I.UsesPlaces(m) ==> |m.places| == T.NEW_BUCKETS
  {
  }

  lemma EmptyBelow(t: T.Tables)
    requires t.info == map[] && t.random == []
    ensures RandomBelow(t, 0)
  {
  }

  /** The counters do not matter to vRandom. */
  lemma CountFree(t: T.Tables, t': T.Tables, n: int)
    requires RandomBelow(t, n) && t'.info == t.info && t'.random == t.random
    ensures RandomBelow(t', n)
  {
    forall p | 0 <= p < |t'.random| ensures V.HasRandomPos(t', t'.random[p], p) {
      assert V.HasRandomPos(t, t.random[p], p);
    }
  }
}
