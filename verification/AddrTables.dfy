/**
 * The tables of the address manager (src/addrman.h, src/addrman.cpp) as values, and every
 * operation on them as a function from tables to tables, in the order of the C++ statements.
 *
 * Bucket and position hashes are arbitrary functions, reduced into range as the source does.
 */
module AddrTables {
  import opened Wrappers

  const TRIED_BUCKETS: nat := 256
  const NEW_BUCKETS: nat := 1024
  const BUCKET_SIZE: nat := 64
  const MAX_REFS := 8              // ADDRMAN_NEW_BUCKETS_PER_ADDRESS
  const HORIZON_DAYS := 7
  const RETRIES := 3
  const MAX_FAILURES := 10
  const MIN_FAIL_DAYS := 2
  const GETADDR_MAX_PCT := 23
  const GETADDR_MAX := 2500
  const TWO32 := 0x1_0000_0000

  /** An IP address as a number (CNetAddr), and with a port (CService). */
  type NetAddr = nat
  datatype Service = Service(net: NetAddr, port: nat)

  /** ServiceFlags: the set of service bits a node offers. */
  type Services = set<nat>

  /** The hashes keyed by nKey: of a service, of a service and its source, and of a place. */
  datatype Hasher = Hasher(
    triedHash: Service -> nat,
    newHash: (Service, NetAddr) -> nat,
    positionHash: (bool, nat, Service) -> nat
  )

  datatype Slot = Slot(bucket: nat, pos: nat)

  datatype Info = Info(
    addr: Service,
    time: nat,
    services: Services,
    source: NetAddr,
    lastTry: int,
    lastCount: int,
    lastSuccess: int,
    attempts: int,
    refCount: int,
    inTried: bool,
    randomPos: int
  )

  datatype Tables = Tables(
    idCount: int,
    info: map<int, Info>,
    addrs: map<NetAddr, int>,
    random: seq<int>,
    nTried: int,
    triedTab: map<Slot, int>,     // the occupied places of vvTried
    nNew: int,
    newTab: map<Slot, int>,     // the occupied places of vvNew
    lastGood: int
  )

  const EMPTY := Tables(0, map[], map[], [], 0, map[], 0, map[], 1)

  // ---------------------------------------------------------------------------
  // Places and quality of an entry
  // ---------------------------------------------------------------------------

  function Position(h: Hasher, isNew: bool, bucket: nat, a: Service): nat {
    h.positionHash(isNew, bucket, a) % BUCKET_SIZE
  }

  /** The only place of a tried entry. */
  function TriedSlot(h: Hasher, a: Service): Slot {
    var b := h.triedHash(a) % TRIED_BUCKETS;
    Slot(b, Position(h, false, b, a))
  }

  /** The place of a new entry in a given bucket. */
  function PlaceIn(h: Hasher, bucket: nat, a: Service): Slot {
    Slot(bucket, Position(h, true, bucket, a))
  }

  /** The place of a new entry that `source` told us about. */
  function NewSlot(h: Hasher, a: Service, source: NetAddr): Slot {
    PlaceIn(h, h.newHash(a, source) % NEW_BUCKETS, a)
  }

  predicate IsTerrible(i: Info, now: int) {
    if i.lastTry != 0 && i.lastTry >= now - 60 then false
    else
      || i.time > now + 10 * 60
      || i.time == 0 || now - i.time > HORIZON_DAYS * 24 * 60 * 60
      || (i.lastSuccess == 0 && i.attempts >= RETRIES)
      || (now - i.lastSuccess > MIN_FAIL_DAYS * 24 * 60 * 60 && i.attempts >= MAX_FAILURES)
  }

  function Max0(x: int): nat { if x < 0 then 0 else x }

  // ---------------------------------------------------------------------------
  // The primitive operations
  // ---------------------------------------------------------------------------

  function Find(s: Tables, a: NetAddr): Option<int> {
    if a in s.addrs && s.addrs[a] in s.info then Some(s.addrs[a]) else None
  }

  function SetInfo(s: Tables, id: int, i: Info): Tables {
    s.(info := s.info[id := i])
  }

  /** A fresh id for an address that is not in the tables yet. */
  function Create(s: Tables, a: Service, time: nat, services: Services, source: NetAddr): Tables {
    var id := s.idCount;
    s.(idCount := id + 1,
       info := s.info[id := Info(a, time, services, source, 0, 0, 0, 0, 0, false, |s.random|)],
       addrs := s.addrs[a.net := id],
       random := s.random + [id])
  }

  predicate CanSwap(s: Tables, i: int, j: int) {
    && 0 <= i < |s.random| && 0 <= j < |s.random|
    && s.random[i] in s.info && s.random[j] in s.info
  }

  function SwapRandom(s: Tables, i: int, j: int): Tables {
    if i == j || !CanSwap(s, i, j) then s
    else
      var a, b := s.random[i], s.random[j];
      var info := s.info[a := s.info[a].(randomPos := j)];
      s.(info := info[b := info[b].(randomPos := i)], random := s.random[i := b][j := a])
  }

  function Delete(s: Tables, id: int): Tables {
    if id !in s.info || s.random == [] then s
    else
      var t := SwapRandom(s, s.info[id].randomPos, |s.random| - 1);
      t.(random := t.random[..|t.random| - 1],
         addrs := t.addrs - {s.info[id].addr.net},
         info := t.info - {id},
         nNew := t.nNew - 1)
  }

  /** Forget one reference of the entry at a place of the new table. */
  function DropSlot(s: Tables, slot: Slot): Tables
    requires slot in s.newTab && s.newTab[slot] in s.info
  {
    var id := s.newTab[slot];
    SetInfo(s, id, s.info[id].(refCount := s.info[id].refCount - 1)).(newTab := s.newTab - {slot})
  }

  function ClearNew(s: Tables, slot: Slot): Tables {
    if slot !in s.newTab || s.newTab[slot] !in s.info then s
    else
      var t := DropSlot(s, slot);
      if t.info[s.newTab[slot]].refCount == 0 then Delete(t, s.newTab[slot]) else t
  }

  /** Put a reference to `id` at an empty place of the new table. */
  function AddSlot(s: Tables, id: int, slot: Slot): Tables
    requires id in s.info
  {
    SetInfo(s, id, s.info[id].(refCount := s.info[id].refCount + 1)).(newTab := s.newTab[slot := id])
  }

  // ---------------------------------------------------------------------------
  // Promotion to the tried table
  // ---------------------------------------------------------------------------

  /** The new-table places in buckets below `n` where MakeTried finds `id`. */
  function FoundIn(h: Hasher, s: Tables, id: int, n: nat): set<Slot>
    requires id in s.info
  {
    set slot | slot in s.newTab && slot.bucket < n && s.newTab[slot] == id
               && slot == PlaceIn(h, slot.bucket, s.info[id].addr)
  }

  /** `id` leaves every new bucket below `n`. */
  function Unlink(h: Hasher, s: Tables, id: int, n: nat): Tables
    requires id in s.info
  {
    var found := FoundIn(h, s, id, n);
    SetInfo(s, id, s.info[id].(refCount := s.info[id].refCount - |found|)).(newTab := s.newTab - found)
  }

  /** The entry at a tried place goes back to the new table, deleting what is in its way there. */
  function Evict(h: Hasher, s: Tables, slot: Slot): Tables
    requires slot in s.triedTab && s.triedTab[slot] in s.info
  {
    var id := s.triedTab[slot];
    var i := s.info[id];
    var target := NewSlot(h, i.addr, i.source);
    var t := SetInfo(s, id, i.(inTried := false)).(triedTab := s.triedTab - {slot}, nTried := s.nTried - 1);
    var u := ClearNew(t, target);
    if id !in u.info then u
    else
      SetInfo(u, id, u.info[id].(refCount := 1)).(newTab := u.newTab[target := id], nNew := u.nNew + 1)
  }

  function Settle(s: Tables, id: int, slot: Slot): Tables
    requires id in s.info
  {
    SetInfo(s, id, s.info[id].(inTried := true)).(triedTab := s.triedTab[slot := id], nTried := s.nTried + 1)
  }

  function MakeTried(h: Hasher, s: Tables, id: int): Tables
    requires id in s.info
  {
    var slot := TriedSlot(h, s.info[id].addr);
    var t := Unlink(h, s, id, NEW_BUCKETS).(nNew := s.nNew - 1);
    var u := if slot in t.triedTab && t.triedTab[slot] in t.info then Evict(h, t, slot) else t;
    if id in u.info then Settle(u, id, slot) else u
  }

  function Good(h: Hasher, s0: Tables, a: Service, time: int): Tables {
    var s := s0.(lastGood := time);
    match Find(s, a.net)
    case None => s
    case Some(id) =>
      if s.info[id].addr != a then s
      else
        var t := SetInfo(s, id, s.info[id].(lastSuccess := time, lastTry := time, attempts := 0));
        if t.info[id].inTried || FoundIn(h, t, id, NEW_BUCKETS) == {} then t
        else MakeTried(h, t, id)
  }

  // ---------------------------------------------------------------------------
  // Adding
  // ---------------------------------------------------------------------------

  /** An address announcement, with what the environment decides about it. */
  datatype Announce = Announce(
    addr: Service,
    time: nat,
    services: Services,
    routable: bool,      // addr.IsRoutable()
    source: NetAddr,
    penalty: int,        // nTimePenalty
    now: int,            // GetAdjustedTime()
    roll: nat            // RandomInt(nFactor)
  )

  /** Do not set a penalty for a source's self-announcement. */
  function Penalty(m: Announce): int {
    if m.addr.net == m.source then 0 else m.penalty
  }

  /** The known entry after its time and services were brought up to date. */
  function Refresh(i: Info, m: Announce): Info {
    var interval := if m.now - m.time < 24 * 60 * 60 then 60 * 60 else 24 * 60 * 60;
    var newer := m.time != 0 && (i.time == 0 || i.time < m.time - interval - Penalty(m));
    i.(time := if newer then Max0(m.time - Penalty(m)) % TWO32 else i.time,
       services := i.services + m.services)
  }

  /** No further reference is wanted for a known entry. */
  predicate Enough(i: Info, m: Announce) {
    || m.time == 0 || (i.time != 0 && m.time <= i.time)
    || i.inTried
    || i.refCount == MAX_REFS
    || (i.refCount > 0 && m.roll != 0)
  }

  /** Whether a reference to an entry with `refs` references may take a place. */
  predicate MayTake(s: Tables, slot: Slot, refs: int, now: int) {
    || slot !in s.newTab
    || (s.newTab[slot] in s.info
        && (IsTerrible(s.info[s.newTab[slot]], now) || (s.info[s.newTab[slot]].refCount > 1 && refs == 0)))
  }

  /** Give `id` a reference at the place its source dictates, or drop it if it has none at all. */
  function Place(h: Hasher, s: Tables, id: int, source: NetAddr, now: int): Tables
    requires id in s.info
  {
    var slot := NewSlot(h, s.info[id].addr, source);
    if slot in s.newTab && s.newTab[slot] == id then s
    else if MayTake(s, slot, s.info[id].refCount, now) then
      var t := ClearNew(s, slot);
      if id in t.info then AddSlot(t, id, slot) else t
    else if s.info[id].refCount == 0 then Delete(s, id)
    else s
  }

  function CreateNew(s: Tables, m: Announce): Tables {
    var t := Create(s, m.addr, m.time, m.services, m.source);
    SetInfo(t, s.idCount, t.info[s.idCount].(time := Max0(m.time - Penalty(m)) % TWO32)).(nNew := t.nNew + 1)
  }

  function Add(h: Hasher, s: Tables, m: Announce): (Tables, bool) {
    if !m.routable then (s, false)
    else
      match Find(s, m.addr.net)
      case Some(id) =>
        var t := SetInfo(s, id, Refresh(s.info[id], m));
        (if Enough(t.info[id], m) then t else Place(h, t, id, m.source, m.now), false)
      case None =>
        (Place(h, CreateNew(s, m), s.idCount, m.source, m.now), true)
  }

  // ---------------------------------------------------------------------------
  // Bookkeeping about known entries
  // ---------------------------------------------------------------------------

  /** The id of the entry for exactly this service, port included. */
  function Exactly(s: Tables, a: Service): Option<int> {
    match Find(s, a.net)
    case None => None
    case Some(id) => if s.info[id].addr == a then Some(id) else None
  }

  function Attempt(s: Tables, a: Service, countFailure: bool, time: int): Tables {
    match Exactly(s, a)
    case None => s
    case Some(id) =>
      var i := s.info[id].(lastTry := time);
      SetInfo(s, id, if countFailure && i.lastCount < s.lastGood
                     then i.(lastCount := time, attempts := i.attempts + 1) else i)
  }

  function Connected(s: Tables, a: Service, time: int): Tables {
    match Exactly(s, a)
    case None => s
    case Some(id) =>
      var i := s.info[id];
      if time - i.time > 20 * 60 then SetInfo(s, id, i.(time := time % TWO32)) else s
  }

  function SetServices(s: Tables, a: Service, services: Services): Tables {
    match Exactly(s, a)
    case None => s
    case Some(id) => SetInfo(s, id, s.info[id].(services := services))
  }

  // ---------------------------------------------------------------------------
  // Answering getaddr
  // ---------------------------------------------------------------------------

  /** How many addresses one getaddr answer may hold. */
  function AnswerLimit(s: Tables): nat {
    var n := GETADDR_MAX_PCT * |s.random| / 100;
    if n > GETADDR_MAX then GETADDR_MAX else n
  }

  /**
   * The loop of GetAddr_ from position `n` on: a Fisher-Yates shuffle of the random order
   * that collects entries of good quality until the limit is reached.  `pick` stands for
   * the random numbers.
   */
  function Gather(s: Tables, n: nat, limit: nat, pick: nat -> nat, now: int, found: seq<Info>): (Tables, seq<Info>)
    decreases |s.random| - n
  {
    if n >= |s.random| || |found| >= limit then (s, found)
    else
      var t := SwapRandom(s, n, pick(n) % (|s.random| - n) + n);
      var found' := if t.random[n] in t.info && !IsTerrible(t.info[t.random[n]], now)
                    then found + [t.info[t.random[n]]] else found;
      Gather(t, n + 1, limit, pick, now, found')
  }

  function GetAddr(s: Tables, pick: nat -> nat, now: int): (Tables, seq<Info>) {
    Gather(s, 0, AnswerLimit(s), pick, now, [])
  }
}
