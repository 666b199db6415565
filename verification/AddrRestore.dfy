/** Loading a saved address manager restores it: the proof. */
module AddrRestore {
  import opened Wrappers
  import opened Sets
  import opened AddrTables
  import opened AddrInvariant
  import opened AddrImage

  // ---------------------------------------------------------------------------
  // The order of the entries in the image
  // ---------------------------------------------------------------------------

  function NewList(s: Tables): seq<int> {
    Listed(s.info, Max0(s.idCount), false)
  }

  function TriedList(s: Tables): seq<int> {
    Listed(s.info, Max0(s.idCount), true)
  }

  /** The id that an entry had before it was saved, by its id after loading. */
  function OldIds(s: Tables): seq<int> {
    NewList(s) + TriedList(s)
  }

  /** A consistent manager: ids are in range, and entries have references exactly if not tried. */
  ghost predicate Listable(s: Tables) {
    && s.idCount >= 0
    && forall id :: id in s.info ==> 0 <= id < s.idCount && (s.info[id].refCount == 0 <==> s.info[id].inTried)
  }

  lemma InvListable(h: Hasher, s: Tables)
    requires Inv(h, s)
    ensures Listable(s)
  {
  }

  lemma ListMembers(s: Tables, tried: bool)
    requires Listable(s)
    ensures Elements(Listed(s.info, s.idCount, tried)) == IdsIn(s.info, tried)
    ensures |Listed(s.info, s.idCount, tried)| == |IdsIn(s.info, tried)|
  {
    var l := Listed(s.info, s.idCount, tried);
    ListedKnown(s.info, s.idCount, tried);
    forall id | id in s.info && s.info[id].inTried == tried ensures id in l {
      ListedAt(s.info, id, s.idCount, tried);
    }
    hide Listed;
    assert forall id :: id in Elements(l) <==> id in IdsIn(s.info, tried);
    assert Elements(l) == IdsIn(s.info, tried);
    DistinctSize(l);
  }

  /** Every id is listed exactly once, the nNew new entries first, then the nTried tried ones. */
  lemma OldIdsExact(h: Hasher, s: Tables)
    requires Inv(h, s)
    ensures |NewList(s)| == s.nNew && |OldIds(s)| == s.nNew + s.nTried
    ensures Distinct(OldIds(s))
    ensures forall id :: id in OldIds(s) <==> id in s.info
    ensures forall j :: 0 <= j < |OldIds(s)| ==>
              OldIds(s)[j] in s.info && (s.info[OldIds(s)[j]].inTried <==> j >= s.nNew)
  {
    InvListable(h, s);
    ListMembers(s, false);
    ListMembers(s, true);
    assert s.nNew == |IdsIn(s.info, false)| && s.nTried == |IdsIn(s.info, true)|;
    ListedKnown(s.info, s.idCount, false);
    ListedKnown(s.info, s.idCount, true);
    hide *;
    assert NewList(s) == Listed(s.info, s.idCount, false) && TriedList(s) == Listed(s.info, s.idCount, true) by {
      ListNames(s);
    }
    JoinedLists(s, NewList(s), TriedList(s));
  }

  lemma ListNames(s: Tables)
    requires Listable(s)
    ensures s.idCount >= 0 && NewList(s) == Listed(s.info, s.idCount, false)
    ensures TriedList(s) == Listed(s.info, s.idCount, true) && OldIds(s) == NewList(s) + TriedList(s)
  {
    hide Listed;
  }

  lemma JoinedLists(s: Tables, n: seq<int>, r: seq<int>)
    requires Elements(n) == IdsIn(s.info, false) && Elements(r) == IdsIn(s.info, true)
    requires forall i, j :: 0 <= i < j < |n| ==> n[i] < n[j]
    requires forall i, j :: 0 <= i < j < |r| ==> r[i] < r[j]
    ensures Distinct(n + r)
    ensures forall id :: id in n + r <==> id in s.info
    ensures forall j :: 0 <= j < |n + r| ==> (n + r)[j] in s.info && (s.info[(n + r)[j]].inTried <==> j >= |n|)
  {
    var all := n + r;
    forall id ensures id in n <==> id in s.info && !s.info[id].inTried {
      assert id in n <==> id in Elements(n);
    }
    forall id ensures id in r <==> id in s.info && s.info[id].inTried {
      assert id in r <==> id in Elements(r);
    }
    hide Elements, IdsIn;
    forall j | 0 <= j < |all| ensures all[j] in s.info && (s.info[all[j]].inTried <==> j >= |n|) {
      assert if j < |n| then all[j] in n else all[j] in r;
    }
  }

  /** What the proof needs of a consistent manager. */
  ghost predicate Storable(h: Hasher, s: Tables) {
    && Inv(h, s) && IdList(s, OldIds(s)) && |NewList(s)| == s.nNew && |OldIds(s)| == s.nNew + s.nTried
    && (forall id :: id in s.info ==> id in OldIds(s))
    && (forall j :: 0 <= j < |OldIds(s)| ==> (s.info[OldIds(s)[j]].inTried <==> j >= s.nNew))
  }

  lemma InvStorable(h: Hasher, s: Tables)
    requires Inv(h, s)
    ensures Storable(h, s)
  {
    OldIdsExact(h, s);
  }

  // ---------------------------------------------------------------------------
  // Entries
  // ---------------------------------------------------------------------------

  /** `all` lists different ids of `s`. */
  ghost predicate IdList(s: Tables, all: seq<int>) {
    Distinct(all) && forall j :: 0 <= j < |all| ==> all[j] in s.info
  }

  /** Entry j after loading, with `refs` of its places restored. */
  function Restored(s: Tables, all: seq<int>, j: nat, refs: int): Info
    requires j < |all| && all[j] in s.info
  {
    Load(Save(s.info[all[j]]), j, refs, s.info[all[j]].inTried)
  }

  ghost predicate InfoLoaded(s: Tables, all: seq<int>, t: Tables, k: nat)
    requires k <= |all| && IdList(s, all)
  {
    && (forall j :: 0 <= j < k ==> j in t.info && t.info[j] == Restored(s, all, j, 0))
    && (forall j :: j in t.info ==> 0 <= j < k)
  }

  ghost predicate RandomLoaded(t: Tables, k: nat) {
    |t.random| == k && forall p :: 0 <= p < k ==> t.random[p] == p
  }

  ghost predicate AddrsLoaded(s: Tables, all: seq<int>, t: Tables, k: nat)
    requires k <= |all| && IdList(s, all)
  {
    && (forall j :: 0 <= j < k ==> s.info[all[j]].addr.net in t.addrs && t.addrs[s.info[all[j]].addr.net] == j)
    && (forall a :: a in t.addrs ==> AddrFrom(s, all, t.addrs[a], a, k))
  }

  ghost predicate AddrFrom(s: Tables, all: seq<int>, j: int, a: NetAddr, k: nat)
    requires k <= |all| && IdList(s, all)
  {
    0 <= j < k && s.info[all[j]].addr.net == a
  }

  ghost predicate TriedLoaded(h: Hasher, s: Tables, all: seq<int>, t: Tables, k: nat)
    requires k <= |all| && IdList(s, all)
  {
    && (forall j :: 0 <= j < k && s.info[all[j]].inTried ==>
          TriedSlot(h, s.info[all[j]].addr) in t.triedTab && t.triedTab[TriedSlot(h, s.info[all[j]].addr)] == j)
    && (forall slot :: slot in t.triedTab ==> TriedFrom(h, s, all, t.triedTab[slot], slot, k))
  }

  ghost predicate TriedFrom(h: Hasher, s: Tables, all: seq<int>, j: int, slot: Slot, k: nat)
    requires k <= |all| && IdList(s, all)
  {
    0 <= j < k && s.info[all[j]].inTried && slot == TriedSlot(h, s.info[all[j]].addr)
  }

  /** The first k entries are loaded, without places in the new table. */
  ghost predicate Loaded(h: Hasher, s: Tables, all: seq<int>, t: Tables, k: nat)
    requires k <= |all| && IdList(s, all)
  {
    && InfoLoaded(s, all, t, k) && RandomLoaded(t, k) && AddrsLoaded(s, all, t, k) && TriedLoaded(h, s, all, t, k)
    && t.newTab == map[] && t.nNew == s.nNew && t.nTried == s.nTried && t.lastGood == 1
  }

  /** No two entries share an address. */
  lemma AddrApart(s: Tables, all: seq<int>, i: nat, j: nat)
    requires AddrsOk(s) && IdList(s, all) && i < |all| && j < |all| && i != j
    ensures s.info[all[i]].addr.net != s.info[all[j]].addr.net
  {
    assert all[i] != all[j];
  }

  /** No two tried entries share a place. */
  lemma TriedApart(h: Hasher, s: Tables, all: seq<int>, i: nat, j: nat)
    requires TriedOk(h, s) && IdList(s, all) && i < |all| && j < |all| && i != j
    requires s.info[all[i]].inTried && s.info[all[j]].inTried
    ensures TriedSlot(h, s.info[all[i]].addr) != TriedSlot(h, s.info[all[j]].addr)
  {
    hide TriedSlot;
    assert all[i] != all[j];
    assert s.triedTab[TriedSlot(h, s.info[all[i]].addr)] == all[i];
    assert s.triedTab[TriedSlot(h, s.info[all[j]].addr)] == all[j];
  }

  lemma AddrsStep(s: Tables, all: seq<int>, t: Tables, t': Tables, k: nat)
    requires AddrsOk(s) && k < |all| && IdList(s, all) && AddrsLoaded(s, all, t, k)
    requires t'.addrs == t.addrs[s.info[all[k]].addr.net := k]
    ensures AddrsLoaded(s, all, t', k + 1)
  {
    forall j | 0 <= j < k ensures s.info[all[j]].addr.net != s.info[all[k]].addr.net {
      AddrApart(s, all, j, k);
    }
    hide AddrsOk;
    forall a | a in t'.addrs ensures AddrFrom(s, all, t'.addrs[a], a, k + 1) {
      if a != s.info[all[k]].addr.net {
        assert AddrFrom(s, all, t.addrs[a], a, k);
      }
    }
  }

  lemma InfoStep(s: Tables, all: seq<int>, t: Tables, t': Tables, k: nat)
    requires k < |all| && IdList(s, all) && InfoLoaded(s, all, t, k) && RandomLoaded(t, k)
    requires t'.info == t.info[k := Restored(s, all, k, 0)] && t'.random == t.random + [k]
    ensures InfoLoaded(s, all, t', k + 1) && RandomLoaded(t', k + 1)
  {
  }

  /** Loading the next new entry. */
  lemma NewStep(h: Hasher, s: Tables, all: seq<int>, t: Tables, k: nat)
    requires AddrsOk(s) && k < |all| && IdList(s, all) && Loaded(h, s, all, t, k) && !s.info[all[k]].inTried
    ensures Loaded(h, s, all, LoadNew(h, t, Save(s.info[all[k]]), k, true), k + 1)
  {
    var t' := LoadNew(h, t, Save(s.info[all[k]]), k, true);
    AddrsStep(s, all, t, t', k);
    InfoStep(s, all, t, t', k);
    hide AddrsOk, AddrsLoaded, InfoLoaded, RandomLoaded;
    forall slot | slot in t'.triedTab ensures TriedFrom(h, s, all, t'.triedTab[slot], slot, k + 1) {
      assert TriedFrom(h, s, all, t.triedTab[slot], slot, k);
    }
  }

  lemma TriedFree(h: Hasher, s: Tables, all: seq<int>, t: Tables, k: nat)
    requires TriedOk(h, s) && k < |all| && IdList(s, all) && TriedLoaded(h, s, all, t, k) && s.info[all[k]].inTried
    ensures TriedSlot(h, s.info[all[k]].addr) !in t.triedTab
  {
    hide TriedSlot, TriedOk;
    forall slot | slot in t.triedTab ensures slot != TriedSlot(h, s.info[all[k]].addr) {
      var j := t.triedTab[slot];
      assert TriedFrom(h, s, all, j, slot, k);
      TriedApart(h, s, all, j, k);
    }
  }

  /** Loading the next tried entry: its place is free, so it is not lost. */
  lemma TriedStep(h: Hasher, s: Tables, all: seq<int>, t: Tables, k: nat)
    requires AddrsOk(s) && TriedOk(h, s) && k < |all| && IdList(s, all)
    requires Loaded(h, s, all, t, k) && s.info[all[k]].inTried && t.idCount == k
    ensures var t' := LoadTried(h, t, Save(s.info[all[k]])); Loaded(h, s, all, t', k + 1) && t'.idCount == k + 1
  {
    TriedFree(h, s, all, t, k);
    hide TriedSlot;
    var t' := LoadTried(h, t, Save(s.info[all[k]]));
    AddrsStep(s, all, t, t', k);
    InfoStep(s, all, t, t', k);
    hide AddrsOk, AddrsLoaded, InfoLoaded, RandomLoaded, TriedOk;
    forall slot | slot in t'.triedTab ensures TriedFrom(h, s, all, t'.triedTab[slot], slot, k + 1) {
      assert slot in t.triedTab ==> TriedFrom(h, s, all, t.triedTab[slot], slot, k);
    }
  }

  lemma NewsImage(h: Hasher, s: Tables, j: nat)
    requires Storable(h, s) && j < s.nNew
    ensures var m := Serialize(s);
            UsesPlaces(m) && |m.news| == s.nNew && j < |OldIds(s)| && m.news[j] == Save(s.info[OldIds(s)[j]])
  {
    ToggleTwice(NEW_BUCKETS);
    hide Inv, Toggle, Listed;
    assert OldIds(s)[j] == NewList(s)[j];
  }

  lemma TriedsImage(h: Hasher, s: Tables, j: nat)
    requires Storable(h, s) && j < s.nTried
    ensures var m := Serialize(s);
            |m.trieds| == s.nTried && s.nNew + j < |OldIds(s)| && m.trieds[j] == Save(s.info[OldIds(s)[s.nNew + j]])
  {
    hide Inv, Toggle, Listed;
    assert OldIds(s)[s.nNew + j] == TriedList(s)[j];
  }

  lemma NewAtIndex(h: Hasher, s: Tables, j: nat)
    requires Storable(h, s) && j < s.nNew
    ensures AddrsOk(s) && IdList(s, OldIds(s)) && j < |OldIds(s)| && !s.info[OldIds(s)[j]].inTried
  {
    hide AddrsOk, RandomOk, NewOk, TriedOk, RefsOk, CountsOk, NewList;
  }

  lemma TriedAtIndex(h: Hasher, s: Tables, j: nat)
    requires Storable(h, s) && s.nNew <= j < s.nNew + s.nTried
    ensures AddrsOk(s) && TriedOk(h, s) && IdList(s, OldIds(s)) && j < |OldIds(s)| && s.info[OldIds(s)[j]].inTried
  {
    hide AddrsOk, RandomOk, NewOk, TriedOk, RefsOk, CountsOk, NewList, OldIds;
  }

  lemma NewsUnfold(h: Hasher, t: Tables, m: Image, n: nat)
    requires 0 < n <= |m.news|
    ensures LoadNews(h, t, m, n) == LoadNew(h, LoadNews(h, t, m, n - 1), m.news[n - 1], n - 1, UsesPlaces(m))
  {
  }

  lemma TriedsUnfold(h: Hasher, t: Tables, m: Image, n: nat)
    requires 0 < n <= |m.trieds|
    ensures LoadTrieds(h, t, m, n) == LoadTried(h, LoadTrieds(h, t, m, n - 1), m.trieds[n - 1])
  {
  }

  lemma {:induction false} NewsLoaded(h: Hasher, s: Tables, n: nat)
    requires Storable(h, s) && n <= s.nNew == |Serialize(s).news| && n <= |OldIds(s)| && IdList(s, OldIds(s))
    ensures Loaded(h, s, OldIds(s), LoadNews(h, EMPTY.(nNew := s.nNew, nTried := s.nTried), Serialize(s), n), n)
  {
    hide *;
    var t0 := EMPTY.(nNew := s.nNew, nTried := s.nTried);
    if n == 0 {
      NothingLoaded(h, s, OldIds(s), t0, Serialize(s));
    } else {
      NewsLoaded(h, s, n - 1);
      NewsImage(h, s, n - 1);
      NewAtIndex(h, s, n - 1);
      NewsUnfold(h, t0, Serialize(s), n);
      NewStep(h, s, OldIds(s), LoadNews(h, t0, Serialize(s), n - 1), n - 1);
    }
  }

  lemma NothingLoaded(h: Hasher, s: Tables, all: seq<int>, t: Tables, m: Image)
    requires IdList(s, all) && t == EMPTY.(nNew := s.nNew, nTried := s.nTried)
    ensures LoadNews(h, t, m, 0) == t && Loaded(h, s, all, t, 0)
  {
  }

  lemma {:induction false} TriedsLoaded(h: Hasher, s: Tables, t1: Tables, n: nat)
    requires Storable(h, s) && n <= s.nTried == |Serialize(s).trieds| && s.nNew >= 0
    requires |OldIds(s)| == s.nNew + s.nTried && IdList(s, OldIds(s))
    requires Loaded(h, s, OldIds(s), t1, s.nNew) && t1.idCount == s.nNew
    ensures Loaded(h, s, OldIds(s), LoadTrieds(h, t1, Serialize(s), n), s.nNew + n)
    ensures LoadTrieds(h, t1, Serialize(s), n).idCount == s.nNew + n
  {
    hide *;
    if n == 0 {
      TriedsNone(h, t1, Serialize(s));
    } else {
      TriedsLoaded(h, s, t1, n - 1);
      TriedsImage(h, s, n - 1);
      TriedAtIndex(h, s, s.nNew + n - 1);
      TriedsUnfold(h, t1, Serialize(s), n);
      TriedStep(h, s, OldIds(s), LoadTrieds(h, t1, Serialize(s), n - 1), s.nNew + n - 1);
    }
  }

  lemma TriedsNone(h: Hasher, t: Tables, m: Image)
    ensures LoadTrieds(h, t, m, 0) == t
  {
  }

  // ---------------------------------------------------------------------------
  // Places in the new table
  // ---------------------------------------------------------------------------

  /** Places are stored bucket by bucket. */
  predicate Before(slot: Slot, b: nat, p: nat) {
    slot.bucket < b || (slot.bucket == b && slot.pos < p)
  }

  lemma BeforeStep(b: nat, p: nat)
    ensures forall x: Slot :: Before(x, b, p + 1) <==> Before(x, b, p) || x == Slot(b, p)
  {
    forall x: Slot ensures Before(x, b, p + 1) <==> Before(x, b, p) || x == Slot(b, p) {
      BeforeNext(x, b, p);
    }
  }

  lemma BeforeNext(x: Slot, b: nat, p: nat)
    ensures Before(x, b, p + 1) <==> Before(x, b, p) || x == Slot(b, p)
  {
    assert x == Slot(x.bucket, x.pos);
  }

  /** The places of an entry that are already restored. */
  function DoneSlots(s: Tables, id: int, b: nat, p: nat): set<Slot> {
    set slot | slot in s.newTab && s.newTab[slot] == id && Before(slot, b, p)
  }

  ghost predicate InfoPlaced(s: Tables, all: seq<int>, t: Tables, b: nat, p: nat)
    requires IdList(s, all)
  {
    && (forall j :: 0 <= j < |all| ==> j in t.info && t.info[j] == Restored(s, all, j, |DoneSlots(s, all[j], b, p)|))
    && (forall j :: j in t.info ==> 0 <= j < |all|)
  }

  ghost predicate NewPlaced(s: Tables, all: seq<int>, t: Tables, b: nat, p: nat) {
    && (forall slot :: slot in s.newTab && Before(slot, b, p) ==> slot in t.newTab)
    && (forall slot :: slot in t.newTab ==> Before(slot, b, p) && NewFrom(s, all, t.newTab[slot], slot))
  }

  ghost predicate NewFrom(s: Tables, all: seq<int>, j: int, slot: Slot) {
    slot in s.newTab && 0 <= j < |all| && all[j] == s.newTab[slot]
  }

  ghost predicate Others(h: Hasher, s: Tables, all: seq<int>, t: Tables)
    requires IdList(s, all)
  {
    && RandomLoaded(t, |all|) && AddrsLoaded(s, all, t, |all|) && TriedLoaded(h, s, all, t, |all|)
    && t.nNew == s.nNew && t.nTried == s.nTried && t.lastGood == 1 && t.idCount == |all|
  }

  ghost predicate PlacedTo(h: Hasher, s: Tables, all: seq<int>, t: Tables, b: nat, p: nat)
    requires IdList(s, all)
  {
    InfoPlaced(s, all, t, b, p) && NewPlaced(s, all, t, b, p) && Others(h, s, all, t)
  }

  lemma NonePlaced(h: Hasher, s: Tables, all: seq<int>, t: Tables)
    requires IdList(s, all) && Loaded(h, s, all, t, |all|) && t.idCount == |all|
    ensures PlacedTo(h, s, all, t, 0, 0)
  {
    forall id ensures DoneSlots(s, id, 0, 0) == {} {
    }
  }

  /** The places restored after one more step: one more for the entry at that place. */
  lemma DoneStep(s: Tables, id: int, b: nat, p: nat)
    ensures var slot := Slot(b, p);
            if slot in s.newTab && s.newTab[slot] == id then
              && DoneSlots(s, id, b, p + 1) == DoneSlots(s, id, b, p) + {slot} && slot !in DoneSlots(s, id, b, p)
              && |DoneSlots(s, id, b, p + 1)| == |DoneSlots(s, id, b, p)| + 1
            else DoneSlots(s, id, b, p + 1) == DoneSlots(s, id, b, p)
  {
    var slot := Slot(b, p);
    BeforeStep(b, p);
    if slot in s.newTab && s.newTab[slot] == id {
      assert DoneSlots(s, id, b, p + 1) == DoneSlots(s, id, b, p) + {slot};
    } else {
      assert DoneSlots(s, id, b, p + 1) == DoneSlots(s, id, b, p);
    }
  }

  lemma NoPlaceHere(h: Hasher, s: Tables, all: seq<int>, t: Tables, b: nat, p: nat)
    requires IdList(s, all) && PlacedTo(h, s, all, t, b, p) && Slot(b, p) !in s.newTab
    ensures PlacedTo(h, s, all, t, b, p + 1)
  {
    hide Others;
    forall id ensures DoneSlots(s, id, b, p + 1) == DoneSlots(s, id, b, p) {
      DoneStep(s, id, b, p);
    }
    BeforeStep(b, p);
  }

  /** The reference counts restored so far leave room for the next place. */
  lemma RoomForPlace(s: Tables, id: int, b: nat, p: nat)
    requires RefsOk(s, {}) && id in s.info && Slot(b, p) in s.newTab && s.newTab[Slot(b, p)] == id
    ensures |DoneSlots(s, id, b, p)| < MAX_REFS
  {
    var done := DoneSlots(s, id, b, p);
    assert done <= SlotsOf(s, id) - {Slot(b, p)};
    SubsetSize(done, SlotsOf(s, id) - {Slot(b, p)});
    assert Slot(b, p) in SlotsOf(s, id);
  }

  /** Restoring one place. */
  lemma PlaceHere(h: Hasher, s: Tables, all: seq<int>, t: Tables, b: nat, p: nat, j: nat)
    requires NewOk(h, s) && RefsOk(s, {}) && IdList(s, all) && PlacedTo(h, s, all, t, b, p)
    requires NewFrom(s, all, j, Slot(b, p)) && j < s.nNew
    ensures PlacedTo(h, s, all, LoadPlace(h, t, b, j), b, p + 1)
  {
    var slot := Slot(b, p);
    var id := all[j];
    assert NewAt(h, s, s.newTab[slot], slot);
    RoomForPlace(s, id, b, p);
    assert slot !in t.newTab;
    hide RefsOk, NewOk, SlotsIn;
    assert t.info[j].addr == s.info[id].addr;
    assert LoadPlace(h, t, b, j) == AddSlot(t, j, slot);
    PlaceAdded(h, s, all, t, b, p, j);
  }

  lemma PlaceAdded(h: Hasher, s: Tables, all: seq<int>, t: Tables, b: nat, p: nat, j: nat)
    requires IdList(s, all) && PlacedTo(h, s, all, t, b, p) && NewFrom(s, all, j, Slot(b, p)) && j in t.info
    ensures PlacedTo(h, s, all, AddSlot(t, j, Slot(b, p)), b, p + 1)
  {
    var t' := AddSlot(t, j, Slot(b, p));
    InfoAdded(s, all, t, b, p, j);
    NewAdded(s, all, t, b, p, j);
    hide InfoPlaced, NewPlaced;
    OthersSame(h, s, all, t, t');
  }

  lemma InfoAdded(s: Tables, all: seq<int>, t: Tables, b: nat, p: nat, j: nat)
    requires IdList(s, all) && InfoPlaced(s, all, t, b, p) && NewFrom(s, all, j, Slot(b, p)) && j in t.info
    ensures InfoPlaced(s, all, AddSlot(t, j, Slot(b, p)), b, p + 1)
  {
    var t' := AddSlot(t, j, Slot(b, p));
    forall i | 0 <= i < |all|
      ensures i in t'.info && t'.info[i] == Restored(s, all, i, |DoneSlots(s, all[i], b, p + 1)|)
    {
      DoneStep(s, all[i], b, p);
      assert i != j ==> all[i] != all[j];
    }
  }

  lemma NewAdded(s: Tables, all: seq<int>, t: Tables, b: nat, p: nat, j: nat)
    requires NewPlaced(s, all, t, b, p) && NewFrom(s, all, j, Slot(b, p)) && j in t.info
    ensures NewPlaced(s, all, AddSlot(t, j, Slot(b, p)), b, p + 1)
  {
    var slot := Slot(b, p);
    var t' := AddSlot(t, j, slot);
    BeforeStep(b, p);
    forall x | x in t'.newTab ensures Before(x, b, p + 1) && NewFrom(s, all, t'.newTab[x], x) {
      assert x != slot ==> NewFrom(s, all, t.newTab[x], x);
    }
  }

  lemma OthersSame(h: Hasher, s: Tables, all: seq<int>, t: Tables, t': Tables)
    requires IdList(s, all) && Others(h, s, all, t) && t' == t.(info := t'.info, newTab := t'.newTab)
    ensures Others(h, s, all, t')
  {
    forall a | a in t'.addrs ensures AddrFrom(s, all, t'.addrs[a], a, |all|) {
      assert AddrFrom(s, all, t.addrs[a], a, |all|);
    }
    forall slot | slot in t'.triedTab ensures TriedFrom(h, s, all, t'.triedTab[slot], slot, |all|) {
      assert TriedFrom(h, s, all, t.triedTab[slot], slot, |all|);
    }
  }

  /** The stored position of an entry at a place is its index among the loaded entries. */
  lemma RankIndex(h: Hasher, s: Tables, slot: Slot)
    requires Inv(h, s) && slot in s.newTab && |NewList(s)| == s.nNew
    ensures var j := Rank(s.info, s.newTab[slot]); j < s.nNew && NewFrom(s, OldIds(s), j, slot)
  {
    InvListable(h, s);
    var id := s.newTab[slot];
    assert NewAt(h, s, id, slot);
    ListedAt(s.info, id, s.idCount, false);
  }

  lemma RowNext(h: Hasher, s: Tables, u: Tables, b: nat, p: nat)
    requires Storable(h, s) && PlacedTo(h, s, OldIds(s), u, b, p)
    ensures var slot := Slot(b, p);
            PlacedTo(h, s, OldIds(s),
                     if slot in s.newTab then LoadPlace(h, u, b, Rank(s.info, s.newTab[slot])) else u, b, p + 1)
  {
    hide PlacedTo, IdList, NewList, OldIds, Rank, AddrsOk, RandomOk, NewOk, TriedOk, RefsOk, CountsOk, LoadPlace;
    var slot := Slot(b, p);
    if slot in s.newTab {
      RankIndex(h, s, slot);
      PlaceHere(h, s, OldIds(s), u, b, p, Rank(s.info, s.newTab[slot]));
    } else {
      NoPlaceHere(h, s, OldIds(s), u, b, p);
    }
  }

  lemma RowUnfold(h: Hasher, s: Tables, t: Tables, b: nat, p: nat)
    ensures var slot := Slot(b, p);
            var u := LoadRow(h, t, b, Row(s, b, p));
            LoadRow(h, t, b, Row(s, b, p + 1))
            == if slot in s.newTab then LoadPlace(h, u, b, Rank(s.info, s.newTab[slot])) else u
  {
    hide LoadPlace, Rank;
    var row, next := Row(s, b, p), Row(s, b, p + 1);
    if Slot(b, p) in s.newTab {
      var j := Rank(s.info, s.newTab[Slot(b, p)]);
      assert next == row + [j] && next[..|next| - 1] == row;
    } else {
      assert next == row;
    }
  }

  lemma RowNone(h: Hasher, s: Tables, t: Tables, b: nat)
    ensures LoadRow(h, t, b, Row(s, b, 0)) == t
  {
  }

  lemma {:induction false} RowLoaded(h: Hasher, s: Tables, t: Tables, b: nat, p: nat)
    requires Storable(h, s) && PlacedTo(h, s, OldIds(s), t, b, 0)
    ensures PlacedTo(h, s, OldIds(s), LoadRow(h, t, b, Row(s, b, p)), b, p)
  {
    hide *;
    if p == 0 {
      RowNone(h, s, t, b);
    } else {
      RowLoaded(h, s, t, b, p - 1);
      RowNext(h, s, LoadRow(h, t, b, Row(s, b, p - 1)), b, p - 1);
      RowUnfold(h, s, t, b, p - 1);
    }
  }

  /** A full bucket is done. */
  lemma NextBucket(h: Hasher, s: Tables, all: seq<int>, t: Tables, b: nat)
    requires NewOk(h, s) && IdList(s, all) && PlacedTo(h, s, all, t, b, BUCKET_SIZE)
    ensures PlacedTo(h, s, all, t, b + 1, 0)
  {
    hide Others;
    forall slot | slot in s.newTab ensures Before(slot, b + 1, 0) <==> Before(slot, b, BUCKET_SIZE) {
      assert NewAt(h, s, s.newTab[slot], slot);
    }
    forall id ensures DoneSlots(s, id, b + 1, 0) == DoneSlots(s, id, b, BUCKET_SIZE) {
    }
    forall x | x in t.newTab ensures Before(x, b + 1, 0) {
      assert NewFrom(s, all, t.newTab[x], x);
    }
  }

  lemma {:induction false} RowsLoaded(h: Hasher, s: Tables, t: Tables, n: nat)
    requires Storable(h, s) && PlacedTo(h, s, OldIds(s), t, 0, 0) && n <= NEW_BUCKETS
    ensures PlacedTo(h, s, OldIds(s), LoadRows(h, t, Rows(s, NEW_BUCKETS), n), n, 0)
  {
    hide *;
    if n == 0 {
      RowsNone(h, t, Rows(s, NEW_BUCKETS));
    } else {
      RowsLoaded(h, s, t, n - 1);
      StorableParts(h, s);
      RowsUnfold(h, s, t, n - 1);
      var u := LoadRows(h, t, Rows(s, NEW_BUCKETS), n - 1);
      RowLoaded(h, s, u, n - 1, BUCKET_SIZE);
      NextBucket(h, s, OldIds(s), LoadRow(h, u, n - 1, Row(s, n - 1, BUCKET_SIZE)), n - 1);
    }
  }

  lemma StorableParts(h: Hasher, s: Tables)
    requires Storable(h, s)
    ensures NewOk(h, s) && IdList(s, OldIds(s))
  {
    hide AddrsOk, RandomOk, NewOk, TriedOk, RefsOk, CountsOk, IdList, OldIds, NewList;
  }

  lemma RowsNone(h: Hasher, t: Tables, rows: seq<seq<int>>)
    ensures LoadRows(h, t, rows, 0) == t
  {
  }

  lemma RowsUnfold(h: Hasher, s: Tables, t: Tables, b: nat)
    requires b < NEW_BUCKETS
    ensures LoadRows(h, t, Rows(s, NEW_BUCKETS), b + 1)
            == LoadRow(h, LoadRows(h, t, Rows(s, NEW_BUCKETS), b), b, Row(s, b, BUCKET_SIZE))
  {
    hide LoadRow, Row;
  }

  // ---------------------------------------------------------------------------
  // The counts fit the limits
  // ---------------------------------------------------------------------------

  lemma PickId(ids: set<int>) returns (id: int)
    requires |ids| > 0
    ensures id in ids
  {
    id := Pick(ids);
  }

  lemma Pick<T>(ids: set<T>) returns (id: T)
    requires |ids| > 0
    ensures id in ids
  {
    id :| id in ids;
  }

  /** Different ids hold different places. */
  lemma {:induction false} HoldersFit(tab: map<Slot, int>, ids: set<int>)
    requires forall id :: id in ids ==> SlotsIn(tab, id) != {}
    ensures |ids| <= |tab|
    decreases ids
  {
    if |ids| > 0 {
      var id := PickId(ids);
      var slot :| slot in SlotsIn(tab, id);
      var rest := tab - {slot};
      forall x | x in ids - {id} ensures SlotsIn(rest, x) != {} {
        var y :| y in SlotsIn(tab, x);
        assert y in SlotsIn(rest, x);
      }
      HoldersFit(rest, ids - {id});
      assert |rest.Keys| == |tab.Keys - {slot}|;
      assert rest.Keys == tab.Keys - {slot};
    }
  }

  function Bucket(b: nat, k: nat): (places: set<Slot>)
    ensures forall slot: Slot :: slot in places <==> slot.bucket == b && slot.pos < k
    ensures |places| == k
  {
    if k == 0 then {}
    else
      assert forall slot: Slot :: slot == Slot(b, k - 1) <==> slot.bucket == b && slot.pos == k - 1;
      Bucket(b, k - 1) + {Slot(b, k - 1)}
  }

  function Buckets(n: nat): (places: set<Slot>)
    ensures forall slot: Slot :: slot in places <==> slot.bucket < n && slot.pos < BUCKET_SIZE
    ensures |places| == n * BUCKET_SIZE
  {
    if n == 0 then {}
    else
      assert Buckets(n - 1) !! Bucket(n - 1, BUCKET_SIZE);
      Buckets(n - 1) + Bucket(n - 1, BUCKET_SIZE)
  }

  lemma PlacesFit(tab: map<Slot, int>, ids: set<int>, n: nat)
    requires forall id :: id in ids ==> SlotsIn(tab, id) != {}
    requires forall slot :: slot in tab ==> slot.bucket < n && slot.pos < BUCKET_SIZE
    ensures |ids| <= n * BUCKET_SIZE
  {
    HoldersFit(tab, ids);
    assert tab.Keys <= Buckets(n);
    SubsetSize(tab.Keys, Buckets(n));
    assert |tab.Keys| == |tab|;
  }

  /** A consistent manager never exceeds the limits that loading checks. */
  lemma CountsFit(h: Hasher, s: Tables)
    requires Inv(h, s)
    ensures 0 <= s.nNew <= NEW_BUCKETS * BUCKET_SIZE && 0 <= s.nTried <= TRIED_BUCKETS * BUCKET_SIZE
  {
    forall id | id in NewIds(s) ensures SlotsIn(s.newTab, id) != {} {
      assert s.info[id].refCount == |SlotsOf(s, id)|;
    }
    forall slot | slot in s.newTab ensures slot.bucket < NEW_BUCKETS && slot.pos < BUCKET_SIZE {
      assert NewAt(h, s, s.newTab[slot], slot);
    }
    PlacesFit(s.newTab, NewIds(s), NEW_BUCKETS);
    forall id | id in TriedIds(s) ensures SlotsIn(s.triedTab, id) != {} {
      assert TriedSlot(h, s.info[id].addr) in SlotsIn(s.triedTab, id);
    }
    forall slot | slot in s.triedTab ensures slot.bucket < TRIED_BUCKETS && slot.pos < BUCKET_SIZE {
      assert TriedAt(h, s, s.triedTab[slot], slot);
    }
    PlacesFit(s.triedTab, TriedIds(s), TRIED_BUCKETS);
  }

  // ---------------------------------------------------------------------------
  // The round trip
  // ---------------------------------------------------------------------------

  /**
   * `t` is `s` with its ids renamed (entry j of `t` was entry OldIds(s)[j]), a new random
   * order, and the fields that are kept in memory only reset.
   */
  ghost predicate Mirrors(s: Tables, t: Tables) {
    var all := OldIds(s);
    && IdList(s, all) && (forall id :: id in s.info ==> id in all)
    && t.idCount == |all| && t.nNew == s.nNew && t.nTried == s.nTried && t.lastGood == 1
    && RandomLoaded(t, |all|)
    && (forall j :: 0 <= j < |all| ==> j in t.info && t.info[j] == Restored(s, all, j, s.info[all[j]].refCount))
    && (forall j :: j in t.info ==> 0 <= j < |all|)
    && Renames(all, s.newTab, t.newTab) && Renames(all, s.triedTab, t.triedTab)
    && AddrsRenamed(all, s.addrs, t.addrs)
  }

  /** The same places are taken, by the same entries. */
  ghost predicate Renames(all: seq<int>, was: map<Slot, int>, now: map<Slot, int>) {
    && (forall slot :: slot in was ==> slot in now)
    && (forall slot :: slot in now ==> slot in was && Renamed(all, now[slot], was[slot]))
  }

  ghost predicate AddrsRenamed(all: seq<int>, was: map<NetAddr, int>, now: map<NetAddr, int>) {
    && (forall a :: a in was ==> a in now)
    && (forall a :: a in now ==> a in was && Renamed(all, now[a], was[a]))
  }

  ghost predicate Renamed(all: seq<int>, j: int, id: int) {
    0 <= j < |all| && all[j] == id
  }

  lemma IndexIn(all: seq<int>, id: int) returns (j: nat)
    requires id in all
    ensures Renamed(all, j, id)
  {
    j :| 0 <= j < |all| && all[j] == id;
  }

  lemma NewRenamed(h: Hasher, s: Tables, all: seq<int>, t: Tables)
    requires NewOk(h, s) && RefsOk(s, {}) && IdList(s, all) && InfoPlaced(s, all, t, NEW_BUCKETS, 0)
             && NewPlaced(s, all, t, NEW_BUCKETS, 0)
    ensures Renames(all, s.newTab, t.newTab)
    ensures forall j :: 0 <= j < |all| ==> j in t.info && t.info[j] == Restored(s, all, j, s.info[all[j]].refCount)
  {
    forall slot | slot in s.newTab ensures Before(slot, NEW_BUCKETS, 0) {
      assert NewAt(h, s, s.newTab[slot], slot);
    }
    forall id | id in s.info ensures |DoneSlots(s, id, NEW_BUCKETS, 0)| == s.info[id].refCount {
      assert DoneSlots(s, id, NEW_BUCKETS, 0) == SlotsOf(s, id);
    }
    hide RefsOk, NewOk;
    forall slot | slot in t.newTab ensures slot in s.newTab && Renamed(all, t.newTab[slot], s.newTab[slot]) {
      assert NewFrom(s, all, t.newTab[slot], slot);
    }
  }

  lemma TriedRenamed(h: Hasher, s: Tables, all: seq<int>, t: Tables)
    requires TriedOk(h, s) && IdList(s, all) && (forall id :: id in s.info ==> id in all)
             && TriedLoaded(h, s, all, t, |all|)
    ensures Renames(all, s.triedTab, t.triedTab)
  {
    hide TriedSlot;
    forall slot | slot in s.triedTab ensures slot in t.triedTab {
      assert TriedAt(h, s, s.triedTab[slot], slot);
      var j := IndexIn(all, s.triedTab[slot]);
    }
    forall slot | slot in t.triedTab ensures slot in s.triedTab && Renamed(all, t.triedTab[slot], s.triedTab[slot]) {
      assert TriedFrom(h, s, all, t.triedTab[slot], slot, |all|);
      TriedHolder(h, s, all[t.triedTab[slot]]);
    }
  }

  lemma TriedHolder(h: Hasher, s: Tables, id: int)
    requires TriedOk(h, s) && id in s.info && s.info[id].inTried
    ensures TriedSlot(h, s.info[id].addr) in s.triedTab && s.triedTab[TriedSlot(h, s.info[id].addr)] == id
  {
  }

  lemma AddrHolder(s: Tables, id: int)
    requires AddrsOk(s) && id in s.info
    ensures s.info[id].addr.net in s.addrs && s.addrs[s.info[id].addr.net] == id
  {
  }

  lemma AddrRenamed(s: Tables, all: seq<int>, t: Tables)
    requires AddrsOk(s) && IdList(s, all) && (forall id :: id in s.info ==> id in all) && AddrsLoaded(s, all, t, |all|)
    ensures AddrsRenamed(all, s.addrs, t.addrs)
  {
    forall a | a in s.addrs ensures a in t.addrs {
      assert HasAddr(s, s.addrs[a], a);
      var j := IndexIn(all, s.addrs[a]);
    }
    forall a | a in t.addrs ensures a in s.addrs && Renamed(all, t.addrs[a], s.addrs[a]) {
      assert AddrFrom(s, all, t.addrs[a], a, |all|);
      AddrHolder(s, all[t.addrs[a]]);
    }
  }

  lemma PlacedMirrors(h: Hasher, s: Tables, t: Tables)
    requires Storable(h, s) && IdList(s, OldIds(s)) && PlacedTo(h, s, OldIds(s), t, NEW_BUCKETS, 0)
    ensures Mirrors(s, t)
  {
    hide AddrsOk, RandomOk, NewOk, TriedOk, RefsOk, CountsOk, OldIds, NewList;
    hide InfoPlaced, NewPlaced, AddrsLoaded, TriedLoaded, RandomLoaded, Renames, AddrsRenamed, Restored;
    NewRenamed(h, s, OldIds(s), t);
    TriedRenamed(h, s, OldIds(s), t);
    AddrRenamed(s, OldIds(s), t);
    PlacedKeys(s, OldIds(s), t, NEW_BUCKETS, 0);
  }

  lemma PlacedKeys(s: Tables, all: seq<int>, t: Tables, b: nat, p: nat)
    requires IdList(s, all) && InfoPlaced(s, all, t, b, p)
    ensures forall j :: j in t.info ==> 0 <= j < |all|
  {
  }

  /** Every new entry got its places back, so nothing is pruned. */
  lemma {:induction false} NothingPruned(t: Tables, n: nat)
    requires forall j :: j in t.info ==> t.info[j].inTried || t.info[j].refCount != 0
    ensures Prune(t, n) == t
  {
    if n > 0 {
      NothingPruned(t, n - 1);
    }
  }

  lemma ImageFits(h: Hasher, s: Tables)
    requires Storable(h, s)
    ensures var m := Serialize(s);
            && Framed(m) && UsesPlaces(m) && m.keySize == 32 && m.places == Rows(s, NEW_BUCKETS)
            && m.nNew == s.nNew == |m.news| <= NEW_BUCKETS * BUCKET_SIZE
            && m.nTried == s.nTried == |m.trieds| <= TRIED_BUCKETS * BUCKET_SIZE
  {
    hide Inv, Toggle, Listed, Row, IdList;
    CountsFit(h, s);
    ToggleTwice(NEW_BUCKETS);
  }

  /** Loading a saved manager, stage by stage. */
  lemma Stages(h: Hasher, s: Tables)
    requires Storable(h, s)
    ensures Framed(Serialize(s)) && Unserialize(h, Serialize(s)).Some? && Mirrors(s, Unserialize(h, Serialize(s)).value)
  {
    ImageFits(h, s);
    StorableSizes(h, s);
    hide *;
    var m, all := Serialize(s), OldIds(s);
    NewsLoaded(h, s, s.nNew);
    var t1 := LoadNews(h, EMPTY.(nNew := s.nNew, nTried := s.nTried), m, s.nNew).(idCount := s.nNew);
    LoadedIdCount(h, s, all, LoadNews(h, EMPTY.(nNew := s.nNew, nTried := s.nTried), m, s.nNew), s.nNew);
    TriedsLoaded(h, s, t1, s.nTried);
    var t2 := LoadTrieds(h, t1, m, s.nTried);
    NonePlaced(h, s, all, t2);
    RowsLoaded(h, s, t2, NEW_BUCKETS);
    var t3 := LoadRows(h, t2, m.places, NEW_BUCKETS);
    PlacedMirrors(h, s, t3);
    MirrorKept(h, s, t3);
    NothingPruned(t3, Max0(t3.idCount));
    UnserializeIs(h, m);
  }

  lemma StorableSizes(h: Hasher, s: Tables)
    requires Storable(h, s)
    ensures IdList(s, OldIds(s)) && 0 <= s.nNew && 0 <= s.nTried && |OldIds(s)| == s.nNew + s.nTried
  {
    CountsFit(h, s);
    hide Inv;
  }

  lemma LoadedIdCount(h: Hasher, s: Tables, all: seq<int>, t: Tables, k: nat)
    requires k <= |all| && IdList(s, all) && Loaded(h, s, all, t, k)
    ensures Loaded(h, s, all, t.(idCount := k), k)
  {
    var t' := t.(idCount := k);
    forall a | a in t'.addrs ensures AddrFrom(s, all, t'.addrs[a], a, k) {
      assert AddrFrom(s, all, t.addrs[a], a, k);
    }
    forall slot | slot in t'.triedTab ensures TriedFrom(h, s, all, t'.triedTab[slot], slot, k) {
      assert TriedFrom(h, s, all, t.triedTab[slot], slot, k);
    }
  }

  lemma MirrorKept(h: Hasher, s: Tables, t: Tables)
    requires Storable(h, s) && Mirrors(s, t)
    ensures forall j :: j in t.info ==> t.info[j].inTried || t.info[j].refCount != 0
  {
    InvListable(h, s);
    hide Inv, Renames, AddrsRenamed, OldIds, NewList;
    forall j | j in t.info ensures t.info[j].inTried || t.info[j].refCount != 0 {
      assert t.info[j] == Restored(s, OldIds(s), j, s.info[OldIds(s)[j]].refCount);
      KnownListable(s, OldIds(s)[j]);
    }
  }

  lemma KnownListable(s: Tables, id: int)
    requires Listable(s) && id in s.info
    ensures s.info[id].refCount == 0 <==> s.info[id].inTried
  {
  }

  lemma UnserializeIs(h: Hasher, m: Image)
    requires Framed(m) && UsesPlaces(m) && m.keySize == 32
    requires 0 <= m.nNew == |m.news| <= NEW_BUCKETS * BUCKET_SIZE
    requires 0 <= m.nTried == |m.trieds| <= TRIED_BUCKETS * BUCKET_SIZE
    ensures |m.places| == NEW_BUCKETS
    ensures var t1 := LoadNews(h, EMPTY.(nNew := m.nNew, nTried := m.nTried), m, |m.news|).(idCount := m.nNew);
            var t3 := LoadRows(h, LoadTrieds(h, t1, m, |m.trieds|), m.places, NEW_BUCKETS);
            Unserialize(h, m) == Some(Prune(t3, Max0(t3.idCount)))
  {
    hide LoadNews, LoadTrieds, LoadRows, Prune;
  }

  // ---------------------------------------------------------------------------
  // The restored manager is consistent
  // ---------------------------------------------------------------------------

  /** What Mirrors says about one entry. */
  lemma MirrorEntry(s: Tables, t: Tables, j: int)
    requires Mirrors(s, t) && j in t.info
    ensures 0 <= j < |OldIds(s)| && OldIds(s)[j] in s.info
    ensures t.info[j] == Restored(s, OldIds(s), j, s.info[OldIds(s)[j]].refCount)
  {
    hide OldIds, Renames, AddrsRenamed;
  }

  lemma SameIndex(all: seq<int>, i: int, j: int, id: int)
    requires Distinct(all) && Renamed(all, i, id) && Renamed(all, j, id)
    ensures i == j
  {
  }

  lemma MirrorTimes(s: Tables, t: Tables)
    requires Mirrors(s, t)
    ensures TimesOk(s) ==> TimesOk(t)
  {
    hide Mirrors, OldIds;
    if TimesOk(s) {
      forall j | j in t.info
        ensures t.info[j].lastTry >= 0 && t.info[j].lastSuccess >= 0
        ensures t.info[j].inTried ==> t.info[j].lastSuccess != 0
      {
        MirrorEntry(s, t, j);
        var id := OldIds(s)[j];
        assert s.info[id].lastSuccess >= 0;
      }
    }
  }

  lemma MirrorAddrs(s: Tables, t: Tables)
    requires Mirrors(s, t) && AddrsOk(s)
    ensures AddrsOk(t)
  {
    hide OldIds, Renames;
    var all := OldIds(s);
    forall j | j in t.info
      ensures 0 <= j < t.idCount && t.info[j].addr.net in t.addrs && t.addrs[t.info[j].addr.net] == j
    {
      MirrorEntry(s, t, j);
      AddrHolder(s, all[j]);
      SameIndex(all, j, t.addrs[t.info[j].addr.net], all[j]);
    }
    forall a | a in t.addrs ensures HasAddr(t, t.addrs[a], a) {
      assert Renamed(all, t.addrs[a], s.addrs[a]);
      assert HasAddr(s, s.addrs[a], a);
      MirrorEntry(s, t, t.addrs[a]);
    }
  }

  lemma MirrorRandom(s: Tables, t: Tables)
    requires Mirrors(s, t)
    ensures RandomOk(t)
  {
    hide OldIds, Renames, AddrsRenamed;
    forall j | j in t.info ensures t.info[j].randomPos == j && 0 <= j < |t.random| {
      MirrorEntry(s, t, j);
    }
    forall p | 0 <= p < |t.random| ensures HasRandomPos(t, t.random[p], p) {
      assert p in t.info;
    }
  }

  lemma MirrorNew(h: Hasher, s: Tables, t: Tables)
    requires Mirrors(s, t) && NewOk(h, s)
    ensures NewOk(h, t)
  {
    hide OldIds, AddrsRenamed;
    forall slot | slot in t.newTab ensures NewAt(h, t, t.newTab[slot], slot) {
      assert Renamed(OldIds(s), t.newTab[slot], s.newTab[slot]);
      assert NewAt(h, s, s.newTab[slot], slot);
      MirrorEntry(s, t, t.newTab[slot]);
    }
  }

  lemma MirrorTried(h: Hasher, s: Tables, t: Tables)
    requires Mirrors(s, t) && TriedOk(h, s)
    ensures TriedOk(h, t)
  {
    hide OldIds, AddrsRenamed, TriedSlot;
    var all := OldIds(s);
    forall slot | slot in t.triedTab ensures TriedAt(h, t, t.triedTab[slot], slot) {
      assert Renamed(all, t.triedTab[slot], s.triedTab[slot]);
      assert TriedAt(h, s, s.triedTab[slot], slot);
      MirrorEntry(s, t, t.triedTab[slot]);
    }
    forall j | j in t.info && t.info[j].inTried
      ensures TriedSlot(h, t.info[j].addr) in t.triedTab && t.triedTab[TriedSlot(h, t.info[j].addr)] == j
    {
      MirrorEntry(s, t, j);
      TriedHolder(h, s, all[j]);
      SameIndex(all, j, t.triedTab[TriedSlot(h, t.info[j].addr)], all[j]);
    }
  }

  lemma MirrorSlots(s: Tables, t: Tables, j: int)
    requires Mirrors(s, t) && j in t.info && 0 <= j < |OldIds(s)|
    ensures SlotsOf(t, j) == SlotsOf(s, OldIds(s)[j])
  {
    hide OldIds, AddrsRenamed;
    var all := OldIds(s);
    forall slot ensures slot in SlotsOf(t, j) <==> slot in SlotsOf(s, all[j]) {
      if slot in t.newTab {
        assert Renamed(all, t.newTab[slot], s.newTab[slot]);
        assert s.newTab[slot] == all[j] ==> Renamed(all, j, s.newTab[slot]);
      }
    }
  }

  lemma MirrorRefs(h: Hasher, s: Tables, t: Tables)
    requires Mirrors(s, t) && Storable(h, s)
    ensures RefsOk(t, {})
  {
    hide AddrsOk, RandomOk, NewOk, TriedOk, CountsOk, OldIds, NewList, Mirrors;
    forall j | j in t.info
      ensures t.info[j].refCount == |SlotsOf(t, j)| <= MAX_REFS && (t.info[j].inTried <==> t.info[j].refCount == 0)
    {
      MirrorEntry(s, t, j);
      MirrorSlots(s, t, j);
      EntryRefs(s, OldIds(s)[j]);
    }
  }

  lemma EntryRefs(s: Tables, id: int)
    requires RefsOk(s, {}) && id in s.info
    ensures s.info[id].refCount == |SlotsOf(s, id)| <= MAX_REFS && (s.info[id].inTried <==> s.info[id].refCount == 0)
  {
  }

  function Range(a: int, b: int): (r: set<int>)
    requires a <= b
    ensures |r| == b - a && forall i :: i in r <==> a <= i < b
    decreases b - a
  {
    if a == b then {} else Range(a, b - 1) + {b - 1}
  }

  lemma MirrorCounts(h: Hasher, s: Tables, t: Tables)
    requires Mirrors(s, t) && Storable(h, s)
    ensures CountsOk(t, {})
  {
    StorableSizes(h, s);
    var all := OldIds(s);
    forall j ensures j in t.info <==> 0 <= j < |all| {
    }
    forall j | j in t.info ensures t.info[j].inTried <==> j >= s.nNew {
      MirrorEntry(s, t, j);
    }
    hide Inv, Mirrors, OldIds, NewList;
    assert forall j :: j in NewIds(t) <==> j in Range(0, s.nNew);
    assert NewIds(t) == Range(0, s.nNew);
    assert forall j :: j in TriedIds(t) <==> j in Range(s.nNew, s.nNew + s.nTried);
    assert TriedIds(t) == Range(s.nNew, s.nNew + s.nTried);
    MirrorTotals(s, t);
  }

  lemma MirrorTotals(s: Tables, t: Tables)
    requires Mirrors(s, t)
    ensures t.nNew == s.nNew && t.nTried == s.nTried
  {
  }

  /** All that is stored of an entry is as before; what is kept in memory only starts afresh. */
  ghost predicate KeptEntry(i: Info, j: Info) {
    && j.addr == i.addr && j.time == i.time && j.services == i.services && j.source == i.source
    && j.lastSuccess == i.lastSuccess && j.attempts == i.attempts
    && j.inTried == i.inTried && j.refCount == i.refCount
    && j.lastTry == 0 && j.lastCount == 0
  }

  /** The same places are taken in both tables, by entries of the same former id. */
  ghost predicate SamePlaces(all: seq<int>, was: map<Slot, int>, now: map<Slot, int>) {
    && (forall slot :: slot in now <==> slot in was)
    && (forall slot :: slot in now ==> 0 <= now[slot] < |all| && all[now[slot]] == was[slot])
  }

  /** `t` is `s` with the entry `all[j]` now called j. */
  ghost predicate SameManager(s: Tables, t: Tables, all: seq<int>) {
    && Distinct(all) && (forall id :: id in all <==> id in s.info)
    && (forall j :: j in t.info <==> 0 <= j < |all|)
    && (forall j :: 0 <= j < |all| ==> all[j] in s.info && j in t.info && KeptEntry(s.info[all[j]], t.info[j]))
    && SamePlaces(all, s.newTab, t.newTab) && SamePlaces(all, s.triedTab, t.triedTab)
    && (forall a :: a in t.addrs <==> a in s.addrs)
    && (forall a :: a in t.addrs ==> 0 <= t.addrs[a] < |all| && all[t.addrs[a]] == s.addrs[a])
    && t.nNew == s.nNew && t.nTried == s.nTried && t.idCount == |all| && t.lastGood == 1
  }

  lemma MirrorSame(h: Hasher, s: Tables, t: Tables)
    requires Inv(h, s) && Mirrors(s, t)
    ensures SameManager(s, t, OldIds(s))
  {
    hide *;
    var all := OldIds(s);
    OldIdsExact(h, s);
    MirrorParts(s, t);
    SameFromRenames(all, s.newTab, t.newTab);
    SameFromRenames(all, s.triedTab, t.triedTab);
    forall j | 0 <= j < |all| ensures all[j] in s.info && j in t.info && KeptEntry(s.info[all[j]], t.info[j]) {
      MirrorEntry(s, t, j);
      RestoredKept(s, all, j);
    }
    SameManagerIs(s, t, all);
  }

  lemma MirrorParts(s: Tables, t: Tables)
    requires Mirrors(s, t)
    ensures var all := OldIds(s);
            && Renames(all, s.newTab, t.newTab) && Renames(all, s.triedTab, t.triedTab)
            && AddrsRenamed(all, s.addrs, t.addrs) && (forall j :: j in t.info <==> 0 <= j < |all|)
            && t.nNew == s.nNew && t.nTried == s.nTried && t.idCount == |all| && t.lastGood == 1
  {
    hide Renames, AddrsRenamed, OldIds;
  }

  lemma SameFromRenames(all: seq<int>, was: map<Slot, int>, now: map<Slot, int>)
    requires Renames(all, was, now)
    ensures SamePlaces(all, was, now)
  {
    forall slot | slot in now ensures 0 <= now[slot] < |all| && all[now[slot]] == was[slot] {
      assert Renamed(all, now[slot], was[slot]);
    }
  }

  lemma RestoredKept(s: Tables, all: seq<int>, j: nat)
    requires j < |all| && all[j] in s.info
    ensures KeptEntry(s.info[all[j]], Restored(s, all, j, s.info[all[j]].refCount))
  {
  }

  lemma SameManagerIs(s: Tables, t: Tables, all: seq<int>)
    requires Distinct(all) && (forall id :: id in all <==> id in s.info)
    requires forall j :: j in t.info <==> 0 <= j < |all|
    requires forall j :: 0 <= j < |all| ==> all[j] in s.info && j in t.info && KeptEntry(s.info[all[j]], t.info[j])
    requires SamePlaces(all, s.newTab, t.newTab) && SamePlaces(all, s.triedTab, t.triedTab)
    requires AddrsRenamed(all, s.addrs, t.addrs)
    requires t.nNew == s.nNew && t.nTried == s.nTried && t.idCount == |all| && t.lastGood == 1
    ensures SameManager(s, t, all)
  {
    hide Distinct, KeptEntry, SamePlaces;
    forall a | a in t.addrs ensures 0 <= t.addrs[a] < |all| && all[t.addrs[a]] == s.addrs[a] {
      assert Renamed(all, t.addrs[a], s.addrs[a]);
    }
  }

  /**
   * Saving a consistent manager and loading the image into a fresh one gives the same
   * manager up to the names of the ids: nothing that is stored is lost or changed, and the
   * result is consistent.
   */
  lemma RoundTrip(h: Hasher, s: Tables)
    requires Inv(h, s)
    ensures Framed(Serialize(s)) && Unserialize(h, Serialize(s)).Some?
    ensures var t := Unserialize(h, Serialize(s)).value;
            SameManager(s, t, OldIds(s)) && Inv(h, t) && (TimesOk(s) ==> TimesOk(t))
  {
    InvStorable(h, s);
    Stages(h, s);
    hide Serialize, Unserialize, Framed, Mirrors, SameManager, Storable, AddrsOk, RandomOk, NewOk, TriedOk, RefsOk,
         CountsOk, TimesOk;
    var t := Unserialize(h, Serialize(s)).value;
    MirrorTimes(s, t);
    MirrorAddrs(s, t);
    MirrorRandom(s, t);
    MirrorNew(h, s, t);
    MirrorTried(h, s, t);
    MirrorRefs(h, s, t);
    MirrorCounts(h, s, t);
    MirrorSame(h, s, t);
  }

  /** A stored record holds these fields of the entry. */
  ghost predicate Records(v: Saved, i: Info) {
    && v.addr == i.addr && v.time == i.time && v.services == i.services && v.source == i.source
    && v.lastSuccess == i.lastSuccess && v.attempts == i.attempts
  }

  /**
   * What is written: version 1, a key of 32 bytes, both counts, 1024 with bit 30 toggled, the
   * new entries and then the tried ones in the order of their ids, and for each bucket the
   * positions in that list of the entries it holds.
   */
  lemma ImageExact(h: Hasher, s: Tables)
    requires Inv(h, s)
    ensures var m, all := Serialize(s), OldIds(s);
            && m.version == 1 && m.keySize == 32 && m.nNew == s.nNew && m.nTried == s.nTried
            && m.buckets == 0x4000_0400 && |m.places| == 1024
            && |m.news| == s.nNew && |m.trieds| == s.nTried && |all| == s.nNew + s.nTried
            && (forall k :: 0 <= k < |m.news| ==> all[k] in s.info && Records(m.news[k], s.info[all[k]]))
            && (forall k :: 0 <= k < |m.trieds| ==>
                  all[s.nNew + k] in s.info && Records(m.trieds[k], s.info[all[s.nNew + k]]))
            && (forall b :: 0 <= b < 1024 ==> ListsBucket(s, all, b, m.places[b]))
  {
    hide *;
    InvStorable(h, s);
    OldIdsExact(h, s);
    ImageParts(s);
    ToggledBuckets();
    forall b | 0 <= b < 1024 ensures ListsBucket(s, OldIds(s), b, Serialize(s).places[b]) {
      RowListsBucket(h, s, b);
    }
  }

  lemma ImageParts(s: Tables)
    ensures var m, n, r := Serialize(s), NewList(s), TriedList(s);
            && m.version == 1 && m.keySize == 32 && m.nNew == s.nNew && m.nTried == s.nTried
            && m.buckets == Toggle(NEW_BUCKETS) && |m.places| == 1024
            && |m.news| == |n| && |m.trieds| == |r| && OldIds(s) == n + r
            && (forall k :: 0 <= k < |n| ==> n[k] in s.info && Records(m.news[k], s.info[n[k]]))
            && (forall k :: 0 <= k < |r| ==> r[k] in s.info && Records(m.trieds[k], s.info[r[k]]))
            && (forall b :: 0 <= b < 1024 ==> m.places[b] == Row(s, b, BUCKET_SIZE))
  {
    hide Listed, Row, Toggle;
    ListedKnown(s.info, Max0(s.idCount), false);
    ListedKnown(s.info, Max0(s.idCount), true);
  }

  lemma RowListsBucket(h: Hasher, s: Tables, b: nat)
    requires Storable(h, s)
    ensures ListsBucket(s, OldIds(s), b, Row(s, b, BUCKET_SIZE))
  {
    hide Storable, OldIds, Row;
    var row := Row(s, b, BUCKET_SIZE);
    forall k | 0 <= k < |row| ensures InBucket(s, OldIds(s), b, row[k]) {
      var p := RowHolds(h, s, b, BUCKET_SIZE, k);
    }
  }

  /** Every entry of `row` names the holder of a place of bucket b. */
  ghost predicate ListsBucket(s: Tables, all: seq<int>, b: nat, row: seq<int>) {
    forall k :: 0 <= k < |row| ==> InBucket(s, all, b, row[k])
  }

  ghost predicate InBucket(s: Tables, all: seq<int>, b: nat, index: int) {
    exists p: nat :: BucketHolds(s, all, b, p, index)
  }

  lemma ToggledBuckets()
    ensures Toggle(NEW_BUCKETS) == 0x4000_0400
  {
  }

  /** Place p of bucket b holds the entry at position `index` of the list. */
  ghost predicate BucketHolds(s: Tables, all: seq<int>, b: nat, p: nat, index: int) {
    p < 64 && Slot(b, p) in s.newTab && 0 <= index < |all| && all[index] == s.newTab[Slot(b, p)]
  }

  lemma {:induction false} RowHolds(h: Hasher, s: Tables, b: nat, n: nat, k: nat) returns (p: nat)
    requires Storable(h, s) && n <= 64 && k < |Row(s, b, n)|
    ensures p < n && BucketHolds(s, OldIds(s), b, p, Row(s, b, n)[k])
  {
    hide AddrsOk, RandomOk, NewOk, TriedOk, RefsOk, CountsOk, IdList, Rank, OldIds, NewList;
    if k < |Row(s, b, n - 1)| {
      p := RowHolds(h, s, b, n - 1, k);
    } else {
      p := n - 1;
      RankIndex(h, s, Slot(b, p));
    }
  }
}
