/** bit_packed_atomic_flags: eight flags to a byte (src/cuckoocache.h). */
module BitFlags {
  /** 1 << (s & 7) */
  function Mask(i: nat): bv8
    requires i < 8
  {
    if i == 0 then 1 else if i == 1 then 2 else if i == 2 then 4 else if i == 3 then 8
    else if i == 4 then 16 else if i == 5 then 32 else if i == 6 then 64 else 128
  }

  predicate BitIsSet(mem: seq<bv8>, s: nat)
    requires s / 8 < |mem|
  {
    Mask(s % 8) & mem[s / 8] != 0
  }

  function BitSet(mem: seq<bv8>, s: nat): seq<bv8>
    requires s / 8 < |mem|
  {
    mem[s / 8 := mem[s / 8] | Mask(s % 8)]
  }

  function BitUnset(mem: seq<bv8>, s: nat): seq<bv8>
    requires s / 8 < |mem|
  {
    mem[s / 8 := mem[s / 8] & !Mask(s % 8)]
  }

  /** The flags packed into the bytes, as a sequence of `n` booleans. */
  function Unpack(mem: seq<bv8>, n: nat): (flags: seq<bool>)
    requires n <= 8 * |mem|
    ensures |flags| == n && forall i :: 0 <= i < n ==> flags[i] == BitIsSet(mem, i)
  {
    seq(n, i requires 0 <= i < n => BitIsSet(mem, i))
  }

  lemma SameByte(x: bv8, i: nat, j: nat)
    requires i < 8 && j < 8
    ensures i == j ==> Mask(j) & (x | Mask(i)) != 0 && Mask(j) & (x & !Mask(i)) == 0
    ensures i != j ==> Mask(j) & (x | Mask(i)) == Mask(j) & x && Mask(j) & (x & !Mask(i)) == Mask(j) & x
  {
  }

  /** Setting or clearing one flag changes that flag only. */
  lemma BitIndependent(mem: seq<bv8>, n: nat, s: nat)
    requires n <= 8 * |mem| && s < n
    ensures Unpack(BitSet(mem, s), n) == Unpack(mem, n)[s := true]
    ensures Unpack(BitUnset(mem, s), n) == Unpack(mem, n)[s := false]
  {
    forall i | 0 <= i < n
      ensures BitIsSet(BitSet(mem, s), i) == (i == s || BitIsSet(mem, i))
      ensures BitIsSet(BitUnset(mem, s), i) == (i != s && BitIsSet(mem, i))
    {
      if i / 8 == s / 8 {
        SameByte(mem[s / 8], s % 8, i % 8);
      }
    }
  }
}

/** The cuckoo cache as the class it is: table, flags, epochs and the heuristic counter. */
module CuckooCache {
  import opened BitFlags
  import opened CuckooTable

  function Max(a: nat, b: nat): nat { if a < b then b else a }

  /** The most live current-epoch elements plus remaining insertions there may ever be. */
  function Budget(epochSize: nat): nat {
    epochSize + Max(1, epochSize / 16)
  }

  class Cache<Element(==, !new)> {
    const hash: (nat, Element) -> nat
    const size: nat
    const depthLimit: nat
    const epochSize: nat
    var table: seq<Element>
    var mem: seq<bv8>             // collection_flags
    var epochFlags: seq<bool>
    var epochCounter: nat         // epoch_heuristic_counter

    ghost predicate Shaped()
      reads this
    {
      size > 0 && |table| == size && size <= 8 * |mem| && |epochFlags| == size && epochSize >= 1
    }

    /** The slots marked for collection. */
    ghost function Dead(): seq<bool>
      reads this
      requires Shaped()
    {
      Unpack(mem, size)
    }

    /** The elements the cache still vouches for. */
    ghost function Contents(): set<Element>
      reads this
      requires Shaped()
    {
      Live(table, Dead())
    }

    ghost function InEpoch(): nat
      reads this
      requires Shaped()
    {
      Current(Dead(), epochFlags, size)
    }

    ghost predicate Valid()
      reads this
    {
      Shaped() && Homed(hash, table, Dead()) && InEpoch() + epochCounter <= Budget(epochSize)
    }

    /** setup for a table of 2^depthLimit slots; the 45% is computed in 32 bits. */
    constructor (hash: (nat, Element) -> nat, size: nat, depthLimit: nat, zero: Element)
      requires size > 0
      ensures Valid() && Contents() == {}
    {
      this.hash, this.size, this.depthLimit := hash, size, depthLimit;
      epochSize := Max(1, (45 * size) % 0x1_0000_0000 / 100);
      table := seq(size, _ => zero);
      mem := seq((size + 7) / 8, _ => 0xFF);
      epochFlags := seq(size, _ => false);
      epochCounter := Max(1, (45 * size) % 0x1_0000_0000 / 100);
      new;
      forall i | 0 <= i < size ensures Dead()[i] {
        assert mem[i / 8] == 0xFF;
        AllSet(i % 8);
      }
      CurrentNone(Dead(), epochFlags, size);
    }

    static lemma AllSet(i: nat)
      requires i < 8
      ensures Mask(i) & 0xFF != 0
    {
    }

    method AllowErase(n: nat)
      requires Shaped() && n < size
      modifies this`mem
      ensures Shaped() && Dead() == old(Dead())[n := true]
    {
      BitIndependent(mem, size, n);
      mem := BitSet(mem, n);
    }

    method PleaseKeep(n: nat)
      requires Shaped() && n < size
      modifies this`mem
      ensures Shaped() && Dead() == old(Dead())[n := false]
    {
      BitIndependent(mem, size, n);
      mem := BitUnset(mem, n);
    }

    /** Age the epochs if the current one is full; one insertion's worth of budget is free afterwards. */
    method EpochCheck()
      requires Valid()
      modifies this`mem, this`epochFlags, this`epochCounter
      ensures Shaped() && Homed(hash, table, Dead()) && Contents() <= old(Contents())
      ensures InEpoch() + epochCounter + 1 <= Budget(epochSize)
      ensures old(epochCounter) != 0 || old(InEpoch()) < epochSize ==> Contents() == old(Contents())
      ensures forall i :: 0 <= i < size && !old(Dead())[i] && old(epochFlags)[i] ==> !Dead()[i]
      ensures forall i :: 0 <= i < size && old(Dead())[i] ==> Dead()[i]
    {
      if epochCounter != 0 {
        epochCounter := epochCounter - 1;
        return;
      }
      var count := CountCurrent();
      if count >= epochSize {
        Age();
        epochCounter := epochSize;
        CurrentNone(Dead(), epochFlags, size);
      } else {
        epochCounter := Max(1, Max(epochSize / 16, epochSize - count));
      }
    }

    method CountCurrent() returns (count: nat)
      requires Shaped()
      ensures count == InEpoch()
    {
      count := 0;
      var i := 0;
      while i < size
        invariant 0 <= i <= size && count == Current(Dead(), epochFlags, i)
      {
        if epochFlags[i] && !BitIsSet(mem, i) {
          count := count + 1;
        }
        i := i + 1;
      }
    }

    /** The current epoch becomes the old one, the old one may be collected. */
    method Age()
      requires Shaped() && Homed(hash, table, Dead())
      modifies this`mem, this`epochFlags
      ensures Shaped() && Homed(hash, table, Dead()) && Contents() <= old(Contents())
      ensures forall i :: 0 <= i < size ==> !epochFlags[i] && (Dead()[i] <==> old(Dead())[i] || !old(epochFlags)[i])
    {
      ghost var dead := Dead();
      var i := 0;
      while i < size
        invariant 0 <= i <= size && Shaped()
        invariant forall j :: 0 <= j < i ==> !epochFlags[j] && (Dead()[j] <==> dead[j] || !old(epochFlags)[j])
        invariant forall j :: i <= j < size ==> epochFlags[j] == old(epochFlags)[j] && Dead()[j] == dead[j]
      {
        if epochFlags[i] {
          epochFlags := epochFlags[i := false];
        } else {
          AllowErase(i);
        }
        i := i + 1;
      }
      MarkKeeps(hash, table, dead, Dead());
    }

    /** compute_hashes: the eight locations of an element. */
    function Locs(e: Element): (locs: seq<nat>)
      requires size > 0
      ensures |locs| == WAYS && forall k :: 0 <= k < WAYS ==> locs[k] == Loc(hash, size, e, k)
    {
      seq(WAYS, k requires 0 <= k < WAYS => Loc(hash, size, e, k))
    }

    /** The first step at which a lookup of `e` finds it, or WAYS. */
    method Search(e: Element) returns (k: nat)
      requires Shaped()
      ensures k <= WAYS
      ensures forall j: nat :: j < k ==> table[Loc(hash, size, e, j)] != e
      ensures k < WAYS ==> FirstAt(hash, table, e, Loc(hash, size, e, k), k)
      ensures k < WAYS <==> exists l :: Found(hash, table, e, l)
    {
      var locs := Locs(e);
      k := 0;
      while k < WAYS && table[locs[k]] != e
        invariant 0 <= k <= WAYS
        invariant forall j: nat :: j < k ==> table[Loc(hash, size, e, j)] != e
      {
        k := k + 1;
      }
      if k < WAYS {
        assert FirstAt(hash, table, e, Loc(hash, size, e, k), k);
        assert Found(hash, table, e, Loc(hash, size, e, k));
      }
    }

    /** The first of the element's locations that may be collected, or WAYS. */
    method FindFree(e: Element) returns (k: nat)
      requires Shaped()
      ensures k <= WAYS
      ensures forall j: nat :: j < k ==> !Dead()[Loc(hash, size, e, j)]
      ensures k < WAYS ==> Dead()[Loc(hash, size, e, k)]
    {
      var locs := Locs(e);
      k := 0;
      while k < WAYS && !BitIsSet(mem, locs[k])
        invariant 0 <= k <= WAYS
        invariant forall j: nat :: j < k ==> !Dead()[Loc(hash, size, e, j)]
      {
        k := k + 1;
      }
    }

    /**
     * Which location to displace: the one after the location just filled, or the second if
     * that is none of the element's own.  With eight different locations it is never the
     * location just filled, so the element put there last is not moved again.
     */
    method NextStep(e: Element, lastLoc: int) returns (k: nat)
      requires Shaped()
      ensures k < WAYS
      ensures (forall j: nat :: j < WAYS ==> Loc(hash, size, e, j) != lastLoc) ==> k == 1
      ensures forall j: nat ::
                (j < WAYS && Loc(hash, size, e, j) == lastLoc
                 && forall i: nat :: i < j ==> Loc(hash, size, e, i) != lastLoc)
                ==> k == (j + 1) % WAYS
      ensures (forall i: nat, j: nat :: i < j < WAYS ==> Loc(hash, size, e, i) != Loc(hash, size, e, j)) ==>
                Loc(hash, size, e, k) != lastLoc
    {
      var locs := Locs(e);
      var i := 0;
      while i < WAYS && locs[i] != lastLoc
        invariant 0 <= i <= WAYS
        invariant forall j: nat :: j < i ==> Loc(hash, size, e, j) != lastLoc
      {
        i := i + 1;
      }
      k := (1 + i) % WAYS;
      assert i < WAYS ==> Loc(hash, size, e, i) == lastLoc && k != i;
    }

    /** Store the element in a free slot. */
    method Occupy(l: nat, e: Element, epoch: bool)
      requires Shaped() && l < size
      modifies this`table, this`mem, this`epochFlags
      ensures Shaped() && table == old(table)[l := e]
      ensures Dead() == old(Dead())[l := false] && epochFlags == old(epochFlags)[l := epoch]
      ensures InEpoch() <= old(InEpoch()) + Weight(false, epoch)
    {
      CurrentUpdate(Dead(), epochFlags, size, l, false, epoch);
      table := table[l := e];
      PleaseKeep(l);
      epochFlags := epochFlags[l := epoch];
    }

    /**
     * Insert an element.  `aged` is what was left after the epoch check, `dropped` what the
     * insertion lost: at most one element, for any hash functions and any displacement path.
     */
    method Insert(e: Element) returns (ghost aged: set<Element>, ghost dropped: set<Element>)
      requires Valid()
      modifies this
      ensures Valid()
      ensures aged <= old(Contents())
      ensures old(epochCounter) != 0 || old(InEpoch()) < epochSize ==> aged == old(Contents())
      ensures |dropped| <= 1 && Contents() == aged + {e} - dropped
      ensures (exists l :: Found(hash, old(table), e, l)) ==> dropped == {}
      ensures depthLimit > 0 && (exists k: nat :: k < WAYS && old(Dead())[Loc(hash, size, e, k)]) ==> dropped == {}
    {
      hide Homed, Live, Current, Unpack, Loc, BitIsSet;
      EpochCheck();
      aged, dropped := Contents(), {};
      var k := Search(e);
      if k < WAYS {
        var l := Loc(hash, size, e, k);
        assert Found(hash, table, e, l);
        Refresh(l, e);
        return;
      }
      NotFoundNotLive(hash, table, Dead(), e);
      dropped := Displace(e, true);
    }

    /** An element that is found already is kept, as one of the current epoch. */
    method Refresh(l: nat, e: Element)
      requires Shaped() && Homed(hash, table, Dead()) && l < size && Found(hash, table, e, l)
      requires InEpoch() + 1 + epochCounter <= Budget(epochSize)
      modifies this`mem, this`epochFlags
      ensures Valid() && Contents() == old(Contents()) + {e}
    {
      KeepKeeps(hash, table, Dead(), e, l);
      CurrentUpdate(Dead(), epochFlags, size, l, false, true);
      hide Homed, Live, Current, Unpack, BitIsSet, Found;
      PleaseKeep(l);
      epochFlags := epochFlags[l := true];
    }

    /** The displacement loop: place the element, evicting others along the way. */
    method Displace(e: Element, epoch: bool) returns (ghost dropped: set<Element>)
      requires Shaped() && Homed(hash, table, Dead()) && e !in Contents()
      requires InEpoch() + Weight(false, epoch) + epochCounter <= Budget(epochSize)
      modifies this`table, this`mem, this`epochFlags
      ensures Valid() && |dropped| <= 1 && Contents() == old(Contents()) + {e} - dropped
      ensures depthLimit > 0 && (exists k: nat :: k < WAYS && old(Dead())[Loc(hash, size, e, k)]) ==> dropped == {}
    {
      hide Homed, Live, Current, Unpack, Loc, BitIsSet;
      var carried, lastEpoch, lastLoc := e, epoch, -1;
      ghost var all := Contents() + {e};
      var depth := 0;
      while depth < depthLimit
        invariant 0 <= depth && Shaped() && Homed(hash, table, Dead())
        invariant carried !in Contents() && Contents() + {carried} == all
        invariant InEpoch() + Weight(false, lastEpoch) + epochCounter <= Budget(epochSize)
        invariant Dead() == old(Dead())
        invariant depth == 0 ==> carried == e
        invariant depth > 0 ==> forall k: nat :: k < WAYS ==> !old(Dead())[Loc(hash, size, e, k)]
      {
        var free := FindFree(carried);
        if free < WAYS {
          Settle(carried, free, lastEpoch);
          dropped := {};
          return;
        }
        carried, lastEpoch, lastLoc := Bump(carried, lastEpoch, lastLoc);
        depth := depth + 1;
      }
      dropped := {carried};
    }

    method Settle(e: Element, free: nat, epoch: bool)
      requires Shaped() && Homed(hash, table, Dead()) && e !in Contents() && free < WAYS
      requires Dead()[Loc(hash, size, e, free)] && forall j: nat :: j < free ==> !Dead()[Loc(hash, size, e, j)]
      requires InEpoch() + Weight(false, epoch) + epochCounter <= Budget(epochSize)
      modifies this`table, this`mem, this`epochFlags
      ensures Valid() && Contents() == old(Contents()) + {e}
    {
      hide Homed, Live, Current, Unpack, Loc, BitIsSet;
      PlaceKeeps(hash, table, Dead(), e, free);
      Occupy(Loc(hash, size, e, free), e, epoch);
    }

    /** One displacement: the element takes a slot and the one there is carried on. */
    method Bump(e: Element, epoch: bool, lastLoc: int) returns (evicted: Element, evictedEpoch: bool, l: int)
      requires Shaped() && Homed(hash, table, Dead()) && e !in Contents()
      requires forall j: nat :: j < WAYS ==> !Dead()[Loc(hash, size, e, j)]
      modifies this`table, this`epochFlags
      ensures Shaped() && Homed(hash, table, Dead()) && Dead() == old(Dead())
      ensures evicted !in Contents() && Contents() + {evicted} == old(Contents()) + {e}
      ensures InEpoch() + Weight(false, evictedEpoch) == old(InEpoch()) + Weight(false, epoch)
    {
      hide Homed, Live, Current, Unpack, Loc, BitIsSet;
      var k := NextStep(e, lastLoc);
      l := Loc(hash, size, e, k);
      SwapKeeps(hash, table, Dead(), e, k);
      CurrentUpdate(Dead(), epochFlags, size, l, false, epoch);
      assert Dead()[l := false] == Dead();
      evicted, evictedEpoch := table[l], epochFlags[l];
      table := table[l := e];
      epochFlags := epochFlags[l := epoch];
    }

    /**
     * Look an element up, optionally marking it for collection.  Every live element is found,
     * an erased element is still found, and erasing removes exactly that element.
     */
    method Contains(e: Element, erase: bool) returns (found: bool)
      requires Valid()
      modifies this`mem
      ensures Valid() && (found <==> exists l :: Found(hash, table, e, l))
      ensures e in old(Contents()) ==> found
      ensures Contents() == if erase then old(Contents()) - {e} else old(Contents())
    {
      NotFoundNotLive(hash, table, Dead(), e);
      var k := Search(e);
      found := k < WAYS;
      if found {
        var l := Loc(hash, size, e, k);
        assert Found(hash, table, e, l);
        if erase {
          EraseKeeps(hash, table, Dead(), e, l);
          CurrentUpdate(Dead(), epochFlags, size, l, true, epochFlags[l]);
          assert epochFlags[l := epochFlags[l]] == epochFlags;
          AllowErase(l);
        }
      }
    }
  }

  /** A live element is found by lookup. */
  lemma NotFoundNotLive<E(!new)>(hash: (nat, E) -> nat, table: seq<E>, dead: seq<bool>, e: E)
    requires Homed(hash, table, dead)
    ensures e in Live(table, dead) ==> exists l :: Found(hash, table, e, l)
  {
    if e in Live(table, dead) {
      var i := LiveAt(table, dead, e);
      assert Found(hash, table, e, i);
    }
  }
}
