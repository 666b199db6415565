/**
 * The table of the cuckoo cache (src/cuckoocache.h) as values: elements, garbage-collection
 * marks and epoch marks.  All results hold for any eight hash functions.
 */
module CuckooTable {
  const WAYS := 8

  /** The `k`-th location of an element in a table of the given size. */
  function Loc<E>(hash: (nat, E) -> nat, size: nat, e: E, k: nat): (l: nat)
    requires size > 0
    ensures l < size
  {
    hash(k, e) % size
  }

  /** Slot `l` is one of the element's own locations. */
  ghost predicate Own<E>(hash: (nat, E) -> nat, size: nat, e: E, l: nat)
    requires size > 0
  {
    exists k: nat :: k < WAYS && Loc(hash, size, e, k) == l
  }

  /** Looking the element up along its locations finds it first in slot `l`, at step `k`. */
  ghost predicate FirstAt<E>(hash: (nat, E) -> nat, table: seq<E>, e: E, l: nat, k: nat)
    requires |table| > 0
  {
    && k < WAYS && Loc(hash, |table|, e, k) == l && table[l] == e
    && forall j: nat :: j < k ==> table[Loc(hash, |table|, e, j)] != e
  }

  /** A lookup of the element succeeds and ends in slot `l`. */
  ghost predicate Found<E>(hash: (nat, E) -> nat, table: seq<E>, e: E, l: nat)
    requires |table| > 0
  {
    exists k: nat :: FirstAt(hash, table, e, l, k)
  }

  /** Every slot that is not marked for collection holds an element whose lookup ends there. */
  ghost predicate Homed<E(!new)>(hash: (nat, E) -> nat, table: seq<E>, dead: seq<bool>) {
    && |table| > 0 && |dead| == |table|
    && forall i: nat :: i < |table| && !dead[i] ==> Found(hash, table, table[i], i)
  }

  /** The elements that are not marked for collection. */
  function Live<E>(table: seq<E>, dead: seq<bool>): set<E>
    requires |dead| == |table|
  {
    set i | 0 <= i < |table| && !dead[i] :: table[i]
  }

  lemma LiveAt<E>(table: seq<E>, dead: seq<bool>, e: E) returns (i: nat)
    requires |dead| == |table| && e in Live(table, dead)
    ensures i < |table| && !dead[i] && table[i] == e
  {
    i :| 0 <= i < |table| && !dead[i] && table[i] == e;
  }

  lemma FoundUnique<E>(hash: (nat, E) -> nat, table: seq<E>, e: E, i: nat, j: nat)
    requires |table| > 0 && Found(hash, table, e, i) && Found(hash, table, e, j)
    ensures i == j
  {
    var a: nat :| FirstAt(hash, table, e, i, a);
    var b: nat :| FirstAt(hash, table, e, j, b);
    assert !(a < b) && !(b < a);
  }

  /** Live elements are pairwise different, each in one of its own locations. */
  lemma LiveDistinct<E(!new)>(hash: (nat, E) -> nat, table: seq<E>, dead: seq<bool>, i: nat, j: nat)
    requires Homed(hash, table, dead) && i < |table| && j < |table| && !dead[i] && !dead[j]
    ensures table[i] == table[j] ==> i == j
    ensures Own(hash, |table|, table[i], i)
  {
    assert Found(hash, table, table[i], i) && Found(hash, table, table[j], j);
    if table[i] == table[j] {
      FoundUnique(hash, table, table[i], i, j);
    }
    var k: nat :| FirstAt(hash, table, table[i], i, k);
  }

  /** Writing an element that nothing live equals does not disturb the homes of others. */
  lemma WriteKeepsOthers<E(!new)>(hash: (nat, E) -> nat, table: seq<E>, dead: seq<bool>, l: nat, e: E, i: nat)
    requires Homed(hash, table, dead) && l < |table| && i < |table| && i != l && !dead[i] && table[i] != e
    ensures Found(hash, table[l := e], table[i], i)
  {
    assert Found(hash, table, table[i], i);
    var k: nat :| FirstAt(hash, table, table[i], i, k);
    assert FirstAt(hash, table[l := e], table[i], i, k);
  }

  /** An element written to one of its locations is found there if no earlier one holds it. */
  lemma WrittenFound<E>(hash: (nat, E) -> nat, table: seq<E>, e: E, l: nat, k: nat)
    requires |table| > 0 && k < WAYS && l == Loc(hash, |table|, e, k)
    requires forall j: nat :: j < k && Loc(hash, |table|, e, j) != l ==> table[Loc(hash, |table|, e, j)] != e
    ensures Found(hash, table[l := e], e, l)
  {
    var table' := table[l := e];
    var j := FirstIndex(hash, |table|, e, l, k);
    assert FirstAt(hash, table', e, l, j);
  }

  /** The first step at which an element's locations reach slot `l`. */
  lemma {:induction false} FirstIndex<E>(hash: (nat, E) -> nat, size: nat, e: E, l: nat, k: nat) returns (j: nat)
    requires size > 0 && k < WAYS && Loc(hash, size, e, k) == l
    ensures j <= k && Loc(hash, size, e, j) == l
    ensures forall i: nat :: i < j ==> Loc(hash, size, e, i) != l
  {
    if exists i: nat :: i < k && Loc(hash, size, e, i) == l {
      var i: nat :| i < k && Loc(hash, size, e, i) == l;
      j := FirstIndex(hash, size, e, l, i);
    } else {
      j := k;
    }
  }

  /** An element that is not live takes the first of its locations that may be collected. */
  lemma PlaceKeeps<E(!new)>(hash: (nat, E) -> nat, table: seq<E>, dead: seq<bool>, e: E, k: nat)
    requires Homed(hash, table, dead) && e !in Live(table, dead) && k < WAYS
    requires var l := Loc(hash, |table|, e, k);
             dead[l] && forall j: nat :: j < k ==> !dead[Loc(hash, |table|, e, j)]
    ensures var l := Loc(hash, |table|, e, k);
            && Homed(hash, table[l := e], dead[l := false])
            && Live(table[l := e], dead[l := false]) == Live(table, dead) + {e}
  {
    var l := Loc(hash, |table|, e, k);
    var table', dead' := table[l := e], dead[l := false];
    forall j: nat | j < k ensures table[Loc(hash, |table|, e, j)] != e {
      assert !dead[Loc(hash, |table|, e, j)];
    }
    WrittenFound(hash, table, e, l, k);
    forall i: nat | i < |table| && i != l && !dead[i]
      ensures Found(hash, table', table[i], i) && table'[i] == table[i]
    {
      WriteKeepsOthers(hash, table, dead, l, e, i);
    }
    LiveWrite(table, dead, l, e);
  }

  lemma LiveWrite<E>(table: seq<E>, dead: seq<bool>, l: nat, e: E)
    requires |dead| == |table| && l < |table| && dead[l]
    ensures Live(table[l := e], dead[l := false]) == Live(table, dead) + {e}
  {
    var table', dead' := table[l := e], dead[l := false];
    forall x | x in Live(table, dead) + {e} ensures x in Live(table', dead') {
      if x in Live(table, dead) {
        var i := LiveAt(table, dead, x);
        assert table'[i] == x && !dead'[i];
      } else {
        assert table'[l] == e && !dead'[l];
      }
    }
  }

  /**
   * With none of its locations collectable, the element takes the place of the one in slot
   * `l`, which is then in no slot of the table that counts.
   */
  lemma SwapKeeps<E(!new)>(hash: (nat, E) -> nat, table: seq<E>, dead: seq<bool>, e: E, k: nat)
    requires Homed(hash, table, dead) && e !in Live(table, dead) && k < WAYS
    requires forall j: nat :: j < WAYS ==> !dead[Loc(hash, |table|, e, j)]
    ensures var l := Loc(hash, |table|, e, k);
            && Homed(hash, table[l := e], dead)
            && Live(table[l := e], dead) == Live(table, dead) + {e} - {table[l]}
            && table[l] in Live(table, dead)
  {
    var l := Loc(hash, |table|, e, k);
    var table' := table[l := e];
    forall j: nat | j < WAYS ensures table[Loc(hash, |table|, e, j)] != e {
      assert !dead[Loc(hash, |table|, e, j)];
    }
    WrittenFound(hash, table, e, l, k);
    forall i: nat | i < |table| && i != l && !dead[i]
      ensures Found(hash, table', table[i], i) && table'[i] == table[i]
    {
      WriteKeepsOthers(hash, table, dead, l, e, i);
    }
    assert Live(table', dead) == Live(table, dead) + {e} - {table[l]} by {
      forall x | x in Live(table', dead) ensures x in Live(table, dead) + {e} && x != table[l] {
        var i := LiveAt(table', dead, x);
        if i != l {
          LiveDistinct(hash, table, dead, i, l);
        }
      }
      forall x | x in Live(table, dead) + {e} && x != table[l] ensures x in Live(table', dead) {
        if x == e {
          assert table'[l] == e;
        } else {
          var i := LiveAt(table, dead, x);
          assert table'[i] == x;
        }
      }
    }
  }

  /** The slot where an element is found is kept from collection. */
  lemma KeepKeeps<E(!new)>(hash: (nat, E) -> nat, table: seq<E>, dead: seq<bool>, e: E, l: nat)
    requires Homed(hash, table, dead) && l < |table| && Found(hash, table, e, l)
    ensures Homed(hash, table, dead[l := false])
    ensures Live(table, dead[l := false]) == Live(table, dead) + {e}
  {
    var k: nat :| FirstAt(hash, table, e, l, k);
    var dead' := dead[l := false];
    forall x | x in Live(table, dead) + {e} ensures x in Live(table, dead') {
      if x in Live(table, dead) {
        var i := LiveAt(table, dead, x);
        assert !dead'[i];
      } else {
        assert table[l] == e && !dead'[l];
      }
    }
  }

  /** Marking the slot where an element is found removes exactly that element. */
  lemma EraseKeeps<E(!new)>(hash: (nat, E) -> nat, table: seq<E>, dead: seq<bool>, e: E, l: nat)
    requires Homed(hash, table, dead) && l < |table| && Found(hash, table, e, l)
    ensures Homed(hash, table, dead[l := true])
    ensures Live(table, dead[l := true]) == Live(table, dead) - {e}
  {
    var k: nat :| FirstAt(hash, table, e, l, k);
    var dead' := dead[l := true];
    forall x | x in Live(table, dead') ensures x in Live(table, dead) && x != e {
      var i := LiveAt(table, dead', x);
      if x == e {
        FoundUnique(hash, table, e, i, l);
      }
    }
    forall x | x in Live(table, dead) && x != e ensures x in Live(table, dead') {
      var i := LiveAt(table, dead, x);
      assert !dead'[i];
    }
  }

  /** Marking any slots keeps the others at home. */
  lemma MarkKeeps<E(!new)>(hash: (nat, E) -> nat, table: seq<E>, dead: seq<bool>, dead': seq<bool>)
    requires Homed(hash, table, dead) && |dead'| == |dead|
    requires forall i :: 0 <= i < |dead| && dead[i] ==> dead'[i]
    ensures Homed(hash, table, dead') && Live(table, dead') <= Live(table, dead)
  {
  }

  // ---------------------------------------------------------------------------
  // Counting the current epoch
  // ---------------------------------------------------------------------------

  /** How many of the slots below `n` hold a live element of the current epoch. */
  function Current(dead: seq<bool>, recent: seq<bool>, n: nat): (c: nat)
    requires n <= |dead| && n <= |recent|
    ensures c <= n
  {
    if n == 0 then 0 else Current(dead, recent, n - 1) + Weight(dead[n - 1], recent[n - 1])
  }

  function Weight(isDead: bool, isRecent: bool): nat {
    if isRecent && !isDead then 1 else 0
  }

  lemma {:induction false} CurrentUpdate(dead: seq<bool>, recent: seq<bool>, n: nat, l: nat, d: bool, r: bool)
    requires l < n <= |dead| == |recent|
    ensures Current(dead[l := d], recent[l := r], n) ==
              Current(dead, recent, n) - Weight(dead[l], recent[l]) + Weight(d, r)
  {
    if l == n - 1 {
      CurrentPrefix(dead, recent, dead[l := d], recent[l := r], n - 1);
    } else {
      CurrentUpdate(dead, recent, n - 1, l, d, r);
    }
  }

  lemma {:induction false} CurrentPrefix(dead: seq<bool>, recent: seq<bool>, dead': seq<bool>, recent': seq<bool>,
                                         n: nat)
    requires n <= |dead| && n <= |recent| && n <= |dead'| && n <= |recent'|
    requires forall i :: 0 <= i < n ==> dead'[i] == dead[i] && recent'[i] == recent[i]
    ensures Current(dead', recent', n) == Current(dead, recent, n)
  {
    if n > 0 {
      CurrentPrefix(dead, recent, dead', recent', n - 1);
    }
  }

  lemma {:induction false} CurrentNone(dead: seq<bool>, recent: seq<bool>, n: nat)
    requires n <= |dead| && n <= |recent| && forall i :: 0 <= i < n ==> !recent[i]
    ensures Current(dead, recent, n) == 0
  {
    if n > 0 {
      CurrentNone(dead, recent, n - 1);
    }
  }
}
