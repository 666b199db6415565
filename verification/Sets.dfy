/** Counting facts about finite sets and sequences of different elements. */
module Sets {
  predicate Distinct<T(==)>(s: seq<T>) {
    forall i, j :: 0 <= i < j < |s| ==> s[i] != s[j]
  }

  function Elements<T>(s: seq<T>): set<T> {
    set x | x in s
  }

  /** The numbers below `n`. */
  function Below(n: nat): (s: set<nat>)
    ensures |s| == n && forall i: nat :: i in s <==> i < n
  {
    if n == 0 then {} else Below(n - 1) + {n - 1}
  }

  lemma {:induction false} SubsetSize<T>(a: set<T>, b: set<T>)
    requires a <= b
    ensures |a| <= |b|
    ensures |a| == |b| ==> a == b
    decreases a
  {
    if a != {} {
      var x :| x in a;
      SubsetSize(a - {x}, b - {x});
    }
  }

  lemma {:induction false} DistinctSize<T>(s: seq<T>)
    requires Distinct(s)
    ensures |Elements(s)| == |s|
  {
    if s != [] {
      var init, last := s[..|s| - 1], s[|s| - 1];
      DistinctSize(init);
      assert s == init + [last];
      assert Elements(s) == Elements(init) + {last};
    }
  }

  /** As many elements as entries only if no entry repeats. */
  lemma {:induction false} SizeDistinct<T>(s: seq<T>)
    ensures |Elements(s)| <= |s|
    ensures |Elements(s)| == |s| ==> Distinct(s)
  {
    if s != [] {
      var init, last := s[..|s| - 1], s[|s| - 1];
      SizeDistinct(init);
      assert s == init + [last];
      assert Elements(s) == Elements(init) + {last};
      assert last in init ==> Elements(s) == Elements(init);
      assert last !in init ==> forall i :: 0 <= i < |init| ==> init[i] != last;
    }
  }

  /** `n` different numbers below `n` are all the numbers below `n`. */
  lemma Pigeonhole(s: seq<nat>, n: nat, q: nat)
    requires |s| == n && Distinct(s) && q < n
    requires forall x :: x in s ==> x < n
    ensures q in s
  {
    DistinctSize(s);
    assert Elements(s) <= Below(n);
    SubsetSize(Elements(s), Below(n));
    assert q in Below(n);
  }
}
