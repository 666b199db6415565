/** Big-endian positional numbers in any base, and how many digits a value needs. */
module Radix {
  import opened Arithmetic

  function Pow(b: nat, e: nat): (p: nat)
    ensures b >= 1 ==> p >= 1
  {
    if e == 0 then 1 else b * Pow(b, e - 1)
  }

  /** All entries are digits of the base. */
  ghost predicate InBase(base: nat, s: seq<nat>) {
    forall i :: 0 <= i < |s| ==> s[i] < base
  }

  /** The number that the digits stand for, most significant digit first. */
  function Val(base: nat, s: seq<nat>): nat {
    if s == [] then 0 else Val(base, s[..|s| - 1]) * base + s[|s| - 1]
  }

  /** The digits of a number without leading zeros; none for zero. */
  function Digits(base: nat, n: nat): seq<nat>
    requires base >= 2
    decreases n
  {
    if n == 0 then [] else Digits(base, n / base) + [n % base]
  }

  ghost predicate Canonical(base: nat, s: seq<nat>) {
    InBase(base, s) && (s != [] ==> s[0] != 0)
  }

  lemma {:induction false} DigitsCanonical(base: nat, n: nat)
    requires base >= 2
    ensures Canonical(base, Digits(base, n)) && Val(base, Digits(base, n)) == n
    ensures n > 0 ==> Digits(base, n) != []
    decreases n
  {
    if n > 0 {
      var q, r := n / base, n % base;
      DivRem(n, base);
      DigitsCanonical(base, q);
      Appended(base, Digits(base, q), r);
    }
  }

  lemma DivRem(n: nat, base: nat)
    requires base >= 2 && n > 0
    ensures n / base < n && n == (n / base) * base + n % base && n % base < base
  {
    MulMono(2, base, n / base);
  }

  lemma Appended(base: nat, d: seq<nat>, r: nat)
    requires Canonical(base, d) && r < base && (d == [] ==> r > 0)
    ensures Canonical(base, d + [r]) && Val(base, d + [r]) == Val(base, d) * base + r
  {
    assert (d + [r])[..|d|] == d;
  }

  lemma {:induction false} CanonicalPositive(base: nat, s: seq<nat>)
    requires base >= 1 && Canonical(base, s) && s != []
    ensures Val(base, s) > 0
  {
    if |s| > 1 {
      CanonicalPositive(base, s[..|s| - 1]);
      MulMono(1, Val(base, s[..|s| - 1]), base);
    } else {
      assert s[..0] == [];
    }
  }

  /** Digits without leading zeros are determined by their value. */
  lemma {:induction false} CanonicalIsDigits(base: nat, s: seq<nat>)
    requires base >= 2 && Canonical(base, s)
    ensures Digits(base, Val(base, s)) == s
  {
    if s != [] {
      var t := s[..|s| - 1];
      CanonicalIsDigits(base, t);
      CanonicalPositive(base, s);
      DivUnique(Val(base, s), base, Val(base, t), s[|s| - 1]);
      assert s == t + [s[|s| - 1]];
    }
  }

  lemma {:induction false} ValBound(base: nat, s: seq<nat>)
    requires base >= 1 && InBase(base, s)
    ensures Val(base, s) < Pow(base, |s|)
  {
    if s != [] {
      var t := s[..|s| - 1];
      ValBound(base, t);
      BoundStep(Val(base, t), Pow(base, |t|), base, s[|s| - 1]);
      assert Pow(base, |s|) == base * Pow(base, |t|);
    }
  }

  lemma BoundStep(v: nat, p: nat, base: nat, d: nat)
    requires v < p && d < base
    ensures v * base + d < base * p
  {
    MulMono(v + 1, p, base);
    assert (v + 1) * base == v * base + base;
  }

  lemma {:induction false} ValConcat(base: nat, s: seq<nat>, t: seq<nat>)
    ensures Val(base, s + t) == Val(base, s) * Pow(base, |t|) + Val(base, t)
  {
    if t == [] {
      assert s + t == s;
    } else {
      var u := t[..|t| - 1];
      ValConcat(base, s, u);
      assert (s + t)[..|s + t| - 1] == s + u;
      assert Val(base, s + t) == Val(base, s + u) * base + t[|t| - 1];
      Rebase(Val(base, s), Pow(base, |u|), Val(base, u), base);
    }
  }

  lemma Rebase(a: nat, p: nat, v: nat, base: nat)
    ensures (a * p + v) * base == a * (base * p) + v * base
  {
    assert (a * p + v) * base == a * p * base + v * base;
    assert a * p * base == a * (base * p);
  }

  /** A leading digit counts for its place. */
  lemma ValFront(base: nat, d: nat, t: seq<nat>)
    ensures Val(base, [d] + t) == d * Pow(base, |t|) + Val(base, t)
  {
    ValConcat(base, [d], t);
    assert [d][..0] == [];
    assert Val(base, [d]) == d;
  }

  ghost predicate Zeros(s: seq<nat>) {
    forall i :: 0 <= i < |s| ==> s[i] == 0
  }

  lemma {:induction false} ZerosVal(base: nat, s: seq<nat>, t: seq<nat>)
    requires Zeros(s)
    ensures Val(base, s + t) == Val(base, t)
  {
    if s == [] {
      assert s + t == t;
    } else {
      ZerosVal(base, s[1..], t);
      assert s + t == [s[0]] + (s[1..] + t);
      ValFront(base, s[0], s[1..] + t);
    }
  }

  // ---------------------------------------------------------------------------
  // Powers
  // ---------------------------------------------------------------------------

  lemma {:induction false} PowAdd(b: nat, m: nat, n: nat)
    ensures Pow(b, m + n) == Pow(b, m) * Pow(b, n)
  {
    if m > 0 {
      PowAdd(b, m - 1, n);
      Associate(b, Pow(b, m - 1), Pow(b, n));
      assert Pow(b, m + n) == b * Pow(b, m - 1 + n);
    }
  }

  lemma Associate(x: nat, y: nat, z: nat)
    ensures x * (y * z) == (x * y) * z
  {
  }

  lemma {:induction false} PowPow(b: nat, m: nat, n: nat)
    ensures Pow(Pow(b, m), n) == Pow(b, m * n)
  {
    if n > 0 {
      PowPow(b, m, n - 1);
      PowAdd(b, m, m * (n - 1));
      assert m * n == m + m * (n - 1);
    }
  }

  lemma {:induction false} PowGrows(b: nat, m: nat, n: nat)
    requires b >= 1 && m <= n
    ensures Pow(b, m) <= Pow(b, n)
  {
    if m < n {
      PowGrows(b, m, n - 1);
      MulMono(1, b, Pow(b, n - 1));
    }
  }

  lemma {:induction false} PowMono(a: nat, b: nat, e: nat)
    requires a <= b
    ensures Pow(a, e) <= Pow(b, e)
  {
    if e > 0 {
      PowMono(a, b, e - 1);
      MulMono(a, b, Pow(a, e - 1));
      MulMono(Pow(a, e - 1), Pow(b, e - 1), b);
    }
  }

  lemma {:induction false} PowStrict(a: nat, b: nat, e: nat)
    requires a < b && e >= 1
    ensures Pow(a, e) < Pow(b, e)
  {
    if e > 1 {
      PowStrict(a, b, e - 1);
      MulMono(a, b, Pow(a, e - 1));
      Less(Pow(a, e - 1), Pow(b, e - 1), b);
    } else {
      assert Pow(a, 1) == a && Pow(b, 1) == b;
    }
  }

  lemma Less(x: nat, y: nat, b: nat)
    requires x < y && b >= 1
    ensures b * x < b * y
  {
  }

  /**
   * If a^p >= b^q, then n digits of base b fit in s digits of base a whenever
   * q * s >= p * n.
   */
  lemma Fits(a: nat, b: nat, p: nat, q: nat, n: nat, s: nat)
    requires a >= 1 && b >= 1 && q >= 1 && Pow(a, p) >= Pow(b, q) && q * s >= p * n
    ensures Pow(a, s) >= Pow(b, n)
  {
    hide Pow;
    MulNat(p, n);
    MulNat(q, s);
    MulNat(q, n);
    FitsRaised(a, b, p, q, n, s, p * n, q * s, q * n);
    if Pow(a, s) < Pow(b, n) {
      PowStrict(Pow(a, s), Pow(b, n), q);
      assert false;
    }
  }

  lemma FitsRaised(a: nat, b: nat, p: nat, q: nat, n: nat, s: nat, u: nat, v: nat, w: nat)
    requires a >= 1 && b >= 1 && Pow(a, p) >= Pow(b, q)
    requires u == p * n && v == q * s && w == q * n && u <= v
    ensures Pow(Pow(a, s), q) >= Pow(Pow(b, n), q)
  {
    hide Pow;
    PowPowBoth(b, q, n, w);
    PowPowBoth(a, p, n, u);
    PowPowBoth(a, q, s, v);
    Raised(a, b, Pow(a, p), Pow(b, q), n, u, v, w);
  }

  lemma Raised(a: nat, b: nat, x: nat, y: nat, n: nat, u: nat, v: nat, w: nat)
    requires a >= 1 && x >= y && u <= v && Pow(x, n) == Pow(a, u) && Pow(y, n) == Pow(b, w)
    ensures Pow(a, v) >= Pow(b, w)
  {
    hide Pow;
    PowGrows(a, u, v);
    PowMono(y, x, n);
  }

  lemma PowPowBoth(b: nat, m: nat, n: nat, mn: nat)
    requires mn == m * n
    ensures Pow(Pow(b, m), n) == Pow(b, mn) && Pow(Pow(b, n), m) == Pow(b, mn)
  {
    hide Pow;
    PowPow(b, m, n);
    PowPow(b, n, m);
    Commute(m, n);
  }

  lemma Commute(m: nat, n: nat)
    ensures m * n == n * m
  {
  }

  lemma EncodeRatio()
    ensures Pow(58, 11) >= Pow(256, 8)
  {
  }

  lemma PowDouble(b: nat, e: nat, v: nat)
    requires Pow(b, e) == v
    ensures Pow(b, 2 * e) == v * v
  {
    PowAdd(b, e, e);
  }

  lemma DecodeRatio()
    ensures Pow(256, 52) >= Pow(58, 71)
  {
    var u := 128063081718016;
    assert Pow(58, 8) == u;
    PowDouble(58, 8, u);
    PowDouble(58, 16, u * u);
    PowDouble(58, 32, (u * u) * (u * u));
    PowAdd(58, 64, 7);
    assert Pow(58, 7) == 2207984167552;
    var w := 0x1_0000_0000_0000_0000;
    assert Pow(256, 8) == w;
    PowDouble(256, 8, w);
    PowDouble(256, 16, w * w);
    PowAdd(256, 32, 16);
    PowAdd(256, 48, 4);
    assert Pow(256, 4) == 0x1_0000_0000;
    hide Pow;
  }
}
