/**
 * Numbers as sequences of 32-bit limbs, least significant first, and the bitwise "or" of
 * natural numbers where the two operands share no bit.
 */
module Limbs {
  import opened Arithmetic

  newtype uint32 = x: int | 0 <= x < 0x1_0000_0000
  newtype uint64 = x: int | 0 <= x < 0x1_0000_0000_0000_0000

  const BASE: nat := 0x1_0000_0000
  const WIDTH: nat := 8

  function Pow2(n: nat): (p: nat)
    ensures p >= 1
  {
    if n == 0 then 1 else 2 * Pow2(n - 1)
  }

  lemma {:induction false} Pow2Add(m: nat, n: nat)
    ensures Pow2(m + n) == Pow2(m) * Pow2(n)
  {
    if m > 0 {
      Pow2Add(m - 1, n);
      assert Pow2(m + n) == 2 * Pow2(m - 1 + n);
    }
  }

  lemma {:induction false} Pow2Mono(m: nat, n: nat)
    requires m <= n
    ensures Pow2(m) <= Pow2(n)
  {
    if m < n {
      Pow2Mono(m, n - 1);
    }
  }

  lemma Pow2At32()
    ensures Pow2(32) == BASE
  {
    assert Pow2(8) == 256;
    Pow2Add(8, 8);
    Pow2Add(16, 16);
  }

  /** The weight of limb `i`. */
  function Place(i: nat): (p: nat)
    ensures p >= 1
  {
    if i == 0 then 1 else BASE * Place(i - 1)
  }

  lemma {:induction false} PlaceIsPow2(i: nat)
    ensures Place(i) == Pow2(32 * i)
  {
    if i > 0 {
      PlaceIsPow2(i - 1);
      Pow2At32();
      Pow2Add(32, 32 * (i - 1));
      assert 32 + 32 * (i - 1) == 32 * i;
    }
  }

  lemma {:induction false} PlaceAdd(i: nat, j: nat)
    ensures Place(i + j) == Place(i) * Place(j)
  {
    if i > 0 {
      PlaceAdd(i - 1, j);
      assert Place(i + j) == BASE * Place(i - 1 + j);
    }
  }

  /** The value of the first `n` limbs. */
  function Val(s: seq<uint32>, n: nat): nat
    requires n <= |s|
  {
    if n == 0 then 0 else Val(s, n - 1) + s[n - 1] as nat * Place(n - 1)
  }

  lemma Step(s: seq<uint32>, i: nat)
    requires i < |s|
    ensures Val(s, i + 1) == Val(s, i) + s[i] as nat * Place(i)
    ensures Place(i + 1) == BASE * Place(i)
  {
  }

  /** The value of a whole number. */
  function Value(s: seq<uint32>): nat { Val(s, |s|) }

  const MODULUS := Place(WIDTH)

  lemma {:induction false} ValBound(s: seq<uint32>, n: nat)
    requires n <= |s|
    ensures Val(s, n) < Place(n)
  {
    if n > 0 {
      ValBound(s, n - 1);
      MulMono(s[n - 1] as nat, BASE - 1, Place(n - 1));
      assert (BASE - 1) * Place(n - 1) == Place(n) - Place(n - 1);
    }
  }

  lemma {:induction false} ValSame(s: seq<uint32>, t: seq<uint32>, n: nat)
    requires n <= |s| && n <= |t| && forall i :: 0 <= i < n ==> s[i] == t[i]
    ensures Val(s, n) == Val(t, n)
  {
    if n > 0 {
      ValSame(s, t, n - 1);
    }
  }

  lemma {:induction false} ValUpdate(s: seq<uint32>, n: nat, j: nat, v: uint32)
    requires j < n <= |s|
    ensures Val(s[j := v], n) == Val(s, n) - s[j] as nat * Place(j) + v as nat * Place(j)
  {
    if j == n - 1 {
      ValSame(s, s[j := v], n - 1);
    } else {
      ValUpdate(s, n - 1, j, v);
    }
  }

  lemma {:induction false} ValZero(s: seq<uint32>, n: nat)
    requires n <= |s| && forall i :: 0 <= i < n ==> s[i] == 0
    ensures Val(s, n) == 0
  {
    if n > 0 {
      ValZero(s, n - 1);
    }
  }

  /** A number below the modulus is its own residue. */
  lemma Residue(x: int, y: nat, k: int)
    requires x == y + k * MODULUS && y < MODULUS
    ensures x % MODULUS == y
  {
    var m: nat := MODULUS;
    var q, r := x / m, x % m;
    assert x == q * m + r && 0 <= r < m;
    assert (q - k) * m == y - r;
    SmallMultiple(q - k, m, y - r);
  }

  lemma SmallMultiple(d: int, m: int, z: int)
    requires d * m == z && -m < z < m
    ensures d == 0 && z == 0
  {
    assert d >= 1 ==> d * m >= m;
    assert d <= -1 ==> d * m <= -m;
  }

  // ---------------------------------------------------------------------------
  // Bitwise or
  // ---------------------------------------------------------------------------

  function BitOr(x: nat, y: nat): nat {
    if x == 0 then y
    else if y == 0 then x
    else (if x % 2 == 1 || y % 2 == 1 then 1 else 0) + 2 * BitOr(x / 2, y / 2)
  }

  /** A number below 2^s and a multiple of 2^s share no bit, so "or" adds them. */
  lemma {:induction false} OrAdds(x: nat, m: nat, s: nat)
    requires x < Pow2(s)
    ensures BitOr(x, m * Pow2(s)) == BitOr(m * Pow2(s), x) == x + m * Pow2(s)
    decreases s
  {
    var y := m * Pow2(s);
    if s == 0 || x == 0 || y == 0 {
    } else {
      var h := m * Pow2(s - 1);
      assert y == 2 * h;
      OrAdds(x / 2, m, s - 1);
    }
  }
}
