/** Shifts of 256-bit numbers by any amount (src/arith_uint256.cpp). */
module Shifts {
  import opened Limbs
  import opened Arithmetic
  import opened ArithUint256

  /** The bits of a limb shifted left that stay in the limb, and those that leave it. */
  function LeftLow(c: uint32, s: nat): (lo: nat)
    ensures lo < BASE
  {
    (c as nat * Pow2(s)) % BASE
  }

  function LeftHigh(c: uint32, s: nat): nat
    requires s < 32
  {
    DivAtLeast(c as nat, 0, Pow2(32 - s));
    c as nat / Pow2(32 - s)
  }

  lemma SplitLeft(c: uint32, s: nat)
    requires s < 32
    ensures c as nat * Pow2(s) == LeftLow(c, s) + LeftHigh(c, s) * BASE && LeftHigh(c, s) < Pow2(s) <= BASE
    ensures exists m: nat :: LeftLow(c, s) == m * Pow2(s) && m < Pow2(32 - s)
    ensures s == 0 ==> LeftHigh(c, s) == 0
  {
    Pow2At32();
    Pow2Add(s, 32 - s);
    Pow2Mono(s, 32);
    SplitLeftAt(c as nat, Pow2(s), Pow2(32 - s));
  }

  lemma SplitLeftAt(c: nat, p: nat, q: nat)
    requires p >= 1 && q >= 1 && p * q == BASE && c < BASE
    ensures var lo, hi := (c * p) % BASE, c / q;
            && c * p == lo + hi * BASE && hi < p
            && exists m: nat :: lo == m * p && m < q
  {
    var hi, m := c / q, c % q;
    assert c == hi * q + m;
    assert c * p == hi * (p * q) + m * p by {
      assert (hi * q + m) * p == hi * q * p + m * p;
      assert hi * q * p == hi * (p * q);
    }
    MulLess(m, q, p);
    DivUnique(c * p, BASE, hi, m * p);
    DivLess(c, p, q);
  }

  lemma MulLess(m: nat, q: nat, p: nat)
    requires m < q && p >= 1
    ensures m * p + p <= p * q && m * p < p * q
  {
    MulMono(m + 1, q, p);
    assert (m + 1) * p == m * p + p;
  }

  /** Putting a limb's low part above a value smaller than 2^s does not carry. */
  lemma OrFits(x: nat, lo: nat, s: nat)
    requires s < 32 && x < Pow2(s) && lo < BASE && exists m: nat :: lo == m * Pow2(s) && m < Pow2(32 - s)
    ensures BitOr(x, lo) == x + lo < BASE
  {
    var m: nat :| lo == m * Pow2(s) && m < Pow2(32 - s);
    OrAdds(x, m, s);
    Pow2At32();
    Pow2Add(s, 32 - s);
    MulLess(m, Pow2(32 - s), Pow2(s));
  }

  // ---------------------------------------------------------------------------
  // Left
  // ---------------------------------------------------------------------------

  /** The state of the left shift after `i` limbs: right up to multiples of the modulus. */
  ghost predicate LeftSoFar(a: seq<uint32>, c: seq<uint32>, i: nat, k: nat, s: nat) {
    && |a| == |c| == WIDTH && i <= WIDTH && s < 32
    && (exists over: nat :: Value(a) + over * MODULUS == Val(c, i) * Pow2(s) * Place(k))
    && (forall j :: i + k < j < WIDTH ==> a[j] == 0)
    && (i + k < WIDTH ==> a[i + k] as nat < Pow2(s))
  }

  /** One turn of the loop of <<= at limb `n`. */
  ghost predicate LeftStep(a: seq<uint32>, a': seq<uint32>, c: uint32, n: nat, s: nat)
    requires s < 32
  {
    && |a| == |a'| == WIDTH
    && (forall j :: 0 <= j < WIDTH && j != n && j != n + 1 ==> a'[j] == a[j])
    && (n + 1 < WIDTH ==>
          a'[n + 1] as nat == if s != 0 then BitOr(a[n + 1] as nat, LeftHigh(c, s)) else a[n + 1] as nat)
    && (n < WIDTH ==> a'[n] as nat == BitOr(a[n] as nat, LeftLow(c, s)))
  }

  /** What one turn writes, with "or" replaced by addition. */
  lemma LeftWrites(a: seq<uint32>, a': seq<uint32>, c: uint32, n: nat, s: nat)
    requires s < 32 && LeftStep(a, a', c, n, s)
    requires n + 1 < WIDTH ==> a[n + 1] == 0
    requires n < WIDTH ==> a[n] as nat < Pow2(s)
    ensures n + 1 < WIDTH ==> a'[n + 1] as nat == LeftHigh(c, s) < Pow2(s)
    ensures n < WIDTH ==> a'[n] as nat == a[n] as nat + LeftLow(c, s)
  {
    SplitLeft(c, s);
    hide LeftLow, LeftHigh, Pow2;
    if n < WIDTH {
      OrFits(a[n] as nat, LeftLow(c, s), s);
    }
    assert BitOr(0, LeftHigh(c, s)) == LeftHigh(c, s);
  }

  lemma TwoLimbs(a: seq<uint32>, a': seq<uint32>, n: nat, lo: nat, hi: nat)
    requires |a| == |a'| == WIDTH && n + 1 < WIDTH && a[n + 1] == 0
    requires forall j :: 0 <= j < WIDTH && j != n && j != n + 1 ==> a'[j] == a[j]
    requires a'[n + 1] as nat == hi && a'[n] as nat == a[n] as nat + lo
    ensures Value(a') == Value(a) + lo * Place(n) + hi * Place(n + 1)
  {
    var b := a[n + 1 := a'[n + 1]];
    assert a' == b[n := a'[n]];
    ValUpdate(a, WIDTH, n + 1, a'[n + 1]);
    ValUpdate(b, WIDTH, n, a'[n]);
    hide Val, Place;
    Plus(a[n] as nat, lo, Place(n));
  }

  lemma OneLimb(a: seq<uint32>, a': seq<uint32>, n: nat, lo: nat)
    requires |a| == |a'| == WIDTH && n < WIDTH
    requires forall j :: 0 <= j < WIDTH && j != n ==> a'[j] == a[j]
    requires a'[n] as nat == a[n] as nat + lo
    ensures Value(a') == Value(a) + lo * Place(n)
  {
    assert a' == a[n := a'[n]];
    ValUpdate(a, WIDTH, n, a'[n]);
    hide Val, Place;
    Plus(a[n] as nat, lo, Place(n));
  }

  lemma LeftStepValue(a: seq<uint32>, a': seq<uint32>, c: uint32, n: nat, s: nat) returns (over: nat)
    requires s < 32 && LeftStep(a, a', c, n, s)
    requires n + 1 < WIDTH ==> a[n + 1] == 0
    requires n < WIDTH ==> a[n] as nat < Pow2(s)
    ensures Value(a') + over * MODULUS == Value(a) + c as nat * Pow2(s) * Place(n)
  {
    hide Val, Place, Pow2, LeftLow, LeftHigh, Value, BitOr;
    var hi, lo := LeftHigh(c, s), LeftLow(c, s);
    SplitLeft(c, s);
    LeftWrites(a, a', c, n, s);
    Step2(n);
    LeftTerm(c as nat * Pow2(s), lo, hi, Place(n));
    if n + 1 < WIDTH {
      TwoLimbs(a, a', n, lo, hi);
      over := 0;
    } else if n + 1 == WIDTH {
      OneLimb(a, a', n, lo);
      over := hi;
    } else {
      assert a' == a;
      PlaceAdd(n - WIDTH, WIDTH);
      over := c as nat * Pow2(s) * Place(n - WIDTH);
      Assoc(c as nat * Pow2(s), Place(n - WIDTH), MODULUS);
    }
  }

  lemma Step2(n: nat)
    ensures Place(n + 1) == BASE * Place(n)
  {
  }

  lemma LeftTerm(x: nat, lo: nat, hi: nat, place: nat)
    requires x == lo + hi * BASE
    ensures x * place == lo * place + hi * (BASE * place)
  {
    assert (lo + hi * BASE) * place == lo * place + hi * BASE * place;
    assert hi * BASE * place == hi * (BASE * place);
  }

  lemma Assoc(x: nat, y: nat, z: nat)
    ensures x * y * z == x * (y * z)
  {
  }

  lemma LeftNext(a: seq<uint32>, a': seq<uint32>, c: seq<uint32>, i: nat, k: nat, s: nat)
    requires LeftSoFar(a, c, i, k, s) && i < WIDTH && LeftStep(a, a', c[i], i + k, s)
    ensures LeftSoFar(a', c, i + 1, k, s)
  {
    hide Val, Place, Value, Pow2, BitOr, LeftLow, LeftHigh;
    LeftWrites(a, a', c[i], i + k, s);
    var over' := LeftStepValue(a, a', c[i], i + k, s);
    var over: nat :| Value(a) + over * MODULUS == Val(c, i) * Pow2(s) * Place(k);
    Step(c, i);
    PlaceAdd(i, k);
    LeftSum(Val(c, i), c[i] as nat, Pow2(s), Place(i), Place(k));
    Plus(over, over', MODULUS);
    assert Value(a') + (over + over') * MODULUS == Val(c, i + 1) * Pow2(s) * Place(k);
  }

  lemma LeftSum(x: nat, c: nat, p: nat, pi: nat, pk: nat)
    ensures (x + c * pi) * p * pk == x * p * pk + c * p * (pi * pk)
  {
    assert (x + c * pi) * p == x * p + c * pi * p;
    assert (x * p + c * pi * p) * pk == x * p * pk + c * pi * p * pk;
    assert c * pi * p * pk == c * p * (pi * pk);
  }

  /** <<= */
  method ShiftLeft(a: array<uint32>, shift: nat)
    requires Is256(a)
    modifies a
    ensures V(a) == old(V(a)) * Pow2(shift) % MODULUS
  {
    ghost var c := a[..];
    var copy := Copy(a);
    Clear(a);
    var k, s := shift / 32, shift % 32;
    assert Value(a[..]) + 0 * MODULUS == Val(c, 0) * Pow2(s) * Place(k);
    var i := 0;
    while i < WIDTH
      invariant 0 <= i <= WIDTH && copy[..] == c
      invariant LeftSoFar(a[..], c, i, k, s)
    {
      hide Value, Pow2, LeftLow, LeftHigh, BitOr;
      ghost var before := a[..];
      LeftBounds(before, copy[i], i + k, s);
      if i + k + 1 < WIDTH && s != 0 {
        a[i + k + 1] := BitOr(a[i + k + 1] as nat, LeftHigh(copy[i], s)) as uint32;
      }
      if i + k < WIDTH {
        a[i + k] := BitOr(a[i + k] as nat, LeftLow(copy[i], s)) as uint32;
      }
      LeftNext(before, a[..], c, i, k, s);
      i := i + 1;
    }
    LeftDone(a[..], c, k, s, shift);
  }

  /** The results of "or" fit into a limb. */
  lemma LeftBounds(a: seq<uint32>, c: uint32, n: nat, s: nat)
    requires |a| == WIDTH && s < 32
    requires n + 1 < WIDTH ==> a[n + 1] == 0
    requires n < WIDTH ==> a[n] as nat < Pow2(s)
    ensures n + 1 < WIDTH ==> BitOr(a[n + 1] as nat, LeftHigh(c, s)) < BASE
    ensures n < WIDTH ==> BitOr(a[n] as nat, LeftLow(c, s)) < BASE
  {
    SplitLeft(c, s);
    hide LeftLow, LeftHigh, Pow2;
    if n < WIDTH {
      OrFits(a[n] as nat, LeftLow(c, s), s);
    }
    assert BitOr(0, LeftHigh(c, s)) == LeftHigh(c, s);
  }

  lemma ShiftSplit(shift: nat)
    ensures Pow2(shift) == Pow2(shift % 32) * Place(shift / 32)
  {
    PlaceIsPow2(shift / 32);
    Pow2Add(shift % 32, 32 * (shift / 32));
    assert shift == shift % 32 + 32 * (shift / 32);
  }

  lemma LeftDone(a: seq<uint32>, c: seq<uint32>, k: nat, s: nat, shift: nat)
    requires LeftSoFar(a, c, WIDTH, k, s) && k == shift / 32 && s == shift % 32
    ensures Value(a) == Value(c) * Pow2(shift) % MODULUS
  {
    ShiftSplit(shift);
    ValBound(a, WIDTH);
    hide Val, Place, Pow2;
    var over: nat :| Value(a) + over * MODULUS == Val(c, WIDTH) * Pow2(s) * Place(k);
    Assoc(Value(c), Pow2(s), Place(k));
    Residue(Value(c) * Pow2(shift), Value(a), over);
  }

  // ---------------------------------------------------------------------------
  // Right
  // ---------------------------------------------------------------------------

  /** The bits of a limb shifted right that stay in the limb, and those that leave it. */
  function RightHigh(c: uint32, s: nat): nat {
    DivAtLeast(c as nat, 0, Pow2(s));
    c as nat / Pow2(s)
  }

  function RightLow(c: uint32, s: nat): (lo: nat)
    requires s < 32
    ensures lo < BASE
  {
    (c as nat * Pow2(32 - s)) % BASE
  }

  lemma SplitRight(c: uint32, s: nat) returns (rest: nat)
    requires s < 32
    ensures c as nat == RightHigh(c, s) * Pow2(s) + rest && rest < Pow2(s)
    ensures s != 0 ==> RightLow(c, s) == rest * Pow2(32 - s)
    ensures RightHigh(c, s) < Pow2(32 - s) <= BASE
    ensures s == 0 ==> rest == 0
  {
    var p, q := Pow2(s), Pow2(32 - s);
    Pow2At32();
    Pow2Add(s, 32 - s);
    Pow2Mono(32 - s, 32);
    rest := c as nat % p;
    SplitRightAt(c as nat, p, q);
  }

  lemma SplitRightAt(c: nat, p: nat, q: nat)
    requires p >= 1 && q >= 1 && p * q == BASE && c < BASE
    ensures c == (c / p) * p + c % p && c / p < q
    ensures (c * q) % BASE == (c % p) * q
  {
    var hi, r := c / p, c % p;
    assert c == hi * p + r;
    assert c * q == hi * (p * q) + r * q by {
      assert (hi * p + r) * q == hi * p * q + r * q;
      assert hi * p * q == hi * (p * q);
    }
    MulLess(r, p, q);
    assert q * p == p * q;
    DivUnique(c * q, BASE, hi, r * q);
    assert q * p == BASE;
    DivLess(c, q, p);
  }

  /** One turn of the loop of >>=, where `n` is the index of the limb and `n - k` its target. */
  ghost predicate RightStep(a: seq<uint32>, a': seq<uint32>, c: uint32, n: int, s: nat)
    requires s < 32
  {
    && |a| == |a'| == WIDTH && n < WIDTH
    && (forall j :: 0 <= j < WIDTH && j != n && j != n - 1 ==> a'[j] == a[j])
    && (n - 1 >= 0 ==> a'[n - 1] as nat == if s != 0 then BitOr(a[n - 1] as nat, RightLow(c, s)) else a[n - 1] as nat)
    && (n >= 0 ==> a'[n] as nat == BitOr(a[n] as nat, RightHigh(c, s)))
  }

  /** `rest` is the part of the first `i` limbs that is shifted out. */
  ghost predicate ShiftedOut(a: seq<uint32>, c: seq<uint32>, i: nat, k: nat, s: nat, rest: nat)
    requires i <= |c|
  {
    && Value(a) * Pow2(s) * Place(k) + rest == Val(c, i)
    && rest < Pow2(s) * Place(k) && (i <= k ==> rest == Val(c, i) && Value(a) == 0)
  }

  /** The state of the right shift after `i` limbs: exact up to the bits shifted out. */
  ghost predicate RightSoFar(a: seq<uint32>, c: seq<uint32>, i: nat, k: nat, s: nat) {
    && |a| == |c| == WIDTH && i <= WIDTH && s < 32
    && (exists rest: nat :: ShiftedOut(a, c, i, k, s, rest))
    && (forall j :: 0 <= j < WIDTH && i - k <= j ==> a[j] == 0)
    && (0 <= i - k - 1 ==> a[i - k - 1] as nat < Pow2(32 - s))
  }

  lemma RightWrites(a: seq<uint32>, a': seq<uint32>, c: uint32, n: int, s: nat) returns (rest: nat)
    requires s < 32 && RightStep(a, a', c, n, s)
    requires n >= 0 ==> a[n] == 0
    requires n - 1 >= 0 ==> a[n - 1] as nat < Pow2(32 - s)
    ensures c as nat == RightHigh(c, s) * Pow2(s) + rest && rest < Pow2(s)
    ensures n >= 0 ==> a'[n] as nat == RightHigh(c, s) < Pow2(32 - s)
    ensures n - 1 >= 0 ==> a'[n - 1] as nat == a[n - 1] as nat + rest * Pow2(32 - s)
  {
    rest := SplitRight(c, s);
    hide RightHigh, RightLow, Pow2;
    assert BitOr(0, RightHigh(c, s)) == RightHigh(c, s);
    if n - 1 >= 0 && s != 0 {
      OrAdds(a[n - 1] as nat, rest, 32 - s);
    }
  }

  lemma RightNext(a: seq<uint32>, a': seq<uint32>, c: seq<uint32>, i: nat, k: nat, s: nat)
    requires RightSoFar(a, c, i, k, s) && i < WIDTH && RightStep(a, a', c[i], i - k, s)
    ensures RightSoFar(a', c, i + 1, k, s)
  {
    hide Val, Place, Value, Pow2, BitOr, RightLow, RightHigh;
    var r := RightWrites(a, a', c[i], i - k, s);
    var rest: nat :| ShiftedOut(a, c, i, k, s, rest);
    var hi := RightHigh(c[i], s);
    if i < k {
      assert a' == a;
      RightBelow(c, i, k, s);
      assert ShiftedOut(a', c, i + 1, k, s, Val(c, i + 1));
    } else if i == k {
      RightFirst(a, a', c, k, s, hi, r);
      assert ShiftedOut(a', c, i + 1, k, s, Val(c, k) + r * Place(k));
    } else {
      RightLater(a, a', c, i, k, s, hi, r, rest);
      assert ShiftedOut(a', c, i + 1, k, s, rest);
    }
  }

  /** Limbs below the shift distance only add to the bits shifted out. */
  lemma RightBelow(c: seq<uint32>, i: nat, k: nat, s: nat)
    requires i < k && i < |c|
    ensures Val(c, i + 1) < Pow2(s) * Place(k)
  {
    ValBound(c, i + 1);
    PlaceAdd(k - i - 1, i + 1);
    MulMono(1, Place(k - i - 1), Place(i + 1));
    MulMono(1, Pow2(s), Place(k));
  }

  /** The first limb that leaves a part in the result. */
  lemma RightFirst(a: seq<uint32>, a': seq<uint32>, c: seq<uint32>, k: nat, s: nat, hi: nat, r: nat)
    requires |a| == |a'| == |c| == WIDTH && k < WIDTH && s < 32 && Value(a) == 0 && a[0] == 0
    requires (forall j :: 0 < j < WIDTH ==> a'[j] == a[j]) && a'[0] as nat == hi
    requires c[k] as nat == hi * Pow2(s) + r && r < Pow2(s)
    ensures Value(a') * Pow2(s) * Place(k) + (Val(c, k) + r * Place(k)) == Val(c, k + 1)
    ensures Val(c, k) + r * Place(k) < Pow2(s) * Place(k)
  {
    ValBound(c, k);
    Step(c, k);
    OneLimb(a, a', 0, hi);
    assert Place(0) == 1;
    hide Val, Place, Pow2, Value;
    assert Value(a') == hi;
    FirstSum(Val(c, k), hi, Pow2(s), r, Place(k));
    FirstBelow(Val(c, k), r, Pow2(s), Place(k));
  }

  lemma FirstSum(v: nat, hi: nat, p: nat, r: nat, place: nat)
    ensures hi * p * place + (v + r * place) == v + (hi * p + r) * place
  {
    MulNat(hi, p);
    Plus(hi * p, r, place);
  }

  lemma FirstBelow(v: nat, r: nat, p: nat, place: nat)
    requires v < place && r < p
    ensures v + r * place < p * place
  {
    MulMono(r + 1, p, place);
    Plus(r, 1, place);
  }

  lemma RightLater(a: seq<uint32>, a': seq<uint32>, c: seq<uint32>, i: nat, k: nat, s: nat, hi: nat, r: nat, rest: nat)
    requires |a| == |a'| == |c| == WIDTH && k < i < WIDTH && s < 32 && a[i - k] == 0
    requires forall j :: 0 <= j < WIDTH && j != i - k && j != i - k - 1 ==> a'[j] == a[j]
    requires a'[i - k] as nat == hi && a'[i - k - 1] as nat == a[i - k - 1] as nat + r * Pow2(32 - s)
    requires c[i] as nat == hi * Pow2(s) + r
    requires Value(a) * Pow2(s) * Place(k) + rest == Val(c, i)
    ensures Value(a') * Pow2(s) * Place(k) + rest == Val(c, i + 1)
  {
    hide Val, Place, Pow2, Value;
    var n := i - k - 1;
    TwoLimbs(a, a', n, r * Pow2(32 - s), hi);
    Step(c, i);
    PlaceAdd(n, k);
    Step2(n);
    Step2(n + k);
    assert n + k + 1 == i;
    Pow2At32();
    Pow2Add(s, 32 - s);
    RightTerm(Value(a), r, hi, Pow2(s), Pow2(32 - s), Place(n), Place(k));
    Plus(hi * Pow2(s), r, Place(i));
  }

  lemma RightTerm(v: nat, r: nat, hi: nat, p: nat, q: nat, pn: nat, pk: nat)
    requires p * q == BASE
    ensures (v + r * q * pn + hi * (BASE * pn)) * p * pk ==
              v * p * pk + r * (BASE * (pn * pk)) + hi * p * (BASE * (pn * pk))
  {
    var x, y := r * q * pn, hi * (BASE * pn);
    assert (v + x + y) * p == v * p + x * p + y * p;
    assert (v * p + x * p + y * p) * pk == v * p * pk + x * p * pk + y * p * pk;
    assert x * p * pk == r * (p * q) * (pn * pk);
    assert y * p * pk == hi * p * (BASE * (pn * pk));
  }

  /** >>= */
  method ShiftRight(a: array<uint32>, shift: nat)
    requires Is256(a)
    modifies a
    ensures V(a) == old(V(a)) / Pow2(shift)
  {
    ghost var c := a[..];
    var copy := Copy(a);
    Clear(a);
    var k, s := shift / 32, shift % 32;
    RightStart(a[..], c, k, s);
    var i := 0;
    while i < WIDTH
      invariant 0 <= i <= WIDTH && copy[..] == c
      invariant RightSoFar(a[..], c, i, k, s)
    {
      hide Value, Pow2, RightLow, RightHigh, BitOr;
      ghost var before := a[..];
      RightBounds(before, copy[i], i - k, s);
      if i - k - 1 >= 0 && s != 0 {
        a[i - k - 1] := BitOr(a[i - k - 1] as nat, RightLow(copy[i], s)) as uint32;
      }
      if i - k >= 0 {
        a[i - k] := BitOr(a[i - k] as nat, RightHigh(copy[i], s)) as uint32;
      }
      RightNext(before, a[..], c, i, k, s);
      i := i + 1;
    }
    RightDone(a[..], c, k, s, shift);
  }

  lemma RightStart(a: seq<uint32>, c: seq<uint32>, k: nat, s: nat)
    requires |a| == |c| == WIDTH && s < 32 && Value(a) == 0 && forall i :: 0 <= i < WIDTH ==> a[i] == 0
    ensures RightSoFar(a, c, 0, k, s)
  {
    MulMono(1, Pow2(s), Place(k));
    assert ShiftedOut(a, c, 0, k, s, 0);
  }

  lemma RightBounds(a: seq<uint32>, c: uint32, n: int, s: nat)
    requires |a| == WIDTH && s < 32 && n < WIDTH
    requires n >= 0 ==> a[n] == 0
    requires n - 1 >= 0 ==> a[n - 1] as nat < Pow2(32 - s)
    ensures n >= 0 ==> BitOr(a[n] as nat, RightHigh(c, s)) < BASE
    ensures n - 1 >= 0 && s != 0 ==> BitOr(a[n - 1] as nat, RightLow(c, s)) < BASE
  {
    hide RightHigh, RightLow, Pow2;
    var rest := SplitRight(c, s);
    assert BitOr(0, RightHigh(c, s)) == RightHigh(c, s);
    if n - 1 >= 0 && s != 0 {
      Pow2At32();
      Pow2Add(32 - s, s);
      OrAdds(a[n - 1] as nat, rest, 32 - s);
      MulLess(rest, Pow2(s), Pow2(32 - s));
    }
  }

  lemma RightDone(a: seq<uint32>, c: seq<uint32>, k: nat, s: nat, shift: nat)
    requires RightSoFar(a, c, WIDTH, k, s) && k == shift / 32 && s == shift % 32
    ensures Value(a) == Value(c) / Pow2(shift)
  {
    ShiftSplit(shift);
    hide Val, Place, Pow2;
    var rest: nat :| ShiftedOut(a, c, WIDTH, k, s, rest);
    Assoc(Value(a), Pow2(s), Place(k));
    DivUnique(Value(c), Pow2(shift), Value(a), rest);
  }
}
