/**
 * 256-bit unsigned arithmetic on eight 32-bit limbs (src/arith_uint256.h, .cpp), in place on
 * arrays, with 64-bit intermediates that are proved never to overflow.  Every operation is
 * proved to be the operation on integers modulo 2^256.
 */
module ArithUint256 {
  import opened Limbs
  import opened Arithmetic

  predicate Is256(a: array<uint32>) { a.Length == WIDTH }

  /** The value an array of limbs stands for. */
  function V(a: array<uint32>): nat
    reads a
  {
    Value(a[..])
  }

  function Low(n: uint64): uint32 { (n as int % BASE) as uint32 }

  function High(n: uint64): uint64 { (n as int / BASE) as uint64 }

  lemma Split(n: uint64)
    ensures n as nat == Low(n) as nat + BASE * High(n) as nat
    ensures High(n) as nat < BASE
  {
  }

  // ---------------------------------------------------------------------------
  // Addition and subtraction
  // ---------------------------------------------------------------------------

  /** One column of a carry chain: writing the low half keeps the total of all columns so far. */
  lemma Column(s: seq<uint32>, t: seq<uint32>, i: nat, carry: nat, limbs: nat, n: uint64, total: nat)
    requires i < |s| == |t| && t == s[i := Low(n)]
    requires Val(s, i) + carry * Place(i) == total && n as nat == carry + limbs
    ensures Val(t, i + 1) + High(n) as nat * Place(i + 1) == total + limbs * Place(i)
  {
    Step(t, i);
    ValSame(s, t, i);
    hide Val, Place;
    Split(n);
    ColumnSum(Val(s, i), carry, limbs, Low(n) as nat, High(n) as nat, Place(i));
  }

  lemma ColumnSum(before: nat, carry: nat, limbs: nat, low: nat, high: nat, place: nat)
    requires carry + limbs == low + BASE * high
    ensures before + low * place + high * (BASE * place) == before + carry * place + limbs * place
  {
    assert (carry + limbs) * place == carry * place + limbs * place;
    assert (low + BASE * high) * place == low * place + (BASE * high) * place;
    assert (BASE * high) * place == high * (BASE * place);
  }

  lemma Plus(x: nat, y: nat, p: nat)
    ensures (x + y) * p == x * p + y * p
  {
  }

  method AddAssign(a: array<uint32>, b: array<uint32>)
    requires Is256(a) && Is256(b)
    modifies a
    ensures V(a) == (old(V(a)) + old(V(b))) % MODULUS
  {
    ghost var a0, b0 := a[..], b[..];
    var carry: uint64 := 0;
    var i := 0;
    while i < WIDTH
      invariant 0 <= i <= WIDTH && carry <= 1
      invariant forall j :: i <= j < WIDTH ==> a[j] == a0[j] && b[j] == b0[j]
      invariant Val(a[..], i) + carry as nat * Place(i) == Val(a0, i) + Val(b0, i)
    {
      hide Val, Place;
      ghost var before := a[..];
      var n: uint64 := carry + a[i] as uint64 + b[i] as uint64;
      a[i] := Low(n);
      AddStep(a0, b0, before, a[..], i, carry as nat, n);
      carry := High(n);
      i := i + 1;
    }
    ValBound(a[..], WIDTH);
    Residue(Value(a0) + Value(b0), Value(a[..]), carry as int);
  }

  lemma AddStep(a0: seq<uint32>, b0: seq<uint32>, s: seq<uint32>, t: seq<uint32>, i: nat, carry: nat, n: uint64)
    requires i < |s| == |t| == |a0| == |b0| && t == s[i := Low(n)]
    requires n as nat == carry + a0[i] as nat + b0[i] as nat && Val(s, i) + carry * Place(i) == Val(a0, i) + Val(b0, i)
    ensures Val(t, i + 1) + High(n) as nat * Place(i + 1) == Val(a0, i + 1) + Val(b0, i + 1)
  {
    Step(a0, i);
    Step(b0, i);
    hide Val, Place, Low, High;
    Column(s, t, i, carry, a0[i] as nat + b0[i] as nat, n, Val(a0, i) + Val(b0, i));
    Plus(a0[i] as nat, b0[i] as nat, Place(i));
  }

  /** ++, which stops at the first limb that does not wrap. */
  method Increment(a: array<uint32>)
    requires Is256(a)
    modifies a
    ensures V(a) == (old(V(a)) + 1) % MODULUS
  {
    ghost var a0 := a[..];
    var i := 0;
    a[0] := ((a[0] as int + 1) % BASE) as uint32;
    while a[i] == 0 && i < WIDTH - 1
      invariant 0 <= i < WIDTH
      invariant forall j :: i < j < WIDTH ==> a[j] == a0[j]
      invariant forall j :: 0 <= j < i ==> a[j] == 0
      invariant Val(a0, i) + 1 == Place(i)
      invariant a[i] as int == (a0[i] as int + 1) % BASE
    {
      hide Val, Place;
      Full(a0, i);
      i := i + 1;
      a[i] := ((a[i] as int + 1) % BASE) as uint32;
    }
    IncrementDone(a0, a[..], i);
  }

  lemma Full(a0: seq<uint32>, i: nat)
    requires i < |a0| && Val(a0, i) + 1 == Place(i) && a0[i] as nat == BASE - 1
    ensures Val(a0, i + 1) + 1 == Place(i + 1)
  {
    Step(a0, i);
    assert (BASE - 1) * Place(i) + Place(i) == BASE * Place(i);
  }

  lemma IncrementDone(a0: seq<uint32>, a: seq<uint32>, i: nat)
    requires |a0| == |a| == WIDTH && i < WIDTH
    requires forall j :: i < j < WIDTH ==> a[j] == a0[j]
    requires forall j :: 0 <= j < i ==> a[j] == 0
    requires Val(a0, i) + 1 == Place(i)
    requires a[i] as int == (a0[i] as int + 1) % BASE && (a[i] == 0 ==> i == WIDTH - 1)
    ensures Value(a) == (Value(a0) + 1) % MODULUS
  {
    hide Val, Place;
    ValZero(a, i);
    ValBound(a, WIDTH);
    Step(a, i);
    Step(a0, i);
    if a[i] == 0 {
      Full(a0, i);
      Residue(Value(a0) + 1, Value(a), 1);
    } else {
      NextMultiple(a0[i] as nat, Place(i));
      ValTail(a0, a, i + 1, WIDTH, 1);
      Residue(Value(a0) + 1, Value(a), 0);
    }
  }

  lemma NextMultiple(x: nat, p: nat)
    ensures (x + 1) * p == x * p + p
  {
  }

  /** Equal upper limbs keep a difference of the lower ones. */
  lemma {:induction false} ValTail(s: seq<uint32>, t: seq<uint32>, m: nat, n: nat, d: int)
    requires m <= n <= |s| && n <= |t| && Val(t, m) == Val(s, m) + d
    requires forall j :: m <= j < n ==> s[j] == t[j]
    ensures Val(t, n) == Val(s, n) + d
  {
    if m < n {
      ValTail(s, t, m, n - 1, d);
    }
  }

  /** ~ */
  method Complement(a: array<uint32>) returns (r: array<uint32>)
    requires Is256(a)
    ensures Is256(r) && fresh(r) && V(r) == MODULUS - 1 - V(a)
  {
    r := new uint32[WIDTH](_ => 0);
    var i := 0;
    while i < WIDTH
      invariant 0 <= i <= WIDTH
      invariant Val(r[..], i) + Val(a[..], i) == Place(i) - 1
    {
      ghost var before := r[..];
      r[i] := (BASE - 1 - a[i] as int) as uint32;
      ComplementStep(before, r[..], a[..], i);
      i := i + 1;
    }
  }

  lemma ComplementStep(before: seq<uint32>, r: seq<uint32>, a: seq<uint32>, i: nat)
    requires i < |a| == |r| == |before| && r == before[i := (BASE - 1 - a[i] as int) as uint32]
    requires Val(before, i) + Val(a, i) == Place(i) - 1
    ensures Val(r, i + 1) + Val(a, i + 1) == Place(i + 1) - 1
  {
    ValSame(before, r, i);
    Step(r, i);
    Step(a, i);
    hide Val, Place;
    Plus(r[i] as nat, a[i] as nat, Place(i));
    assert (BASE - 1) * Place(i) + Place(i) == BASE * Place(i);
  }

  /** Unary minus: complement and increment. */
  method Negate(a: array<uint32>) returns (r: array<uint32>)
    requires Is256(a)
    ensures Is256(r) && fresh(r) && V(r) == (0 - V(a)) % MODULUS
  {
    hide Val, Place;
    r := Complement(a);
    Increment(r);
    ValBound(a[..], WIDTH);
    Opposite(V(a));
  }

  lemma Opposite(x: nat)
    requires x < MODULUS
    ensures (MODULUS - 1 - x + 1) % MODULUS == (0 - x) % MODULUS
  {
    if x == 0 {
      Residue(MODULUS, 0, 1);
      Residue(0, 0, 0);
    } else {
      Residue(MODULUS - x, MODULUS - x, 0);
      Residue(0 - x, MODULUS - x, -1);
    }
  }

  /** -=: add the negation. */
  method SubAssign(a: array<uint32>, b: array<uint32>)
    requires Is256(a) && Is256(b)
    modifies a
    ensures V(a) == (old(V(a)) - old(V(b))) % MODULUS
  {
    var n := Negate(b);
    ghost var x: nat, y: int := V(a), V(b);
    AddAssign(a, n);
    ModAdd(x, 0 - y);
  }

  lemma ModAdd(x: nat, y: int)
    ensures (x + y % MODULUS) % MODULUS == (x + y) % MODULUS
  {
    var m: nat := MODULUS;
    var q, r := y / m, y % m;
    assert y == q * m + r;
    var q', r' := (x + r) / m, (x + r) % m;
    assert x + r == q' * m + r' && 0 <= r' < m;
    assert x + y == r' + (q + q') * m;
    Residue(x + y, r', q + q');
    Residue(x + r, r', q');
  }

  // ---------------------------------------------------------------------------
  // Multiplication
  // ---------------------------------------------------------------------------

  lemma ProductFits(x: nat, y: nat)
    requires x < BASE && y < BASE
    ensures 0 <= x * y <= 0xFFFF_FFFE_0000_0001
  {
    MulMono(x, 0xFFFF_FFFF, y);
  }

  /** *= by a 32-bit factor. */
  method MulSmall(a: array<uint32>, f: uint32)
    requires Is256(a)
    modifies a
    ensures V(a) == (old(V(a)) * f as nat) % MODULUS
  {
    ghost var a0 := a[..];
    var carry: uint64 := 0;
    var i := 0;
    while i < WIDTH
      invariant 0 <= i <= WIDTH && carry as nat < BASE
      invariant forall j :: i <= j < WIDTH ==> a[j] == a0[j]
      invariant Val(a[..], i) + carry as nat * Place(i) == Val(a0, i) * f as nat
    {
      hide Val, Place, Low, High;
      ghost var before := a[..];
      ProductFits(f as nat, a[i] as nat);
      var n: uint64 := carry + f as uint64 * a[i] as uint64;
      Split(n);
      a[i] := Low(n);
      MulSmallStep(a0, before, a[..], i, carry as nat, f as nat, n);
      carry := High(n);
      i := i + 1;
    }
    ValBound(a[..], WIDTH);
    Residue(Value(a0) * f as nat, Value(a[..]), carry as int);
  }

  lemma MulSmallStep(a0: seq<uint32>, s: seq<uint32>, t: seq<uint32>, i: nat, carry: nat, f: nat, n: uint64)
    requires i < |s| == |t| == |a0| && s[i] == a0[i] && t == s[i := Low(n)]
    requires n as nat == carry + f * a0[i] as nat && Val(s, i) + carry * Place(i) == Val(a0, i) * f
    ensures Val(t, i + 1) + High(n) as nat * Place(i + 1) == Val(a0, i + 1) * f
  {
    Step(a0, i);
    hide Val, Place, Low, High;
    MulNat(Val(a0, i), f);
    MulNat(f, a0[i] as nat);
    Column(s, t, i, carry, f * a0[i] as nat, n, Val(a0, i) * f);
    MulColumn(Val(a0, i), a0[i] as nat, f, Place(i));
  }

  lemma MulColumn(x: nat, limb: nat, f: nat, place: nat)
    ensures (x + limb * place) * f == x * f + (f * limb) * place
  {
  }

  /**
   * *= by another number.  The source clears *this before it reads b, so multiplying a number
   * by itself in place gives 0.
   */
  method MulAssign(a: array<uint32>, b: array<uint32>)
    requires Is256(a) && Is256(b)
    modifies a
    ensures a != b ==> V(a) == (old(V(a)) * old(V(b))) % MODULUS
    ensures a == b ==> V(a) == 0
  {
    ghost var a0 := a[..];
    var copy := Copy(a);
    Clear(a);
    ghost var vb := V(b);
    ghost var k := 0;
    var j := 0;
    while j < WIDTH
      invariant 0 <= j <= WIDTH
      invariant copy[..] == a0 && (a != b ==> V(b) == vb)
      invariant a != b ==> V(a) + k * MODULUS == Val(a0, j) * vb
      invariant a == b ==> forall i :: 0 <= i < WIDTH ==> a[i] == 0
    {
      hide Val, Place;
      ghost var c := MulRow(a, b, copy[j], j);
      Step(a0, j);
      RowSum(Val(a0, j), a0[j] as nat, Place(j), vb, k, c, MODULUS);
      k := k + c;
      j := j + 1;
    }
    if a != b {
      ValBound(a[..], WIDTH);
      Residue(Value(a0) * vb, V(a), k);
    } else {
      ValZero(a[..], WIDTH);
    }
  }

  /** The copy constructor. */
  method Copy(a: array<uint32>) returns (r: array<uint32>)
    requires Is256(a)
    ensures Is256(r) && fresh(r) && r[..] == a[..]
  {
    r := new uint32[WIDTH](_ => 0);
    var i := 0;
    while i < WIDTH
      invariant 0 <= i <= WIDTH && forall j :: 0 <= j < i ==> r[j] == a[j]
    {
      r[i] := a[i];
      i := i + 1;
    }
  }

  /** *this = 0 */
  method Clear(a: array<uint32>)
    requires Is256(a)
    modifies a
    ensures V(a) == 0 && forall i :: 0 <= i < WIDTH ==> a[i] == 0
  {
    var i := 0;
    while i < WIDTH
      invariant 0 <= i <= WIDTH && forall j :: 0 <= j < i ==> a[j] == 0
    {
      a[i] := 0;
      i := i + 1;
    }
    ValZero(a[..], WIDTH);
  }

  lemma RowSum(x: nat, limb: nat, place: nat, v: nat, k: int, c: int, m: nat)
    ensures (x + limb * place) * v == x * v + limb * place * v
    ensures (k + c) * m == k * m + c * m
  {
  }

  /** One row of the schoolbook product: add f * b, shifted by `j` limbs, to the number. */
  method MulRow(a: array<uint32>, b: array<uint32>, f: uint32, j: nat) returns (ghost c: int)
    requires Is256(a) && Is256(b) && j < WIDTH
    modifies a
    ensures a != b ==> V(a) + c * MODULUS == old(V(a)) + f as nat * Place(j) * V(b)
    ensures a == b && (forall i :: 0 <= i < WIDTH ==> old(a[i]) == 0) ==> forall i :: 0 <= i < WIDTH ==> a[i] == 0
  {
    ghost var a0, b0 := a[..], b[..];
    var carry: uint64 := 0;
    var i := 0;
    while i + j < WIDTH
      invariant 0 <= i && i + j <= WIDTH && carry as nat < BASE
      invariant a != b ==> b[..] == b0 && a.Length == WIDTH
      invariant forall k :: i + j <= k < WIDTH ==> a[k] == a0[k]
      invariant a != b ==>
                  Val(a[..], i + j) + carry as nat * Place(i + j)
                  == Val(a0, i + j) + f as nat * Place(j) * Val(b0, i)
      invariant a == b && (forall i :: 0 <= i < WIDTH ==> a0[i] == 0) ==>
                  carry == 0 && forall i :: 0 <= i < WIDTH ==> a[i] == 0
    {
      hide Val, Place;
      ghost var before := a[..];
      ProductFits(f as nat, b[i] as nat);
      var n: uint64 := carry + a[i + j] as uint64 + f as uint64 * b[i] as uint64;
      Split(n);
      a[i + j] := Low(n);
      if a != b {
        RowColumn(a0, b0, before, a[..], i, j, f as nat, carry as nat, n);
      }
      carry := High(n);
      i := i + 1;
    }
    if a != b {
      hide Val, Place;
      ghost var h := HighPart(b0, i);
      c := RowEnd(f as nat, b0, h, i, j, carry as nat);
    } else {
      c := 0;
    }
  }

  lemma RowColumn(a0: seq<uint32>, b0: seq<uint32>, s: seq<uint32>, t: seq<uint32>, i: nat, j: nat, f: nat, carry: nat,
                  n: uint64)
    requires |a0| == |b0| == |s| == |t| == WIDTH && i + j < WIDTH && t == s[i + j := Low(n)]
    requires n as nat == carry + (a0[i + j] as nat + f * b0[i] as nat)
    requires Val(s, i + j) + carry * Place(i + j) == Val(a0, i + j) + f * Place(j) * Val(b0, i)
    ensures Val(t, i + j + 1) + High(n) as nat * Place(i + j + 1) == Val(a0, i + j + 1) + f * Place(j) * Val(b0, i + 1)
  {
    hide Val, Place, Low, High;
    var x, y, v := a0[i + j] as nat, b0[i] as nat, Val(b0, i);
    var total := Val(a0, i + j) + f * Place(j) * v;
    Column(s, t, i + j, carry, x + f * y, n, total);
    Step(a0, i + j);
    Step(b0, i);
    PlaceAdd(i, j);
    RowTerm(x, f, y, v, Place(i), Place(j));
  }

  lemma RowTerm(x: nat, f: nat, limb: nat, v: nat, pi: nat, pj: nat)
    ensures f * pj * v + (x + f * limb) * (pi * pj) == x * (pi * pj) + f * pj * (v + limb * pi)
  {
    Distribute(f * pj, v, limb * pi);
    assert f * pj * (limb * pi) == (f * limb) * (pi * pj);
  }

  lemma Distribute(x: nat, y: nat, z: nat)
    ensures x * (y + z) == x * y + x * z
  {
  }

  /** The limbs from `m` on contribute a multiple of Place(m). */
  lemma {:induction false} HighPartUpTo(s: seq<uint32>, m: nat, n: nat) returns (h: nat)
    requires m <= n <= |s|
    ensures Val(s, n) == Val(s, m) + h * Place(m)
  {
    if m == n {
      h := 0;
    } else {
      var h' := HighPartUpTo(s, m, n - 1);
      Step(s, n - 1);
      PlaceAdd(n - 1 - m, m);
      hide Val, Place;
      h := h' + s[n - 1] as nat * Place(n - 1 - m);
      Regroup(h', s[n - 1] as nat, Place(n - 1 - m), Place(m));
    }
  }

  lemma Regroup(x: nat, y: nat, z: nat, w: nat)
    ensures (x + y * z) * w == x * w + y * (z * w)
  {
  }

  lemma HighPart(s: seq<uint32>, m: nat) returns (h: nat)
    requires m <= |s|
    ensures Value(s) == Val(s, m) + h * Place(m)
  {
    h := HighPartUpTo(s, m, |s|);
  }

  /** What a row leaves beyond the eighth limb is a multiple of the modulus. */
  lemma RowEnd(f: nat, b: seq<uint32>, h: nat, i: nat, j: nat, carry: nat) returns (c: int)
    requires |b| == WIDTH && i + j == WIDTH && Value(b) == Val(b, i) + h * Place(i)
    ensures f * Place(j) * Val(b, i) - carry * Place(i + j) + c * MODULUS == f * Place(j) * Value(b)
  {
    PlaceAdd(i, j);
    hide Val, Place;
    c := carry + f * h;
    Distribute(f * Place(j), Val(b, i), h * Place(i));
    RowRest(f, h, Place(i), Place(j), carry);
  }

  lemma RowRest(f: nat, h: nat, pi: nat, pj: nat, carry: nat)
    ensures f * pj * (h * pi) == (f * h) * (pi * pj)
    ensures (carry + f * h) * (pi * pj) == carry * (pi * pj) + (f * h) * (pi * pj)
  {
  }
}
