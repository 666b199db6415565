/** Comparison, bit length and shift-subtract division (src/arith_uint256.cpp). */
module Division {
  import opened Limbs
  import opened Arithmetic
  import opened ArithUint256
  import opened Shifts

  // ---------------------------------------------------------------------------
  // Comparison
  // ---------------------------------------------------------------------------

  /** The highest differing limb decides. */
  lemma LimbDecides(s: seq<uint32>, t: seq<uint32>, i: nat)
    requires |s| == |t| == WIDTH && i < WIDTH && s[i] < t[i]
    requires forall j :: i < j < WIDTH ==> s[j] == t[j]
    ensures Value(s) < Value(t)
  {
    ValBound(s, i);
    Step(s, i);
    Step(t, i);
    hide Val, Place;
    MulMono(s[i] as nat + 1, t[i] as nat, Place(i));
    NextMultiple(s[i] as nat, Place(i));
    ValTail(s, t, i + 1, WIDTH, Val(t, i + 1) - Val(s, i + 1));
  }

  /** CompareTo: the sign of the difference. */
  method Compare(a: array<uint32>, b: array<uint32>) returns (r: int)
    requires Is256(a) && Is256(b)
    ensures -1 <= r <= 1
    ensures (r < 0 <==> V(a) < V(b)) && (r == 0 <==> V(a) == V(b)) && (r > 0 <==> V(a) > V(b))
  {
    var i := WIDTH - 1;
    while i >= 0
      invariant -1 <= i < WIDTH
      invariant forall j :: i < j < WIDTH ==> a[j] == b[j]
    {
      if a[i] < b[i] {
        LimbDecides(a[..], b[..], i);
        return -1;
      }
      if a[i] > b[i] {
        LimbDecides(b[..], a[..], i);
        return 1;
      }
      i := i - 1;
    }
    assert a[..] == b[..];
    return 0;
  }

  // ---------------------------------------------------------------------------
  // Bit length
  // ---------------------------------------------------------------------------

  /** `n` is the position of the highest set bit of `x`, plus one; 0 for 0. */
  ghost predicate BitLength(x: nat, n: nat) {
    if x == 0 then n == 0 else n >= 1 && Pow2(n - 1) <= x < Pow2(n)
  }

  /** The highest set bit of a limb. */
  method LimbBits(x: uint32) returns (n: nat)
    requires x != 0
    ensures 1 <= n <= 32 && BitLength(x as nat, n)
  {
    var bits := 31;
    Pow2At32();
    while bits > 0
      invariant 0 <= bits <= 31 && x as nat < Pow2(bits + 1)
    {
      TopBit(x as nat, Pow2(bits));
      if (x as nat / Pow2(bits)) % 2 == 1 {
        return bits + 1;
      }
      bits := bits - 1;
    }
    return 1;
  }

  lemma TopBit(x: nat, p: nat)
    requires p >= 1 && x < 2 * p
    ensures (x / p) % 2 == 1 <==> p <= x
  {
    if p <= x {
      DivUnique(x, p, 1, x - p);
    } else {
      DivUnique(x, p, 0, x);
    }
  }

  method Bits(a: array<uint32>) returns (n: nat)
    requires Is256(a)
    ensures BitLength(V(a), n) && n <= 256
  {
    var pos := WIDTH - 1;
    while pos >= 0
      invariant -1 <= pos < WIDTH
      invariant forall j :: pos < j < WIDTH ==> a[j] == 0
    {
      if a[pos] != 0 {
        var m := LimbBits(a[pos]);
        BitsAt(a[..], pos, m);
        return 32 * pos + m;
      }
      pos := pos - 1;
    }
    ValZero(a[..], WIDTH);
    return 0;
  }

  lemma BitsAt(s: seq<uint32>, pos: nat, m: nat)
    requires |s| == WIDTH && pos < WIDTH && s[pos] != 0 && 1 <= m <= 32 && BitLength(s[pos] as nat, m)
    requires forall j :: pos < j < WIDTH ==> s[j] == 0
    ensures BitLength(Value(s), 32 * pos + m)
  {
    hide Val, Place, Pow2;
    TopLimb(s, pos);
    Step(s, pos);
    ValBound(s, pos);
    PlaceIsPow2(pos);
    Pow2Add(m - 1, 32 * pos);
    Pow2Add(m, 32 * pos);
    assert 32 * pos + m - 1 == m - 1 + 32 * pos && 32 * pos + m == m + 32 * pos;
    Enclosed(s[pos] as nat, Pow2(m - 1), Pow2(m), Place(pos), Val(s, pos));
  }

  lemma Enclosed(x: nat, lo: nat, hi: nat, place: nat, rest: nat)
    requires 1 <= lo <= x < hi && rest < place
    ensures 1 <= lo * place <= rest + x * place < hi * place
  {
    MulMono(lo, x, place);
    MulMono(1, lo, place);
    MulMono(x + 1, hi, place);
    NextMultiple(x, place);
  }

  /** Zero limbs at the top do not count. */
  lemma TopLimb(s: seq<uint32>, pos: nat)
    requires |s| == WIDTH && pos < WIDTH && forall j :: pos < j < WIDTH ==> s[j] == 0
    ensures Value(s) == Val(s, pos + 1)
  {
    var zero := seq(WIDTH, _ => 0 as uint32);
    ValZero(zero, WIDTH);
    ValZero(zero, pos + 1);
    ValTail(zero, s, pos + 1, WIDTH, Val(s, pos + 1));
  }

  // ---------------------------------------------------------------------------
  // Division
  // ---------------------------------------------------------------------------

  lemma ModulusIsPow2()
    ensures MODULUS == Pow2(256)
  {
    PlaceIsPow2(WIDTH);
  }

  /** A divisor with fewer bits can be aligned with the numerator without overflow. */
  lemma Align(va: nat, vb: nat, nb: nat, db: nat)
    requires BitLength(va, nb) && BitLength(vb, db) && 1 <= db <= nb <= 256
    ensures vb * Pow2(nb - db) < MODULUS
    ensures va < vb * Pow2(nb - db + 1)
  {
    hide Pow2;
    var shift := nb - db;
    ModulusIsPow2();
    Pow2Add(db, shift);
    Pow2Add(db - 1, shift + 1);
    assert db + shift == nb && db - 1 + (shift + 1) == nb;
    Pow2Mono(nb, 256);
    BelowProduct(vb, Pow2(db), Pow2(shift));
    MulMono(Pow2(db - 1), vb, Pow2(shift + 1));
  }

  lemma BelowProduct(x: nat, y: nat, p: nat)
    requires x < y && p >= 1
    ensures x * p < y * p
  {
    MulMono(x + 1, y, p);
    NextMultiple(x, p);
  }

  ghost predicate MultipleOf(x: nat, p: nat) {
    exists m: nat :: x == m * p
  }

  /** Quotient bits below position `shift` are not set yet. */
  ghost predicate BitsClearBelow(q: seq<uint32>, shift: int) {
    && |q| == WIDTH && -1 <= shift < 256
    && (shift >= 0 ==>
          && (forall j :: 0 <= j < shift / 32 ==> q[j] == 0)
          && MultipleOf(q[shift / 32] as nat, Pow2(shift % 32 + 1)))
  }

  /** Setting quotient bit `shift` adds 2^shift. */
  lemma SetBit(q: seq<uint32>, shift: nat)
    requires BitsClearBelow(q, shift)
    ensures var x := BitOr(q[shift / 32] as nat, Pow2(shift % 32));
            && x < BASE && MultipleOf(x, Pow2(shift % 32))
            && Value(q[shift / 32 := x as uint32]) == Value(q) + Pow2(shift)
  {
    hide Val, Place, Pow2, BitOr;
    var j, t := shift / 32, shift % 32;
    OrBit(q[j] as nat, t);
    var x := BitOr(q[j] as nat, Pow2(t));
    ValUpdate(q, WIDTH, j, x as uint32);
    ShiftSplit(shift);
    Plus(q[j] as nat, Pow2(t), Place(j));
  }

  lemma OrBit(x: nat, t: nat)
    requires t < 32 && x < BASE && MultipleOf(x, Pow2(t + 1))
    ensures BitOr(x, Pow2(t)) == x + Pow2(t) < BASE && MultipleOf(x + Pow2(t), Pow2(t))
  {
    hide Pow2, BitOr;
    var m: nat :| x == m * Pow2(t + 1);
    Pow2Double(t);
    OrAdds(Pow2(t), m, t + 1);
    SetFits(m, t);
    OddMultiple(m, Pow2(t));
  }

  lemma Pow2Double(t: nat)
    ensures Pow2(t + 1) == 2 * Pow2(t) && Pow2(t) < Pow2(t + 1)
  {
  }

  lemma OddMultiple(m: nat, p: nat)
    ensures MultipleOf(m * (2 * p) + p, p) && MultipleOf(m * (2 * p), p)
  {
    assert m * (2 * p) + p == (2 * m + 1) * p;
    assert m * (2 * p) == (2 * m) * p;
  }

  lemma SetFits(m: nat, t: nat)
    requires t < 32 && m * Pow2(t + 1) < BASE
    ensures m * Pow2(t + 1) + Pow2(t) < BASE
  {
    var p, r := Pow2(t + 1), Pow2(31 - t);
    Pow2At32();
    Pow2Add(t + 1, 31 - t);
    assert p * r == BASE;
    DivLess(m * p, r, p) by { assert r * p == p * r; }
    DivUnique(m * p, p, m, 0);
    MulMono(m + 1, r, p);
    NextMultiple(m, p);
    assert Pow2(t) < p;
  }

  /** Moving on to the next lower quotient bit. */
  lemma NextBit(q: seq<uint32>, shift: nat)
    requires |q| == WIDTH && shift < 256 && (forall j :: 0 <= j < shift / 32 ==> q[j] == 0)
    requires MultipleOf(q[shift / 32] as nat, Pow2(shift % 32))
    ensures BitsClearBelow(q, shift - 1)
  {
    if shift % 32 == 0 {
      if shift > 0 {
        assert q[shift / 32 - 1] as nat == 0 * Pow2((shift - 1) % 32 + 1);
      }
    } else {
      assert (shift - 1) / 32 == shift / 32 && (shift - 1) % 32 + 1 == shift % 32;
    }
  }

  lemma WeakerMultiple(q: seq<uint32>, shift: nat)
    requires BitsClearBelow(q, shift)
    ensures MultipleOf(q[shift / 32] as nat, Pow2(shift % 32))
  {
    hide Pow2;
    var t := shift % 32;
    var m: nat :| q[shift / 32] as nat == m * Pow2(t + 1);
    Pow2Double(t);
    OddMultiple(m, Pow2(t));
  }

  /** /=.  Dividing by zero fails, and has cleared the number by then. */
  method Divide(a: array<uint32>, b: array<uint32>) returns (ok: bool)
    requires Is256(a) && Is256(b)
    modifies a
    ensures ok <==> old(V(b)) != 0
    ensures ok ==> V(a) == old(V(a)) / old(V(b))
    ensures !ok ==> V(a) == 0
  {
    hide Value, Pow2;
    ghost var va, vb := V(a), V(b);
    var div := Copy(b);
    var num := Copy(a);
    Clear(a);
    var numBits := Bits(num);
    var divBits := Bits(div);
    if divBits == 0 {
      return false;
    }
    if divBits > numBits {
      SmallerBits(va, vb, numBits, divBits);
      return true;
    }
    Align(va, vb, numBits, divBits);
    var shift := numBits - divBits;
    ShiftLeft(div, shift);
    Residue(vb * Pow2(shift), vb * Pow2(shift), 0);
    ClearStart(a[..], shift);
    Subtract(a, num, div, shift, va, vb);
    return true;
  }

  /** The loop of /=: subtract the divisor, shifted less and less, from the numerator. */
  method Subtract(a: array<uint32>, num: array<uint32>, div: array<uint32>, start: nat, ghost va: nat, ghost vb: nat)
    requires Is256(a) && Is256(num) && Is256(div) && a != num && a != div && num != div
    requires start < 256 && vb > 0 && V(a) == 0 && BitsClearBelow(a[..], start)
    requires V(div) == vb * Pow2(start) && V(num) == va < vb * Pow2(start + 1)
    modifies a, num, div
    ensures V(a) == va / vb
  {
    var shift: int := start;
    while shift >= 0
      invariant -1 <= shift < 256
      invariant shift >= 0 ==> V(div) == vb * Pow2(shift)
      invariant V(num) + V(a) * vb == va && V(num) < vb * Pow2(shift + 1)
      invariant BitsClearBelow(a[..], shift)
    {
      hide Value, Pow2, BitOr, BitsClearBelow;
      Reduce(a, num, div, shift, vb);
      ShiftRight(div, 1);
      HalfPower(vb, shift);
      shift := shift - 1;
    }
    assert Pow2(0) == 1;
    DivUnique(va, vb, V(a), V(num));
  }

  /** The body of the loop of /= before the divisor is shifted back. */
  method Reduce(a: array<uint32>, num: array<uint32>, div: array<uint32>, shift: nat, ghost vb: nat)
    requires Is256(a) && Is256(num) && Is256(div) && a != num && a != div && num != div
    requires BitsClearBelow(a[..], shift) && V(div) == vb * Pow2(shift) && V(num) < vb * Pow2(shift + 1)
    modifies a, num
    ensures V(num) + V(a) * vb == old(V(num)) + old(V(a)) * vb && V(num) < vb * Pow2(shift)
    ensures BitsClearBelow(a[..], shift - 1) && V(div) == old(V(div))
  {
    hide Val, Place, Pow2, BitOr;
    WeakerMultiple(a[..], shift);
    DoublePower(vb, shift);
    var c := Compare(num, div);
    if c >= 0 {
      ValBound(num[..], WIDTH);
      Residue(V(num) - V(div), V(num) - V(div), 0);
      SubAssign(num, div);
      SetBit(a[..], shift);
      ghost var before := a[..];
      Plus(V(a), Pow2(shift), vb);
      a[shift / 32] := BitOr(a[shift / 32] as nat, Pow2(shift % 32)) as uint32;
      assert a[..] == before[shift / 32 := a[shift / 32]];
    }
    NextBit(a[..], shift);
  }

  lemma DoublePower(vb: nat, shift: nat)
    ensures vb * Pow2(shift + 1) == 2 * (vb * Pow2(shift)) && Pow2(shift) * vb == vb * Pow2(shift)
  {
    assert vb * (2 * Pow2(shift)) == 2 * (vb * Pow2(shift));
  }

  lemma HalfPower(vb: nat, shift: nat)
    ensures shift > 0 ==> vb * Pow2(shift) / Pow2(1) == vb * Pow2(shift - 1)
  {
    assert Pow2(1) == 2;
    if shift > 0 {
      DoublePower(vb, shift - 1);
    }
  }

  lemma ClearStart(q: seq<uint32>, shift: nat)
    requires |q| == WIDTH && shift < 256 && forall j :: 0 <= j < WIDTH ==> q[j] == 0
    ensures BitsClearBelow(q, shift)
  {
    assert q[shift / 32] as nat == 0 * Pow2(shift % 32 + 1);
  }

  lemma SmallerBits(va: nat, vb: nat, nb: nat, db: nat)
    requires BitLength(va, nb) && BitLength(vb, db) && db > nb
    ensures vb > 0 && va / vb == 0
  {
    Pow2Mono(nb, db - 1);
    assert va < vb;
    DivUnique(va, vb, 0, va);
  }
}
