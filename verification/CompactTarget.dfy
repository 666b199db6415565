/**
 * The compact encoding of targets, N = mantissa * 256^(exponent - 3) with a sign bit, and the
 * proof of work of a block (src/arith_uint256.cpp, src/block_index.cpp).
 */
module CompactTarget {
  import opened Limbs
  import opened Arithmetic
  import opened ArithUint256
  import opened Shifts
  import opened Division

  const SIGN_BIT := 0x80_0000

  /** 256^k */
  function Bytes(k: nat): (p: nat)
    ensures p >= 1
  {
    Pow2(8 * k)
  }

  function Exponent(c: uint32): nat { c as nat / 0x100_0000 }

  function Mantissa(c: uint32): nat { c as nat % SIGN_BIT }

  predicate Signed(c: uint32) { (c as nat / SIGN_BIT) % 2 == 1 }

  lemma DivNat(x: nat, d: nat)
    requires d >= 1
    ensures x / d >= 0
  {
    DivAtLeast(x, 0, d);
  }

  /** The magnitude a compact number stands for, without any bound. */
  function Decode(c: uint32): nat {
    Magnitude(Mantissa(c), Exponent(c))
  }

  function Magnitude(m: nat, e: nat): nat {
    if e <= 3 then DivNat(m, Bytes(3 - e)); m / Bytes(3 - e) else m * Bytes(e - 3)
  }

  // ---------------------------------------------------------------------------
  // Decoding
  // ---------------------------------------------------------------------------

  /** The limbs of a 32-bit number. */
  method Assign(a: array<uint32>, x: uint32)
    requires Is256(a)
    modifies a
    ensures V(a) == x as nat
  {
    Clear(a);
    ghost var zero := a[..];
    a[0] := x;
    assert a[..] == zero[0 := x];
    ValUpdate(zero, WIDTH, 0, x);
    assert Place(0) == 1;
  }

  /**
   * SetCompact.  Overflow is reported exactly if the magnitude needs more than 256 bits, and
   * "negative" exactly if the sign bit is set and the magnitude is not zero.
   */
  method SetCompact(a: array<uint32>, c: uint32) returns (negative: bool, overflow: bool)
    requires Is256(a)
    modifies a
    ensures V(a) == Decode(c) % MODULUS
    ensures overflow <==> Decode(c) >= MODULUS
    ensures negative <==> Signed(c) && Decode(c) != 0
  {
    var size := c as nat / 0x100_0000;
    var word := c as nat % SIGN_BIT;
    DecodeBounds(c);
    if size <= 3 {
      word := word / Pow2(8 * (3 - size));
      Assign(a, word as uint32);
      SmallFits(word);
      Residue(word, word, 0);
    } else {
      Assign(a, word as uint32);
      ShiftLeft(a, 8 * (size - 3));
    }
    negative := word != 0 && (c as nat / SIGN_BIT) % 2 == 1;
    overflow := word != 0 && (size > 34 || (word > 0xff && size > 33) || (word > 0xffff && size > 32));
    if size > 3 {
      OverflowExact(word, size);
    }
  }

  lemma DecodeBounds(c: uint32)
    ensures Mantissa(c) < SIGN_BIT && Exponent(c) < 256
    ensures Exponent(c) <= 3 ==> Decode(c) == Mantissa(c) / Pow2(8 * (3 - Exponent(c))) <= Mantissa(c)
    ensures Exponent(c) > 3 ==> Decode(c) == Mantissa(c) * Pow2(8 * (Exponent(c) - 3))
  {
    if Exponent(c) <= 3 {
      var p := Pow2(8 * (3 - Exponent(c)));
      MulMono(1, p, Mantissa(c) + 1);
      assert Mantissa(c) < (Mantissa(c) + 1) * p;
      DivLess(Mantissa(c), Mantissa(c) + 1, p);
    }
  }

  lemma SmallFits(x: nat)
    requires x < SIGN_BIT
    ensures x < MODULUS
  {
    ModulusIsPow2();
    Pow2Mono(32, 256);
    Pow2At32();
  }

  /** The three tests of the source are exactly "at least 2^256". */
  lemma OverflowExact(word: nat, size: nat)
    requires word < SIGN_BIT && size > 3
    ensures (word != 0 && (size > 34 || (word > 0xff && size > 33) || (word > 0xffff && size > 32)))
            <==> word * Pow2(8 * (size - 3)) >= MODULUS
    ensures word * Pow2(8 * (size - 3)) != 0 <==> word != 0
  {
    hide Pow2;
    ModulusIsPow2();
    Pow2Values();
    var s := 8 * (size - 3);
    if size > 34 {
      Pow2Mono(256, s);
      if word > 0 {
        MulMono(1, word, Pow2(s));
      }
    } else if size == 34 {
      Pow2Add(8, 248);
      Threshold(word, 256, Pow2(248));
    } else if size == 33 {
      Pow2Add(16, 240);
      Threshold(word, 0x1_0000, Pow2(240));
    } else {
      Pow2Add(24, 232);
      Pow2Mono(s, 232);
      MulMono(Pow2(s), Pow2(232), word);
      BelowProduct(word, 0x100_0000, Pow2(232));
    }
    NonZeroProduct(word, Pow2(s));
  }

  lemma NonZeroProduct(x: nat, p: nat)
    requires p >= 1
    ensures x * p != 0 <==> x != 0
  {
    MulMono(1, p, x);
  }

  lemma Pow2Values()
    ensures Pow2(8) == 0x100 && Pow2(16) == 0x1_0000 && Pow2(24) == 0x100_0000
  {
    assert Pow2(8) == 256;
    Pow2Add(8, 8);
    Pow2Add(16, 8);
  }

  lemma Threshold(x: nat, y: nat, p: nat)
    requires p >= 1
    ensures x * p >= y * p <==> x >= y
  {
    if x < y {
      BelowProduct(x, y, p);
    } else {
      MulMono(y, x, p);
    }
  }

  // ---------------------------------------------------------------------------
  // Encoding
  // ---------------------------------------------------------------------------

  /** The number of bytes of a number: 256^(s-1) <= n < 256^s, or 0 for 0. */
  ghost predicate ByteLength(n: nat, s: nat) {
    if n == 0 then s == 0 else s >= 1 && Bytes(s - 1) <= n < Bytes(s)
  }

  lemma ByteFromBit(n: nat, bits: nat)
    requires BitLength(n, bits)
    ensures ByteLength(n, (bits + 7) / 8)
  {
    var s := (bits + 7) / 8;
    if n > 0 {
      Pow2Mono(8 * (s - 1), bits - 1);
      Pow2Mono(bits, 8 * s);
    }
  }

  /** The leading three bytes of a number of `s` bytes. */
  function Leading(n: nat, s: nat): nat {
    if s <= 3 then n * Bytes(3 - s) else DivNat(n, Bytes(s - 3)); n / Bytes(s - 3)
  }

  /** Mantissa and exponent of a number of `s` bytes: the sign bit must stay free. */
  function Normal(n: nat, s: nat): (nat, nat) {
    var m := Leading(n, s);
    if m >= SIGN_BIT then (m / 256, s + 1) else (m, s)
  }

  /** The compact form of a number of `s` bytes. */
  function Encode(n: nat, s: nat, negative: bool): nat {
    var (m, e) := Normal(n, s);
    m + e * 0x100_0000 + (if negative && m != 0 then SIGN_BIT else 0)
  }

  lemma LeadingBounds(n: nat, s: nat)
    requires ByteLength(n, s)
    ensures Leading(n, s) < 0x100_0000 && (n > 0 ==> Leading(n, s) >= 0x1_0000)
    ensures s <= 3 ==> n == Leading(n, s) / Bytes(3 - s)
    ensures s > 3 ==> Leading(n, s) * Bytes(s - 3) <= n < Leading(n, s) * Bytes(s - 3) + Bytes(s - 3)
  {
    hide Pow2;
    if n == 0 {
      DivUnique(0, Bytes(3), 0, 0);
    } else if s <= 3 {
      LeadingShort(n, s);
    } else {
      LeadingLong(n, s);
    }
  }

  lemma LeadingShort(n: nat, s: nat)
    requires 1 <= s <= 3 && Bytes(s - 1) <= n < Bytes(s)
    ensures 0x1_0000 <= n * Bytes(3 - s) < 0x100_0000 && n == n * Bytes(3 - s) / Bytes(3 - s)
  {
    hide Pow2;
    Pow2Values();
    Pow2Add(8 * s, 8 * (3 - s));
    Pow2Add(8 * (s - 1), 8 * (3 - s));
    assert 8 * (s - 1) + 8 * (3 - s) == 16 && 8 * s + 8 * (3 - s) == 24;
    var p := Bytes(3 - s);
    BelowProduct(n, Bytes(s), p);
    MulMono(Bytes(s - 1), n, p);
    DivUnique(n * p, p, n, 0);
  }

  lemma LeadingLong(n: nat, s: nat)
    requires s > 3 && Bytes(s - 1) <= n < Bytes(s)
    ensures 0x1_0000 <= Leading(n, s) < 0x100_0000
    ensures Leading(n, s) * Bytes(s - 3) <= n < Leading(n, s) * Bytes(s - 3) + Bytes(s - 3)
  {
    hide Pow2;
    Pow2Values();
    Pow2Add(24, 8 * (s - 3));
    Pow2Add(16, 8 * (s - 3));
    assert 24 + 8 * (s - 3) == 8 * s && 16 + 8 * (s - 3) == 8 * (s - 1);
    var p := Bytes(s - 3);
    DivLess(n, 0x100_0000, p);
    DivAtLeast(n, 0x1_0000, p);
    DivRemainder(n, p);
  }

  lemma DivRemainder(n: nat, p: nat)
    requires p >= 1
    ensures (n / p) * p <= n < (n / p) * p + p
  {
    var q, r := n / p, n % p;
    assert n == q * p + r && 0 <= r < p;
  }

  /** Decoding the normal form gives back the number without its lowest bytes. */
  lemma NormalDecodes(n: nat, s: nat)
    requires ByteLength(n, s)
    ensures var (m, e) := Normal(n, s);
            && m < SIGN_BIT && e <= s + 1
            && (n > 0 ==> m >= 0x8000)
            && Magnitude(m, e) <= n
            && (e <= 3 ==> Magnitude(m, e) == n)
            && (e > 3 ==> n < Magnitude(m, e) + Bytes(e - 3))
  {
    LeadingBounds(n, s);
    var l := Leading(n, s);
    var (m, e) := Normal(n, s);
    hide Leading, Pow2;
    if l >= SIGN_BIT {
      assert l == 256 * m + l % 256;
      if s < 3 {
        ShiftedSmall(n, s, l);
      } else {
        ShiftedLarge(n, s, l);
      }
    } else if s == 3 {
      assert Bytes(0) == 1 by { Pow2Zero(); }
    }
  }

  lemma Pow2Zero()
    ensures Pow2(0) == 1
  {
  }

  /** A short number shifted by one more byte loses only zero bytes. */
  lemma ShiftedSmall(n: nat, s: nat, l: nat)
    requires s < 3 && l == n * Bytes(3 - s)
    ensures Magnitude(l / 256, s + 1) == n
  {
    hide Pow2;
    Pow2Values();
    Pow2Add(8, 8 * (2 - s));
    assert 8 + 8 * (2 - s) == 8 * (3 - s);
    var p := Bytes(2 - s);
    Reassociate(n, p);
    DivUnique(l, 256, n * p, 0);
    DivUnique(n * p, p, n, 0);
  }

  lemma Reassociate(n: nat, p: nat)
    ensures n * (256 * p) == (n * p) * 256
  {
  }

  lemma ShiftedLarge(n: nat, s: nat, l: nat)
    requires s >= 3 && (s == 3 ==> n == l / Bytes(0))
    requires s > 3 ==> l * Bytes(s - 3) <= n < l * Bytes(s - 3) + Bytes(s - 3)
    ensures Magnitude(l / 256, s + 1) <= n < Magnitude(l / 256, s + 1) + Bytes(s - 2)
  {
    Pow2Values();
    Pow2Zero();
    Pow2Add(8, 8 * (s - 3));
    var p, m, r := Bytes(s - 3), l / 256, l % 256;
    assert l == 256 * m + r && l * p <= n < l * p + p;
    hide Pow2;
    assert Bytes(s - 2) == 256 * p;
    ShiftedSum(m, r, p, n);
  }

  lemma ShiftedSum(m: nat, r: nat, p: nat, n: nat)
    requires r < 256 && (256 * m + r) * p <= n < (256 * m + r) * p + p
    ensures m * (256 * p) <= n < m * (256 * p) + 256 * p
  {
    assert (256 * m + r) * p == m * (256 * p) + r * p;
    MulMono(r + 1, 256, p);
    NextMultiple(r, p);
  }

  /**
   * Encoding rounds down with a relative error below 2^-15.
   */
  lemma RoundingError(n: nat, s: nat)
    requires n > 0 && ByteLength(n, s)
    ensures var (m, e) := Normal(n, s);
            var d := Magnitude(m, e);
            d <= n && (n - d) * 0x8000 < d
  {
    NormalDecodes(n, s);
    var (m, e) := Normal(n, s);
    hide Normal, Leading;
    if e > 3 {
      var p := Bytes(e - 3);
      hide Pow2;
      MulMono(0x8000, m, p);
    }
  }

  /** A number with at most 23 significant bits at a byte boundary survives encoding exactly. */
  lemma Lossless(c: uint32, s: nat)
    requires ByteLength(Decode(c), s)
    ensures var (m, e) := Normal(Decode(c), s); Magnitude(m, e) == Decode(c)
  {
    var n := Decode(c);
    DecodeBounds(c);
    NormalDecodes(n, s);
    var (m, e) := Normal(n, s);
    if n > 0 && e > 3 {
      hide Normal, Leading, Decode;
      ExponentAtMost(n, m, e, Mantissa(c), Exponent(c));
    }
  }

  /** The normal exponent is not larger than that of any other encoding of the number. */
  lemma ExponentAtMost(n: nat, m: nat, e: nat, m0: nat, e0: nat)
    requires n > 0 && e > 3 && m0 < SIGN_BIT && n == Magnitude(m0, e0) && (e0 <= 3 ==> n <= m0)
    requires 0x8000 <= m && Magnitude(m, e) <= n < Magnitude(m, e) + Bytes(e - 3)
    ensures Magnitude(m, e) == n
  {
    Pow2Values();
    var p := Bytes(e - 3);
    if e0 < e {
      ExponentTooSmall(n, m, e, m0, e0);
      assert false;
    } else {
      Pow2Add(8 * (e0 - e), 8 * (e - 3));
      assert 8 * (e0 - e) + 8 * (e - 3) == 8 * (e0 - 3);
      var q := Pow2(8 * (e0 - e));
      hide Pow2;
      assert n == (m0 * q) * p by { assert m0 * (q * p) == m0 * q * p; }
      SameMultiple(m, m0 * q, p);
    }
  }

  lemma SameMultiple(a: nat, b: nat, p: nat)
    requires p >= 1 && a * p <= b * p < a * p + p
    ensures a == b
  {
    NextMultiple(a, p);
    Threshold(b, a, p);
    Threshold(b, a + 1, p);
  }

  /** With 23 bits and a smaller exponent the number is smaller. */
  lemma ExponentTooSmall(n: nat, m: nat, e: nat, m0: nat, e0: nat)
    requires e > 3 && e0 < e && m0 < SIGN_BIT && n == Magnitude(m0, e0) && (e0 <= 3 ==> n <= m0)
    requires 0x8000 <= m
    ensures n < Magnitude(m, e)
  {
    Pow2Values();
    Pow2Add(8, 8 * (e - 4));
    var r := Bytes(e - 4);
    assert Bytes(e - 3) == 256 * r;
    if e0 > 3 {
      Pow2Mono(8 * (e0 - 3), 8 * (e - 4));
      MulMono(Bytes(e0 - 3), r, m0);
    } else {
      MulMono(1, r, m0);
    }
    assert n <= m0 * r;
    hide Pow2;
    BelowProduct(m0, SIGN_BIT, r);
    MulMono(0x8000, m, 256 * r);
  }

  /**
   * GetCompact.  The result is the normal form of the value, and the source's assertions on
   * the mantissa and the size hold.
   */
  method GetCompact(a: array<uint32>, negative: bool) returns (c: uint32, ghost s: nat)
    requires Is256(a)
    ensures ByteLength(V(a), s) && c as nat == Encode(V(a), s, negative)
    ensures Mantissa(c) == Normal(V(a), s).0 && Exponent(c) == Normal(V(a), s).1
    ensures Signed(c) <==> negative && Mantissa(c) != 0
  {
    ghost var n := V(a);
    var bits := Bits(a);
    var size := (bits + 7) / 8;
    s := size;
    ByteFromBit(n, bits);
    LeadingBounds(n, size);
    NormalDecodes(n, size);
    hide Pow2, Value;
    var compact: nat;
    if size <= 3 {
      ShortValue(a[..], size);
      compact := a[0] as nat * Pow2(8 * (3 - size));
    } else {
      var bn := Copy(a);
      ShiftRight(bn, 8 * (size - 3));
      LowLimb(bn[..]);
      compact := bn[0] as nat;
    }
    assert compact == Leading(n, size);
    if compact >= SIGN_BIT {
      compact := compact / 256;
      size := size + 1;
    }
    assert compact < SIGN_BIT;
    assert size < 256;
    var code := compact + size * 0x100_0000 + (if negative && compact != 0 then SIGN_BIT else 0);
    Fields(compact, size, negative && compact != 0);
    c := code as uint32;
  }

  /** A value below 2^32 is its lowest limb. */
  lemma LowLimb(x: seq<uint32>)
    requires |x| == WIDTH && Value(x) < BASE
    ensures x[0] as nat == Value(x)
  {
    var h := HighPart(x, 1);
    assert Val(x, 1) == x[0] as nat && Place(1) == BASE;
    assert h >= 1 ==> h * BASE >= BASE;
  }

  lemma ShortValue(x: seq<uint32>, s: nat)
    requires |x| == WIDTH && s <= 3 && ByteLength(Value(x), s)
    ensures x[0] as nat == Value(x)
  {
    Pow2At32();
    Pow2Mono(8 * s, 32);
    LowLimb(x);
  }

  /** Mantissa, sign and exponent can be read back. */
  lemma Fields(m: nat, e: nat, signed: bool)
    requires m < SIGN_BIT && e < 256
    ensures var c := m + e * 0x100_0000 + (if signed then SIGN_BIT else 0);
            && c < BASE && Mantissa(c as uint32) == m && Exponent(c as uint32) == e && (Signed(c as uint32) <==> signed)
  {
  }

  // ---------------------------------------------------------------------------
  // Proof of work
  // ---------------------------------------------------------------------------

  /** No representable target is 2^256 - 1, so target + 1 does not wrap to 0. */
  lemma TargetNotMax(c: uint32)
    requires Decode(c) < MODULUS
    ensures Decode(c) + 1 < MODULUS
  {
    hide Pow2;
    DecodeBounds(c);
    ModulusIsPow2();
    if Exponent(c) <= 3 {
      Pow2Mono(32, 256);
      Pow2At32();
    } else {
      var k := 8 * (Exponent(c) - 3);
      Pow2Double(k - 1);
      Pow2Double(255);
      Twice(Mantissa(c), Pow2(k - 1));
    }
  }

  lemma Twice(m: nat, p: nat)
    ensures m * (2 * p) == 2 * (m * p)
  {
  }

  /** ~t / (t + 1) + 1 is 2^256 / (t + 1). */
  lemma ProofFormula(t: nat)
    requires 1 <= t && t + 1 < MODULUS
    ensures (MODULUS - 1 - t) / (t + 1) + 1 == MODULUS / (t + 1) < MODULUS
  {
    var m: nat := MODULUS;
    var d := t + 1;
    var q, r := (m - d) / d, (m - d) % d;
    assert m - d == q * d + r;
    assert (q + 1) * d == q * d + d;
    DivUnique(m, d, q + 1, r);
    assert q + 1 >= m ==> (q + 1) * d >= m * 2 by { MulMono(2, d, q + 1); }
  }

  /**
   * GetBlockProof: 0 for a negative, overflowing or zero target, otherwise 2^256 / (target + 1);
   * the division by zero of operator/= does not occur.
   */
  method GetBlockProof(bits: uint32) returns (proof: array<uint32>)
    ensures Is256(proof) && fresh(proof)
    ensures V(proof) == if Signed(bits) || Decode(bits) == 0 || Decode(bits) >= MODULUS then 0
                        else MODULUS / (Decode(bits) + 1)
  {
    hide Value, Decode, Pow2, Place;
    var target := new uint32[WIDTH](_ => 0);
    var negative, overflow := SetCompact(target, bits);
    var zero := new uint32[WIDTH](_ => 0);
    Assign(zero, 0);
    if !overflow {
      Residue(Decode(bits), Decode(bits), 0);
    }
    var isZero := Compare(target, zero);
    if negative || overflow || isZero == 0 {
      return zero;
    }
    TargetNotMax(bits);
    proof := Inverse(target);
  }

  /** ~t / (t + 1) + 1 */
  method Inverse(target: array<uint32>) returns (proof: array<uint32>)
    requires Is256(target) && 1 <= V(target) && V(target) + 1 < MODULUS
    modifies target
    ensures Is256(proof) && fresh(proof) && V(proof) == MODULUS / (old(V(target)) + 1)
  {
    hide Value, Place;
    ghost var t := V(target);
    ProofFormula(t);
    var one := new uint32[WIDTH](_ => 0);
    Assign(one, 1);
    proof := Complement(target);
    AddAssign(target, one);
    Residue(t + 1, t + 1, 0);
    var ok := Divide(proof, target);
    assert ok;
    AddAssign(proof, one);
    Residue(MODULUS / (t + 1), MODULUS / (t + 1), 0);
  }
}
