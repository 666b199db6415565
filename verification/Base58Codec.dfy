/** The buffers and loops of src/base58.cpp, against the functions of module Base58. */
module Base58Codec {
  import opened Wrappers
  import opened Arithmetic
  import opened Radix
  import opened Base58Alphabet
  import opened Base58

  // ---------------------------------------------------------------------------
  // The carry loop
  // ---------------------------------------------------------------------------

  /** One digit of the carry loop. */
  lemma CarryStep(base: nat, mul: nat, add: nat, carry: nat, d: nat, p: nat, now: nat, was: nat)
    requires base >= 1 && now + carry * p == was * mul + add
    ensures var c := carry + mul * d;
            ((c % base) * p + now) + (c / base) * (base * p) == (d * p + was) * mul + add
  {
    var c := carry + mul * d;
    var q, r := c / base, c % base;
    assert c == q * base + r;
    Associate(q, base, p);
    SplitTimes(q * base, r, p);
    SplitTimes(carry, mul * d, p);
    SplitTimes(d * p, was, mul);
    Reorder(mul, d, p);
  }

  lemma SplitTimes(x: nat, y: nat, p: nat)
    ensures (x + y) * p == x * p + y * p
  {
  }

  lemma Reorder(m: nat, d: nat, p: nat)
    ensures (m * d) * p == (d * p) * m
  {
  }

  /** Left over carry would exceed the buffer's range. */
  lemma NoCarry(now: nat, carry: nat, p: nat, total: nat)
    requires now + carry * p == total < p
    ensures carry == 0
  {
    if carry > 0 {
      MulMono(1, carry, p);
      assert false;
    }
  }

  /** The invariant of the carry loop: the last i digits are done. */
  ghost predicate Carried(base: nat, mul: nat, add: nat, was: seq<nat>, now: seq<nat>, i: nat, carry: nat)
    requires |was| == |now| && i <= |now|
  {
    && now[..|now| - i] == was[..|was| - i]
    && InBase(base, now)
    && Val(base, now[|now| - i..]) + carry * Pow(base, i) == Val(base, was[|was| - i..]) * mul + add
  }

  lemma CarriedStep(base: nat, mul: nat, add: nat, was: seq<nat>, now: seq<nat>, i: nat, carry: nat)
    requires base >= 2 && |was| == |now| && i < |now| && Carried(base, mul, add, was, now, i, carry)
    ensures var k := |now| - 1 - i;
            var c := carry + mul * now[k];
            0 <= c && 0 <= c / base && 0 <= c % base
            && Carried(base, mul, add, was, now[k := c % base], i + 1, c / base)
  {
    hide Val;
    var k := |now| - 1 - i;
    var d := now[k];
    assert was[k] == was[..k + 1][k] && d == now[..k + 1][k];
    MulNat(mul, d);
    var c: nat := carry + mul * d;
    var next := now[k := c % base];
    assert next[k..] == [c % base] + now[k + 1..];
    assert was[k..] == [d] + was[k + 1..];
    assert next[..k] == now[..k] == was[..k] by {
      assert now[..k] == now[..k + 1][..k];
      assert was[..k] == was[..k + 1][..k];
    }
    ValFront(base, c % base, now[k + 1..]);
    ValFront(base, d, was[k + 1..]);
    CarryStep(base, mul, add, carry, d, Pow(base, i), Val(base, now[k + 1..]), Val(base, was[k + 1..]));
    DivAtLeast(c, 0, base);
  }

  lemma CarriedDone(base: nat, mul: nat, add: nat, was: seq<nat>, now: seq<nat>, i: nat, length: nat, carry: nat,
                    v: nat)
    requires base >= 2 && |was| == |now| && i <= |now| && Carried(base, mul, add, was, now, i, carry)
    requires Holds(base, was, length, v) && (i == |now| || (carry == 0 && i >= length))
    requires v * mul + add < Pow(base, |was|)
    ensures carry == 0 && Holds(base, now, i, v * mul + add)
  {
    hide Val, Pow;
    if i == |now| {
      assert was[0..] == was && now[0..] == now;
      NoCarry(Val(base, now), carry, Pow(base, i), v * mul + add);
    } else {
      var k := |now| - i;
      assert Zeros(was[..k]) by {
        assert forall j :: 0 <= j < k ==> was[..k][j] == was[..|was| - length][j];
      }
      ZerosSuffix(base, was, k);
      ZerosSuffix(base, now, k);
    }
  }

  lemma ZerosSuffix(base: nat, s: seq<nat>, k: nat)
    requires k <= |s| && Zeros(s[..k])
    ensures Val(base, s) == Val(base, s[k..])
  {
    hide Val;
    ZerosVal(base, s[..k], s[k..]);
    assert s == s[..k] + s[k..];
  }

  /** The buffer's digits stand for v, with zeros outside the last `length` of them. */
  ghost predicate Holds(base: nat, s: seq<nat>, length: nat, v: nat) {
    length <= |s| && InBase(base, s) && Zeros(s[..|s| - length]) && Val(base, s) == v
  }

  /**
   * b := b * mul + add on big-endian digits.  The carry never leaves the buffer, and the
   * leading digits beyond the reported length stay zero.
   */
  method MulAdd(b: array<nat>, base: nat, mul: nat, add: nat, length: nat, ghost v: nat) returns (used: nat)
    requires base >= 2 && Holds(base, b[..], length, v) && v * mul + add < Pow(base, b.Length)
    modifies b
    ensures Holds(base, b[..], used, v * mul + add)
  {
    ghost var was := b[..];
    var carry: nat, i := add, 0;
    CarriedStart(base, mul, add, was);
    assert length <= |was|;
    hide *;
    while (carry != 0 || i < length) && i < b.Length
      invariant i <= b.Length && |was| == b.Length
      invariant Carried(base, mul, add, was, b[..], i, carry)
    {
      hide *;
      CarriedStep(base, mul, add, was, b[..], i, carry);
      var k := b.Length - 1 - i;
      ghost var before := b[..];
      var c: nat := carry + mul * b[k];
      var d: nat := c % base;
      b[k] := d;
      carry := c / base;
      assert b[..] == before[k := d];
      i := i + 1;
    }
    CarriedDone(base, mul, add, was, b[..], i, length, carry, v);
    assert carry == 0;
    used := i;
  }

  lemma CarriedStart(base: nat, mul: nat, add: nat, was: seq<nat>)
    requires InBase(base, was)
    ensures Carried(base, mul, add, was, was, 0, add)
  {
    assert was[|was|..] == [];
    assert Val(base, []) == 0 && Pow(base, 0) == 1;
  }

  /** Skipping leading zeros leaves exactly the digits of the buffer's value. */
  method SkipZeros(b: array<nat>, base: nat, length: nat, ghost v: nat) returns (it: nat)
    requires base >= 2 && Holds(base, b[..], length, v)
    ensures it <= b.Length && b[it..] == Digits(base, v)
  {
    assert b[..][..b.Length - length] == b[..b.Length - length];
    it := b.Length - length;
    while it < b.Length && b[it] == 0
      invariant it <= b.Length && Zeros(b[..it])
    {
      it := it + 1;
    }
    assert b[..][..it] == b[..it] && b[..][it..] == b[it..];
    ZerosSuffix(base, b[..], it);
    assert Canonical(base, b[it..]);
    CanonicalIsDigits(base, b[it..]);
  }

  /** A buffer of zeros. */
  method NewBuffer(base: nat, size: nat) returns (b: array<nat>)
    requires base >= 1
    ensures fresh(b) && b.Length == size && Holds(base, b[..], 0, 0)
  {
    b := new nat[size](_ => 0);
    HoldsNothing(base, b[..]);
  }

  lemma HoldsNothing(base: nat, s: seq<nat>)
    requires base >= 1 && Zeros(s)
    ensures Holds(base, s, 0, 0)
  {
    assert s[..|s|] == s && s + [] == s;
    ZerosVal(base, s, []);
  }

  // ---------------------------------------------------------------------------
  // Encoding
  // ---------------------------------------------------------------------------

  /** log(256) / log(58), rounded up, for every byte. */
  function EncodeSpace(n: nat): nat {
    n * 138 / 100 + 1
  }

  /** The buffer for n bytes holds every value of n bytes. */
  lemma EncodeSize(n: nat)
    ensures Pow(58, EncodeSpace(n)) >= Pow(256, n)
  {
    hide Pow;
    EncodeRatio();
    Fits(58, 256, 11, 8, n, n * 138 / 100 + 1);
  }

  /** Prefix values stay below the buffer's range. */
  lemma NextValue(from: nat, x: seq<nat>, k: nat, range: nat)
    requires k < |x| && from >= 1 && InBase(from, x) && Pow(from, |x|) <= range
    ensures Val(from, x[..k + 1]) == Val(from, x[..k]) * from + x[k] < range
  {
    assert x[..k + 1][..k] == x[..k];
    assert Val(from, x[..k + 1]) == Val(from, x[..k]) * from + x[k] by { assert x[..k + 1][k] == x[k]; }
    ValBound(from, x[..k + 1]);
    PowGrows(from, k + 1, |x|);
  }

  method ConvertBytes(x: seq<nat>) returns (ds: seq<nat>)
    requires InBase(256, x)
    ensures ds == Digits(58, Val(256, x))
  {
    hide *;
    var size := EncodeSpace(|x|);
    var b58 := NewBuffer(58, size);
    var length: nat, k := 0, 0;
    EncodeSize(|x|);
    assert x[..0] == [] && x[..|x|] == x;
    EmptyVal(256);
    while k < |x|
      invariant k <= |x| && b58.Length == size && fresh(b58)
      invariant Holds(58, b58[..], length, Val(256, x[..k]))
    {
      hide *;
      NextValue(256, x, k, Pow(58, size));
      length := MulAdd(b58, 58, 256, x[k], length, Val(256, x[..k]));
      k := k + 1;
    }
    var it := SkipZeros(b58, 58, length, Val(256, x));
    ds := b58[it..];
  }

  lemma EmptyVal(base: nat)
    ensures Val(base, []) == 0
  {
  }

  method EncodeBase58(x: seq<nat>) returns (str: string)
    requires InBase(256, x)
    ensures str == Encode(x)
  {
    var zeroes := 0;
    while zeroes < |x| && x[zeroes] == 0
      invariant zeroes <= |x| && Zeros(x[..zeroes])
    {
      zeroes := zeroes + 1;
    }
    CountedZeros(x, zeroes);
    var ds := ConvertBytes(x[zeroes..]);
    DigitsCanonical(58, Val(256, x[zeroes..]));
    var digits := Translate(ds);
    str := Ones(zeroes) + digits;
  }

  method Translate(ds: seq<nat>) returns (str: string)
    requires forall i :: 0 <= i < |ds| ==> ds[i] < 58
    ensures str == Symbols(ds)
  {
    hide Symbol;
    str := "";
    var it := 0;
    while it < |ds|
      invariant it <= |ds| && str == Symbols(ds)[..it]
    {
      hide Symbol;
      str := str + [Symbol(ds[it])];
      it := it + 1;
    }
  }

  // ---------------------------------------------------------------------------
  // Decoding
  // ---------------------------------------------------------------------------

  /** log(58) / log(256), rounded up, for every character. */
  function DecodeSpace(n: nat): nat {
    n * 733 / 1000 + 1
  }

  /** The buffer for n characters, possibly with white space after, holds every value. */
  lemma DecodeSize(n: nat, m: nat)
    requires n <= m
    ensures Pow(256, DecodeSpace(m)) >= Pow(58, n)
  {
    hide Pow;
    DecodeRatio();
    Fits(256, 58, 52, 71, m, m * 733 / 1000 + 1);
    PowGrows(58, n, m);
  }

  /** The non-space characters from `start` on end at `end`. */
  ghost predicate WordTo(text: string, start: nat, end: nat) {
    start <= end <= |text| && NoSpaces(text[start..end]) && (end < |text| ==> IsSpace(text[end]))
  }

  predicate InWord(text: string, pos: nat) {
    pos < |text| && !IsSpace(text[pos])
  }

  lemma Guard(text: string, start: nat, end: nat, pos: nat)
    requires WordTo(text, start, end) && start <= pos <= end
    ensures pos < end <==> InWord(text, pos)
    ensures end <= |text|
  {
    if pos < end {
      assert text[start..end][pos - start] == text[pos];
    }
  }

  lemma WordToEnd(t: string, z: nat)
    requires z <= WordEnd(t)
    ensures WordTo(t, z, WordEnd(t))
  {
    hide WordEnd;
    var n := WordEnd(t);
    assert t[z..n] == t[..n][z..];
  }

  /** The characters up to `pos` are digits of value v. */
  ghost predicate Reads(text: string, start: nat, pos: nat, v: nat) {
    start <= pos <= |text| && AllKnown(text[start..pos]) && Val(58, DigitsOf(text[start..pos])) == v
  }

  /** One character: false if it is not in the alphabet. */
  method PushChar(b: array<nat>, text: string, ghost start: nat, pos: nat, ghost n: nat, length: nat, ghost v: nat)
    returns (ok: bool, used: nat, ghost w: nat)
    requires start <= pos < |text| && pos < start + n && Pow(58, n) <= Pow(256, b.Length)
    requires Reads(text, start, pos, v) && Holds(256, b[..], length, v)
    modifies b
    ensures ok <==> Known(text[pos])
    ensures ok ==> Reads(text, start, pos + 1, w) && Holds(256, b[..], used, w)
  {
    hide *;
    var d := StrChr(text[pos]);
    if d == -1 {
      return false, length, v;
    }
    NextDigit(text, start, pos, d, n, Pow(256, b.Length), v);
    used := MulAdd(b, 256, 58, d, length, v);
    return true, used, v * 58 + d;
  }

  /** The loop over the word: `v` is the value of the characters read. */
  method ReadDigits(b: array<nat>, text: string, start: nat, ghost end: nat)
    returns (pos: nat, ok: bool, length: nat, ghost v: nat)
    requires WordTo(text, start, end) && end <= |text| && start <= end
    requires Pow(58, end - start) <= Pow(256, b.Length) && Holds(256, b[..], 0, 0)
    modifies b
    ensures start <= pos <= end
    ensures !ok ==> pos < end && !Known(text[pos])
    ensures ok ==> pos == end && Reads(text, start, pos, v) && Holds(256, b[..], length, v)
  {
    hide *;
    Guard(text, start, end, start);
    EmptyWord(text, start);
    pos, length, v, ok := start, 0, 0, true;
    while InWord(text, pos)
      invariant start <= pos <= end && (pos < end <==> InWord(text, pos))
      invariant Reads(text, start, pos, v) && Holds(256, b[..], length, v)
      decreases end - pos
    {
      hide *;
      ok, length, v := PushChar(b, text, start, pos, end - start, length, v);
      if !ok {
        return;
      }
      pos := pos + 1;
      Guard(text, start, end, pos);
    }
    ok := true;
  }

  method ConvertWord(text: string, start: nat, ghost end: nat)
    returns (pos: nat, digits: Option<seq<nat>>, ghost v: nat)
    requires WordTo(text, start, end) && end <= |text| && start <= end
    ensures start <= pos <= end
    ensures digits.None? ==> pos < end && !Known(text[pos])
    ensures digits.Some? ==> pos == end && Reads(text, start, pos, v) && digits.value == Digits(256, v)
  {
    hide *;
    DecodeSize(end - start, |text| - start);
    var b256 := NewBuffer(256, DecodeSpace(|text| - start));
    var ok, length;
    pos, ok, length, v := ReadDigits(b256, text, start, end);
    if !ok {
      return pos, None, v;
    }
    var it := SkipZeros(b256, 256, length, v);
    digits := Some(b256[it..]);
  }

  lemma EmptyWord(text: string, start: nat)
    requires start <= |text|
    ensures Reads(text, start, start, 0)
  {
    assert DigitsOf(text[start..start]) == [];
  }

  lemma NextDigit(text: string, start: nat, pos: nat, d: nat, n: nat, range: nat, v: nat)
    requires start <= pos < |text| && pos < start + n && Reads(text, start, pos, v)
    requires Known(text[pos]) && DigitOf(text[pos]) == d && Pow(58, n) <= range
    ensures Reads(text, start, pos + 1, v * 58 + d) && v * 58 + d < range
  {
    hide Pow;
    var w, w' := text[start..pos], text[start..pos + 1];
    assert w' == w + [text[pos]];
    var ds := DigitsOf(w');
    assert ds[..|w|] == DigitsOf(w);
    ValBound(58, ds);
    PowGrows(58, |w'|, n);
  }

  /** DecodeBase58: on failure the output is left as it was. */
  method DecodeBase58(s: string, vch: seq<nat>) returns (ok: bool, out: seq<nat>)
    ensures ok <==> Decode(s).Some?
    ensures out == if ok then Decode(s).value else vch
    ensures ok ==> InBase(256, out)
  {
    hide *;
    var text := CStr(s);
    var a := ScanSpaces(text, 0);
    assert text[0..a] == text[..a];
    CountedSpaces(text, a);
    var t := text[a..];
    var zeroes := ScanOnes(t);
    OnesInWord(t, zeroes);
    WordToEnd(t, zeroes);
    ok, out := DecodeRest(t, zeroes, vch);
    DecodeIs(s, a);
    if ok {
      DecodeIsBytes(s);
    }
  }

  lemma DecodeIs(s: string, a: nat)
    requires a == SpacesEnd(CStr(s))
    ensures a <= |CStr(s)| && Decode(s) == DecodeWord(CStr(s)[a..])
  {
    hide DecodeWord, CStr;
  }

  /** From the first character that is not a '1' on. */
  method DecodeRest(t: string, zeroes: nat, vch: seq<nat>) returns (ok: bool, out: seq<nat>)
    requires zeroes <= WordEnd(t) <= |t| && WordTo(t, zeroes, WordEnd(t))
    requires AllOnes(t[..zeroes]) && (zeroes < |t| ==> t[zeroes] != '1')
    ensures ok <==> DecodeWord(t).Some?
    ensures out == if ok then DecodeWord(t).value else vch
  {
    hide *;
    var pos, digits, v := ConvertWord(t, zeroes, WordEnd(t));
    if digits.None? {
      UnknownChar(t, pos);
      return false, vch;
    }
    var last := ScanSpaces(t, pos);
    if last < |t| {
      SecondWord(t, last);
      return false, vch;
    }
    assert t[pos..last] == t[pos..];
    ReadsValue(t, zeroes, pos, v);
    OneWord(t, zeroes, pos, v);
    return true, ZeroBytes(zeroes) + digits.value;
  }

  method ScanSpaces(text: string, from: nat) returns (a: nat)
    requires from <= |text|
    ensures from <= a <= |text| && AllSpaces(text[from..a]) && (a < |text| ==> !IsSpace(text[a]))
  {
    a := from;
    while a < |text| && IsSpace(text[a])
      invariant from <= a <= |text| && AllSpaces(text[from..a])
    {
      assert text[from..a + 1] == text[from..a] + [text[a]];
      a := a + 1;
    }
  }

  method ScanOnes(t: string) returns (z: nat)
    ensures z <= |t| && AllOnes(t[..z]) && (z < |t| ==> t[z] != '1')
  {
    z := 0;
    while z < |t| && t[z] == '1'
      invariant z <= |t| && AllOnes(t[..z])
    {
      z := z + 1;
    }
  }

  ghost predicate AllOnes(s: string) {
    forall i :: 0 <= i < |s| ==> s[i] == '1'
  }

  lemma UnknownChar(t: string, pos: nat)
    requires pos < WordEnd(t) && !Known(t[pos])
    ensures DecodeWord(t).None?
  {
    hide WordEnd, Known, Bytes;
    assert t[..WordEnd(t)][pos] == t[pos];
  }

  lemma SecondWord(t: string, last: nat)
    requires WordEnd(t) <= last < |t| && !IsSpace(t[last])
    ensures DecodeWord(t).None?
  {
    hide WordEnd, Known, Bytes;
    assert t[WordEnd(t)..][last - WordEnd(t)] == t[last];
  }

  lemma OneWord(t: string, z: nat, n: nat, v: nat)
    requires z <= n == WordEnd(t) <= |t|
    requires AllOnes(t[..z]) && (z < |t| ==> t[z] != '1') && AllKnown(t[z..n]) && AllSpaces(t[n..])
    requires Val(58, DigitsOf(t[z..n])) == v
    ensures DecodeWord(t) == Some(ZeroBytes(z) + Digits(256, v))
  {
    hide WordEnd, Bytes, AllKnown, AllSpaces, AllOnes, Val, Digits;
    assert t[..n][..z] == t[..z] && t[..n][z..] == t[z..n];
    WordBytes(t[..n], z);
  }

  lemma ReadsValue(text: string, start: nat, pos: nat, v: nat)
    requires Reads(text, start, pos, v)
    ensures start <= pos <= |text| && AllKnown(text[start..pos]) && Val(58, DigitsOf(text[start..pos])) == v
  {
  }

  lemma OnesInWord(t: string, z: nat)
    requires z <= |t| && AllOnes(t[..z])
    ensures z <= WordEnd(t) <= |t|
  {
    assert NoSpaces(t[..z]);
    WordEndAt(t, z);
  }

  /** Leading '1's are zero bytes; the rest of the word gives the remaining bytes. */
  lemma WordBytes(w: string, z: nat)
    requires z <= |w| && AllOnes(w[..z]) && (z < |w| ==> w[z] != '1') && AllKnown(w[z..])
    ensures AllKnown(w)
    ensures Bytes(w) == ZeroBytes(z) + Digits(256, Val(58, DigitsOf(w[z..])))
  {
    hide Digits, Val, Known, Symbol, AllOnes, LeadingZeros;
    OnesKnown(w, z);
    var ds := DigitsOf(w);
    CountedZeros(ds, z);
    assert ds[z..] == DigitsOf(w[z..]);
  }

  lemma OnesKnown(w: string, z: nat)
    requires z <= |w| && AllOnes(w[..z]) && (z < |w| ==> w[z] != '1') && AllKnown(w[z..])
    ensures AllKnown(w) && Zeros(DigitsOf(w)[..z]) && (z < |w| ==> DigitsOf(w)[z] != 0)
  {
    hide Symbol;
    SymbolFacts(0, 0);
    DigitOfSymbol(0);
    forall i | 0 <= i < |w| ensures Known(w[i]) && (i < z ==> DigitOf(w[i]) == 0) {
      if i >= z {
        assert w[i] == w[z..][i - z];
      } else {
        assert w[i] == w[..z][i];
      }
    }
    if z < |w| {
      SymbolFacts(DigitOf(w[z]), 0);
    }
  }

  // ---------------------------------------------------------------------------
  // With a checksum
  // ---------------------------------------------------------------------------

  /** The hash function yields 32 bytes. */
  ghost predicate HashOk(hash: seq<nat> -> seq<nat>) {
    forall x :: |hash(x)| == 32 && InBase(256, hash(x))
  }

  ghost function EncodeCheck(hash: seq<nat> -> seq<nat>, x: seq<nat>): string
    requires HashOk(hash)
  {
    Encode(x + hash(x)[..4])
  }

  ghost function DecodeCheck(hash: seq<nat> -> seq<nat>, s: string): Option<seq<nat>>
    requires HashOk(hash)
  {
    match Decode(s)
    case None => None
    case Some(v) =>
      if |v| < 4 then None
      else
        var x := v[..|v| - 4];
        if hash(x)[..4] != v[|v| - 4..] then None else Some(x)
  }

  lemma Checked(hash: seq<nat> -> seq<nat>, x: seq<nat>)
    requires HashOk(hash) && InBase(256, x)
    ensures InBase(256, x + hash(x)[..4])
  {
    var h := hash(x);
    assert InBase(256, h);
  }

  lemma DecodeIsBytes(s: string)
    requires Decode(s).Some?
    ensures InBase(256, Decode(s).value)
  {
    hide Bytes, Decode;
    var w := DecodeSome(s);
    BytesAreBytes(w);
  }

  /** Decoding with the checksum gives x exactly if the text is x's checked encoding in white space. */
  lemma DecodeCheckIff(hash: seq<nat> -> seq<nat>, s: string, x: seq<nat>)
    requires HashOk(hash) && InBase(256, x)
    ensures DecodeCheck(hash, s) == Some(x) <==> Around(CStr(s), EncodeCheck(hash, x))
  {
    hide Decode, Encode, Around, CStr;
    var y := x + hash(x)[..4];
    Checked(hash, x);
    DecodeIff(s, y);
    assert y[..|y| - 4] == x && y[|y| - 4..] == hash(x)[..4];
    if DecodeCheck(hash, s) == Some(x) {
      var v := Decode(s).value;
      assert v == v[..|v| - 4] + v[|v| - 4..];
    }
  }

  lemma DecodeCheckEncode(hash: seq<nat> -> seq<nat>, x: seq<nat>)
    requires HashOk(hash) && InBase(256, x)
    ensures DecodeCheck(hash, EncodeCheck(hash, x)) == Some(x)
  {
    hide Decode, Encode;
    var y := x + hash(x)[..4];
    Checked(hash, x);
    DecodeEncode(y);
    assert y[..|y| - 4] == x && y[|y| - 4..] == hash(x)[..4];
  }

  method EncodeBase58Check(hash: seq<nat> -> seq<nat>, x: seq<nat>) returns (str: string)
    requires HashOk(hash) && InBase(256, x)
    ensures str == EncodeCheck(hash, x)
  {
    Checked(hash, x);
    str := EncodeBase58(x + hash(x)[..4]);
  }

  /** On failure the output is cleared. */
  method DecodeBase58Check(hash: seq<nat> -> seq<nat>, s: string, vch: seq<nat>) returns (ok: bool, out: seq<nat>)
    requires HashOk(hash)
    ensures ok <==> DecodeCheck(hash, s).Some?
    ensures out == if ok then DecodeCheck(hash, s).value else []
    ensures InBase(256, out)
  {
    ok, out := DecodeBase58(s, vch);
    if !ok || |out| < 4 {
      return false, [];
    }
    var h := hash(out[..|out| - 4]);
    if h[..4] != out[|out| - 4..] {
      return false, [];
    }
    return true, out[..|out| - 4];
  }
}
