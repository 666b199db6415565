/** The characters of Base58 text (src/base58.cpp). */
module Base58Alphabet {
  /** All alphanumeric characters except 0, I, O and l. */
  const ALPHABET := "123456789" + "ABCDEFGH" + "JKLMN" + "PQRSTUVWXYZ" + "abcdefghijk" + "mnopqrstuvwxyz"

  predicate IsSpace(c: char) {
    c == ' ' || 9 <= c as int <= 13
  }

  /** The code of a digit's character, by the runs of the alphabet. */
  function Code(d: nat): nat
    requires d < 58
  {
    if d < 9 then 49 + d
    else if d < 17 then 56 + d
    else if d < 22 then 57 + d
    else if d < 33 then 58 + d
    else if d < 44 then 64 + d
    else 65 + d
  }

  lemma DigitRun(i: nat)
    requires i < 9
    ensures "123456789"[i] as int == 49 + i
  {
  }

  lemma UpperRuns(i: nat)
    ensures i < 8 ==> "ABCDEFGH"[i] as int == 65 + i
    ensures i < 5 ==> "JKLMN"[i] as int == 74 + i
    ensures i < 11 ==> "PQRSTUVWXYZ"[i] as int == 80 + i
  {
  }

  lemma LowerRuns(i: nat)
    ensures i < 11 ==> "abcdefghijk"[i] as int == 97 + i
    ensures i < 14 ==> "mnopqrstuvwxyz"[i] as int == 109 + i
  {
  }

  /** Where a character of a joined string comes from. */
  lemma JoinedAt(a: string, b: string, c: string, d: string, e: string, f: string, i: nat)
    requires |a| == 9 && |b| == 8 && |c| == 5 && |d| == 11 && |e| == 11 && |f| == 14 && i < 58
    ensures |a + b + c + d + e + f| == 58
    ensures (a + b + c + d + e + f)[i]
            == if i < 9 then a[i] else if i < 17 then b[i - 9] else if i < 22 then c[i - 17]
               else if i < 33 then d[i - 22] else if i < 44 then e[i - 33] else f[i - 44]
  {
  }

  lemma AlphabetIs(d: nat)
    requires d < 58
    ensures |ALPHABET| == 58 && ALPHABET[d] as int == Code(d)
  {
    JoinedAt("123456789", "ABCDEFGH", "JKLMN", "PQRSTUVWXYZ", "abcdefghijk", "mnopqrstuvwxyz", d);
    if d < 9 {
      DigitRun(d);
    } else if d < 33 {
      UpperRuns(if d < 17 then d - 9 else if d < 22 then d - 17 else d - 22);
    } else {
      LowerRuns(if d < 44 then d - 33 else d - 44);
    }
  }

  function Symbol(d: nat): char
    requires d < 58
  {
    AlphabetIs(d);
    ALPHABET[d]
  }

  /** Different digits have different symbols, none of them white space or NUL. */
  lemma SymbolFacts(d: nat, e: nat)
    requires d < 58 && e < 58
    ensures Symbol(d) == Symbol(e) <==> d == e
    ensures !IsSpace(Symbol(d)) && Symbol(d) as int != 0
    ensures Symbol(d) == '1' <==> d == 0
  {
    AlphabetIs(d);
    AlphabetIs(e);
  }

  ghost predicate Known(c: char) {
    exists d: nat :: d < 58 && Symbol(d) == c
  }

  ghost function DigitOf(c: char): (d: nat)
    requires Known(c)
    ensures d < 58 && Symbol(d) == c
  {
    var d: nat :| d < 58 && Symbol(d) == c; d
  }

  lemma DigitOfSymbol(d: nat)
    requires d < 58
    ensures Known(Symbol(d)) && DigitOf(Symbol(d)) == d
  {
    SymbolFacts(d, DigitOf(Symbol(d)));
  }

  /** The position of a character in the alphabet, or -1. */
  method StrChr(c: char) returns (d: int)
    ensures d == -1 <==> !Known(c)
    ensures d != -1 ==> 0 <= d < 58 && Known(c) && d == DigitOf(c)
  {
    hide Symbol;
    for i := 0 to 58
      invariant forall j: nat :: j < i ==> Symbol(j) != c
    {
      hide Symbol;
      if Symbol(i) == c {
        DigitOfSymbol(i);
        return i;
      }
    }
    return -1;
  }
}

/**
 * Base58 text of byte strings, plain and with a checksum (src/base58.cpp).  The references
 * are the values of the two digit strings; the buffers and carries refine them.
 */
module Base58 {
  import opened Wrappers
  import opened Arithmetic
  import opened Radix
  import opened Base58Alphabet

  // ---------------------------------------------------------------------------
  // Words: text without white space
  // ---------------------------------------------------------------------------

  /** `z` zeros come first, and then no zero. */
  ghost predicate ZerosFirst(x: seq<nat>, z: nat) {
    z <= |x| && Zeros(x[..z]) && (z < |x| ==> x[z] != 0)
  }

  function LeadingZeros(x: seq<nat>): (z: nat)
    ensures ZerosFirst(x, z)
  {
    if x == [] || x[0] != 0 then 0 else 1 + LeadingZeros(x[1..])
  }

  function Ones(n: nat): (s: string)
    ensures |s| == n && forall i :: 0 <= i < n ==> s[i] == '1'
  {
    seq(n, _ => '1')
  }

  function ZeroBytes(n: nat): (s: seq<nat>)
    ensures |s| == n && forall i :: 0 <= i < n ==> s[i] == 0
  {
    seq(n, _ => 0)
  }

  function Symbols(ds: seq<nat>): (w: string)
    requires forall i :: 0 <= i < |ds| ==> ds[i] < 58
    ensures |w| == |ds| && forall i :: 0 <= i < |w| ==> w[i] == Symbol(ds[i])
  {
    seq(|ds|, i requires 0 <= i < |ds| => Symbol(ds[i]))
  }

  ghost predicate AllKnown(w: string) {
    forall i :: 0 <= i < |w| ==> Known(w[i])
  }

  ghost function DigitsOf(w: string): (ds: seq<nat>)
    requires AllKnown(w)
    ensures |ds| == |w| && InBase(58, ds) && forall i :: 0 <= i < |w| ==> ds[i] == DigitOf(w[i])
  {
    seq(|w|, i requires 0 <= i < |w| => DigitOf(w[i]))
  }

  /** One symbol '1' for each leading zero byte, then the value without leading zeros. */
  ghost function Encode(x: seq<nat>): string {
    var z := LeadingZeros(x);
    var ds := Digits(58, Val(256, x[z..]));
    DigitsCanonical(58, Val(256, x[z..]));
    Ones(z) + Symbols(ds)
  }

  /** The bytes of a word: one zero for each leading '1', then the value without leading zeros. */
  ghost function Bytes(w: string): (x: seq<nat>)
    requires AllKnown(w)
  {
    var ds := DigitsOf(w);
    var z := LeadingZeros(ds);
    ZeroBytes(z) + Digits(256, Val(58, ds[z..]))
  }

  lemma LeadingZerosJoin(z: nat, s: seq<nat>)
    requires s != [] ==> s[0] != 0
    ensures LeadingZeros(ZeroBytes(z) + s) == z && (ZeroBytes(z) + s)[z..] == s
  {
    var x := ZeroBytes(z) + s;
    assert x[z..] == s && x[..z] == ZeroBytes(z);
    CountedZeros(x, z);
  }

  lemma {:induction false} CountedZeros(x: seq<nat>, z: nat)
    requires z <= |x| && Zeros(x[..z]) && (z < |x| ==> x[z] != 0)
    ensures LeadingZeros(x) == z
  {
    if z > 0 {
      assert x[..z][0] == x[0] && x[1..][..z - 1] == x[..z][1..];
      CountedZeros(x[1..], z - 1);
    }
  }

  lemma EncodeDigits(x: seq<nat>)
    requires InBase(256, x)
    ensures AllKnown(Encode(x))
    ensures DigitsOf(Encode(x)) == ZeroBytes(LeadingZeros(x)) + Digits(58, Val(256, x[LeadingZeros(x)..]))
  {
    var z := LeadingZeros(x);
    var ds := Digits(58, Val(256, x[z..]));
    DigitsCanonical(58, Val(256, x[z..]));
    var w, all := Encode(x), ZeroBytes(z) + ds;
    forall i | 0 <= i < |w| ensures Known(w[i]) && DigitOf(w[i]) == all[i] {
      if i < z {
        SymbolFacts(0, 0);
        DigitOfSymbol(0);
      } else {
        DigitOfSymbol(ds[i - z]);
      }
    }
    assert DigitsOf(w) == all;
  }

  /** Reading back what was written gives the same bytes, for all byte strings. */
  lemma BytesEncode(x: seq<nat>)
    requires InBase(256, x)
    ensures AllKnown(Encode(x)) && Bytes(Encode(x)) == x
  {
    hide Encode, Val, Digits, LeadingZeros, AllKnown, InBase;
    var z := LeadingZeros(x);
    var v := Val(256, x[z..]);
    EncodeDigits(x);
    DigitsCanonical(58, v);
    LeadingZerosJoin(z, Digits(58, v));
    WithoutZeros(x);
  }

  lemma WithoutZeros(x: seq<nat>)
    requires InBase(256, x)
    ensures x == ZeroBytes(LeadingZeros(x)) + Digits(256, Val(256, x[LeadingZeros(x)..]))
  {
    hide Val, Digits;
    var z := LeadingZeros(x);
    assert Canonical(256, x[z..]);
    CanonicalIsDigits(256, x[z..]);
    assert x == ZeroBytes(z) + x[z..];
  }

  lemma BytesAreBytes(w: string)
    requires AllKnown(w)
    ensures InBase(256, Bytes(w))
  {
    var ds := DigitsOf(w);
    DigitsCanonical(256, Val(58, ds[LeadingZeros(ds)..]));
  }

  /** Writing what was read gives the same word, for all words over the alphabet. */
  lemma EncodeBytes(w: string)
    requires AllKnown(w)
    ensures Encode(Bytes(w)) == w
  {
    hide Val, Digits, LeadingZeros, AllKnown;
    var ds := DigitsOf(w);
    var z := LeadingZeros(ds);
    var v := Val(58, ds[z..]);
    DigitsCanonical(256, v);
    DigitsCanonical(58, v);
    LeadingZerosJoin(z, Digits(256, v));
    CanonicalIsDigits(58, ds[z..]);
    assert Digits(58, v) == ds[z..];
    SymbolsBack(w, z);
  }

  lemma SymbolsBack(w: string, z: nat)
    requires AllKnown(w) && z <= |w| && Zeros(DigitsOf(w)[..z])
    ensures Ones(z) + Symbols(DigitsOf(w)[z..]) == w
  {
    var ds := DigitsOf(w);
    var t := Ones(z) + Symbols(ds[z..]);
    SymbolFacts(0, 0);
    forall i | 0 <= i < |w| ensures t[i] == w[i] {
      if i < z {
        assert ds[..z][i] == 0 && w[i] == Symbol(0);
      } else {
        assert ds[z..][i - z] == DigitOf(w[i]);
      }
    }
  }

  // ---------------------------------------------------------------------------
  // Text: a word with white space around it, up to the first NUL
  // ---------------------------------------------------------------------------

  function CStr(s: string): (t: string)
    ensures |t| <= |s| && t == s[..|t|] && (|t| < |s| ==> s[|t|] as int == 0)
    ensures forall i :: 0 <= i < |t| ==> t[i] as int != 0
  {
    if s == [] || s[0] as int == 0 then [] else [s[0]] + CStr(s[1..])
  }

  /** White space comes first, up to position `n`. */
  ghost predicate SpacesFirst(s: string, n: nat) {
    n <= |s| && AllSpaces(s[..n]) && (n < |s| ==> !IsSpace(s[n]))
  }

  /** Other characters come first, up to position `n`. */
  ghost predicate WordFirst(s: string, n: nat) {
    n <= |s| && NoSpaces(s[..n]) && (n < |s| ==> IsSpace(s[n]))
  }

  function SpacesEnd(s: string): (n: nat)
    ensures SpacesFirst(s, n)
  {
    if s == [] || !IsSpace(s[0]) then 0 else 1 + SpacesEnd(s[1..])
  }

  function WordEnd(s: string): (n: nat)
    ensures WordFirst(s, n)
  {
    if s == [] || IsSpace(s[0]) then 0 else 1 + WordEnd(s[1..])
  }

  ghost predicate AllSpaces(s: string) {
    forall i :: 0 <= i < |s| ==> IsSpace(s[i])
  }

  ghost predicate NoSpaces(s: string) {
    forall i :: 0 <= i < |s| ==> !IsSpace(s[i])
  }

  /** `text` is white space, the word, white space. */
  ghost predicate Around(text: string, w: string) {
    exists i, j :: 0 <= i <= j <= |text| && AllSpaces(text[..i]) && text[i..j] == w && AllSpaces(text[j..])
  }

  /** The bytes of a text whose leading white space is gone. */
  ghost function DecodeWord(t: string): Option<seq<nat>> {
    var n := WordEnd(t);
    if AllKnown(t[..n]) && AllSpaces(t[n..]) then Some(Bytes(t[..n])) else None
  }

  ghost function Decode(s: string): Option<seq<nat>> {
    var text := CStr(s);
    DecodeWord(text[SpacesEnd(text)..])
  }

  lemma KnownNoSpaces(w: string)
    requires AllKnown(w)
    ensures NoSpaces(w) && forall i :: 0 <= i < |w| ==> w[i] as int != 0
  {
    forall i | 0 <= i < |w| ensures !IsSpace(w[i]) && w[i] as int != 0 {
      SymbolFacts(DigitOf(w[i]), 0);
    }
  }

  /** Decoding succeeds exactly on words over the alphabet in white space, with their bytes. */
  lemma DecodeExact(s: string, w: string)
    requires AllKnown(w) && Around(CStr(s), w)
    ensures Decode(s) == Some(Bytes(w))
  {
    hide Bytes, AllKnown, AllSpaces, NoSpaces, CStr;
    var text := CStr(s);
    var i, j :| 0 <= i <= j <= |text| && AllSpaces(text[..i]) && text[i..j] == w && AllSpaces(text[j..]);
    KnownNoSpaces(w);
    WordBetween(text, i, j);
  }

  /** The scan finds the word between the spaces. */
  lemma WordBetween(text: string, i: nat, j: nat)
    requires i <= j <= |text| && AllSpaces(text[..i]) && NoSpaces(text[i..j]) && AllSpaces(text[j..])
    ensures var t := text[SpacesEnd(text)..]; t[..WordEnd(t)] == text[i..j] && AllSpaces(t[WordEnd(t)..])
  {
    if i == j {
      AllSpacesEnd(text, i);
      assert text[|text|..] == [];
    } else {
      hide AllSpaces, NoSpaces;
      SpacesEndAt(text, i, j);
      var t := text[i..];
      assert t[..j - i] == text[i..j] && t[j - i..] == text[j..];
      AfterWord(text, j);
      WordEndAt(t, j - i);
    }
  }

  lemma AfterWord(text: string, j: nat)
    requires j <= |text| && AllSpaces(text[j..])
    ensures j < |text| ==> IsSpace(text[j])
  {
    if j < |text| {
      assert text[j..][0] == text[j];
    }
  }

  lemma AllSpacesEnd(text: string, i: nat)
    requires i <= |text| && AllSpaces(text[..i]) && AllSpaces(text[i..])
    ensures SpacesEnd(text) == |text|
  {
    assert text[..|text|] == text[..i] + text[i..];
    CountedSpaces(text, |text|);
  }

  lemma {:induction false} CountedSpaces(text: string, n: nat)
    requires n <= |text| && AllSpaces(text[..n]) && (n < |text| ==> !IsSpace(text[n]))
    ensures SpacesEnd(text) == n
  {
    if n > 0 {
      assert text[..n][0] == text[0] && text[1..][..n - 1] == text[..n][1..];
      CountedSpaces(text[1..], n - 1);
    }
  }

  lemma SpacesEndAt(text: string, i: nat, j: nat)
    requires i < j <= |text| && AllSpaces(text[..i]) && NoSpaces(text[i..j])
    ensures SpacesEnd(text) == i
  {
    assert text[i] == text[i..j][0];
    CountedSpaces(text, i);
  }

  lemma {:induction false} WordEndAt(t: string, n: nat)
    requires n <= |t| && NoSpaces(t[..n])
    ensures n <= WordEnd(t) && ((n < |t| ==> IsSpace(t[n])) ==> WordEnd(t) == n)
  {
    if n > 0 {
      assert t[..n][0] == t[0] && t[1..][..n - 1] == t[..n][1..];
      WordEndAt(t[1..], n - 1);
    }
  }

  lemma DecodeSome(s: string) returns (w: string)
    requires Decode(s).Some?
    ensures AllKnown(w) && Around(CStr(s), w) && Decode(s) == Some(Bytes(w))
  {
    var text := CStr(s);
    var a := SpacesEnd(text);
    var t := text[a..];
    var n := WordEnd(t);
    w := t[..n];
    assert text[a..a + n] == w && t[n..] == text[a + n..];
  }

  /** Every byte string survives encoding and decoding. */
  lemma DecodeEncode(x: seq<nat>)
    requires InBase(256, x)
    ensures Decode(Encode(x)) == Some(x)
  {
    hide Encode, Bytes, AllKnown;
    var w := Encode(x);
    BytesEncode(x);
    KnownNoSpaces(w);
    assert CStr(w) == w;
    assert AllSpaces(w[..0]) && w[0..|w|] == w && AllSpaces(w[|w|..]);
    DecodeExact(w, w);
  }

  /** Decoding gives x exactly if the text is x's encoding in white space. */
  lemma DecodeIff(s: string, x: seq<nat>)
    requires InBase(256, x)
    ensures Decode(s) == Some(x) <==> Around(CStr(s), Encode(x))
  {
    hide Encode, Bytes, AllKnown, Around, Decode, CStr;
    if Decode(s) == Some(x) {
      var w := DecodeSome(s);
      EncodeBytes(w);
    }
    if Around(CStr(s), Encode(x)) {
      BytesEncode(x);
      DecodeExact(s, Encode(x));
    }
  }
}
