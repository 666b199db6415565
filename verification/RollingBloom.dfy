/** 64-bit words as the vectors of bits they are, with the bitwise operators of C++. */
module Words {
  const BITS := 64

  type Word = w: seq<bool> | |w| == BITS witness seq(BITS, _ => false)

  function And(x: Word, y: Word): Word { seq(BITS, i requires 0 <= i < BITS => x[i] && y[i]) }

  function Or(x: Word, y: Word): Word { seq(BITS, i requires 0 <= i < BITS => x[i] || y[i]) }

  function Xor(x: Word, y: Word): Word { seq(BITS, i requires 0 <= i < BITS => x[i] != y[i]) }

  function Not(x: Word): Word { seq(BITS, i requires 0 <= i < BITS => !x[i]) }

  /** uint64_t(v) << b, for a bit `v`. */
  function Shifted(v: bool, b: nat): Word
    requires b < BITS
  {
    seq(BITS, i => v && i == b)
  }

  /** -uint64_t(v), for a bit `v`. */
  function Fill(v: bool): Word { seq(BITS, _ => v) }
}

/**
 * The rolling bloom filter (CRollingBloomFilter, src/bloom.cpp).  Its two-bit cells are
 * characterised exactly by the sequence of keys inserted since the last reset, for any hash
 * functions; that no recent key is ever missed follows.
 */
module RollingBloom {
  import opened Words
  import opened Arithmetic

  /** A cell: a pair of words and a bit position in both. */
  datatype Cell = Cell(pair: nat, bit: nat)

  // ---------------------------------------------------------------------------
  // The exact meaning of the filter
  // ---------------------------------------------------------------------------

  /** What fixes a filter: its hash functions, its number of words and its generation size. */
  datatype Params<!Key> = Params(hash: (nat, Key) -> nat, hashFuncs: nat, words: nat, perGeneration: nat) {
    predicate Ok() {
      words >= 2 && words % 2 == 0 && perGeneration >= 1
    }

    /** FastMod of a 32-bit hash. */
    function Pos(h: nat): (p: nat)
      requires Ok() && h < 0x1_0000_0000
      ensures p < words
    {
      ScaleBelow(h, words);
      h * words / 0x1_0000_0000
    }

    /** RollingBloomHash: a 32-bit value. */
    function Hash32(n: nat, key: Key): nat {
      hash(n, key) % 0x1_0000_0000
    }

    function CellOf(n: nat, key: Key): Cell
      requires Ok()
    {
      var h := Hash32(n, key);
      Cell(Pos(h) / 2, h % BITS)
    }

    ghost predicate Touches(key: Key, c: Cell)
      requires Ok()
    {
      exists n: nat :: n < hashFuncs && CellOf(n, key) == c
    }

    /** The index of the last inserted key that touches a cell, or -1. */
    ghost function LastTouch(log: seq<Key>, c: Cell): (j: int)
      requires Ok()
      ensures -1 <= j < |log|
    {
      if log == [] then -1
      else if Touches(log[|log| - 1], c) then |log| - 1
      else LastTouch(log[..|log| - 1], c)
    }

    /** The generation, counted from 0, of the `j`-th inserted key. */
    function Generation(j: nat): nat
      requires Ok()
    {
      j / perGeneration
    }

    /** The generation being filled after the keys of `log`. */
    function Current(n: nat): nat
      requires Ok()
    {
      if n == 0 then 0 else Generation(n - 1)
    }

    /** The tag of a cell last touched by insertion `j`: its generation number, if still kept. */
    function TagOf(j: int, current: nat): nat
      requires Ok()
    {
      if j < 0 || Generation(j) + 2 < current then 0 else 1 + Generation(j) % 3
    }
  }

  lemma ScaleBelow(h: nat, n: nat)
    requires h < 0x1_0000_0000 && n > 0
    ensures h * n / 0x1_0000_0000 < n
  {
    assert h * n < 0x1_0000_0000 * n;
  }

  /** A hash is scaled from 32 bits to the number of words, rounding down. */
  lemma PosExact<Key>(p: Params<Key>, h: nat)
    requires p.Ok() && h < 0x1_0000_0000
    ensures p.Pos(h) * 0x1_0000_0000 <= h * p.words < (p.Pos(h) + 1) * 0x1_0000_0000
  {
  }

  /** The tag stored in a cell of the words. */
  function Tag(data: seq<Word>, c: Cell): nat
    requires 2 * c.pair + 1 < |data| && c.bit < BITS
  {
    (if data[2 * c.pair][c.bit] then 1 else 0) + (if data[2 * c.pair + 1][c.bit] then 2 else 0)
  }

  ghost predicate InData(words: nat, c: Cell) {
    2 * c.pair + 1 < words && c.bit < BITS
  }

  lemma CellInData<Key>(p: Params<Key>, n: nat, key: Key)
    requires p.Ok()
    ensures InData(p.words, p.CellOf(n, key))
  {
  }

  lemma {:induction false} LastTouchAfter<Key>(p: Params<Key>, log: seq<Key>, c: Cell, j: nat)
    requires p.Ok() && j < |log| && p.Touches(log[j], c)
    ensures p.LastTouch(log, c) >= j
  {
    if !p.Touches(log[|log| - 1], c) {
      LastTouchAfter(p, log[..|log| - 1], c, j);
    }
  }

  /** The filter reports a key exactly if each of its cells was touched in a kept generation. */
  ghost predicate Reported<Key>(p: Params<Key>, log: seq<Key>, key: Key)
    requires p.Ok()
  {
    forall n: nat :: n < p.hashFuncs ==> p.TagOf(p.LastTouch(log, p.CellOf(n, key)), p.Current(|log|)) != 0
  }

  lemma DivStep(j: nat, m: nat, e: nat)
    requires e >= 1 && j <= m <= j + 2 * e
    ensures j / e <= m / e <= j / e + 2
  {
    var q := j / e;
    assert j == q * e + j % e;
    DivAtLeast(m, q, e);
    assert (q + 3) * e == q * e + 3 * e;
    DivLess(m, q + 3, e);
  }

  /**
   * No false negatives: a key is reported as long as at most 2 * ceil(N / 2) keys were
   * inserted after it, and 2 * ceil(N / 2) >= N.
   */
  lemma RecentReported<Key>(p: Params<Key>, log: seq<Key>, j: nat)
    requires p.Ok() && j < |log| <= j + 1 + 2 * p.perGeneration
    ensures Reported(p, log, log[j])
  {
    forall n: nat | n < p.hashFuncs
      ensures p.TagOf(p.LastTouch(log, p.CellOf(n, log[j])), p.Current(|log|)) != 0
    {
      var c := p.CellOf(n, log[j]);
      assert p.Touches(log[j], c);
      LastTouchAfter(p, log, c, j);
      var last := p.LastTouch(log, c);
      DivStep(last, |log| - 1, p.perGeneration);
    }
  }

  /** nEntriesPerGeneration for N elements. */
  function EntriesPerGeneration(elements: nat): nat {
    (elements + 1) / 2
  }

  lemma EntriesEnough(elements: nat)
    requires elements >= 1
    ensures 2 * EntriesPerGeneration(elements) >= elements && EntriesPerGeneration(elements) >= 1
  {
  }

  /** A filter made for N elements reports a key until more than N others were inserted. */
  lemma LastNReported<Key>(p: Params<Key>, elements: nat, log: seq<Key>, j: nat)
    requires p.Ok() && elements >= 1 && p.perGeneration == EntriesPerGeneration(elements)
    requires j < |log| <= j + 1 + elements
    ensures Reported(p, log, log[j])
  {
    EntriesEnough(elements);
    RecentReported(p, log, j);
  }

  // ---------------------------------------------------------------------------
  // Insertion, cell by cell
  // ---------------------------------------------------------------------------

  /** Every cell holds the tag that the insertions so far give it, as of generation `current`. */
  ghost predicate Exact<Key>(p: Params<Key>, data: seq<Word>, log: seq<Key>, current: nat)
    requires p.Ok()
  {
    && |data| == p.words
    && forall c :: InData(p.words, c) ==> Tag(data, c) == p.TagOf(p.LastTouch(log, c), current)
  }

  /** The cells after a wipe of generation `g`: those tagged `g` are empty, the others as before. */
  ghost predicate Wiped(data: seq<Word>, data': seq<Word>, g: nat, from: nat) {
    && |data'| == |data|
    && forall c :: InData(|data|, c) ==>
         Tag(data', c) == if 2 * c.pair < from && Tag(data, c) == g then 0 else Tag(data, c)
  }

  /** When a generation is full, stepping its number cyclically gives the next generation's. */
  lemma Turn<Key>(p: Params<Key>, n: nat, generation: nat)
    requires p.Ok() && generation == 1 + p.Current(n) % 3 && n - p.Current(n) * p.perGeneration == p.perGeneration
    ensures n > 0 && p.words % 2 == 0 && 1 <= generation <= 3
    ensures (if generation == 3 then 1 else generation + 1) == 1 + (p.Current(n) + 1) % 3
  {
  }

  lemma WipedLength(data: seq<Word>, data': seq<Word>, g: nat)
    requires Wiped(data, data', g, |data'|)
    ensures |data'| == |data|
  {
  }

  /** Wiping one pair of words clears exactly the bits tagged with the generation. */
  lemma WipePair(data: seq<Word>, p: nat, g: nat)
    requires p + 1 < |data| && p % 2 == 0 && 1 <= g <= 3
    ensures var mask := Or(Xor(data[p], Fill(g % 2 == 1)), Xor(data[p + 1], Fill(g / 2 == 1)));
            var data' := data[p := And(data[p], mask)][p + 1 := And(data[p + 1], mask)];
            forall c :: InData(|data|, c) ==>
              Tag(data', c) == if 2 * c.pair == p && Tag(data, c) == g then 0 else Tag(data, c)
  {
    var mask := Or(Xor(data[p], Fill(g % 2 == 1)), Xor(data[p + 1], Fill(g / 2 == 1)));
    var data' := data[p := And(data[p], mask)][p + 1 := And(data[p + 1], mask)];
    forall c | InData(|data|, c)
      ensures Tag(data', c) == if 2 * c.pair == p && Tag(data, c) == g then 0 else Tag(data, c)
    {
      if 2 * c.pair == p {
        assert mask[c.bit] == !(data[p][c.bit] == (g % 2 == 1) && data[p + 1][c.bit] == (g / 2 == 1));
      }
    }
  }

  /** Entering a generation empties exactly the cells that generation replaces. */
  lemma WipeExact<Key>(p: Params<Key>, data: seq<Word>, data': seq<Word>, log: seq<Key>)
    requires p.Ok() && log != [] && Exact(p, data, log, p.Current(|log|))
    requires Wiped(data, data', 1 + (p.Current(|log|) + 1) % 3, |data|)
    ensures Exact(p, data', log, p.Current(|log|) + 1)
  {
    var cur := p.Current(|log|);
    forall c | InData(p.words, c) ensures Tag(data', c) == p.TagOf(p.LastTouch(log, c), cur + 1) {
      var j := p.LastTouch(log, c);
      assert Tag(data, c) == p.TagOf(j, cur);
      if j >= 0 {
        GenerationOrder(p, j, |log| - 1);
      }
    }
  }

  lemma GenerationOrder<Key>(p: Params<Key>, j: nat, m: nat)
    requires p.Ok() && j <= m
    ensures p.Generation(j) <= p.Generation(m)
  {
    assert j == (j / p.perGeneration) * p.perGeneration + j % p.perGeneration;
    DivAtLeast(m, j / p.perGeneration, p.perGeneration);
  }

  /** Some of the first `n` hash functions sends the key to the cell. */
  ghost predicate TouchedBy<Key>(p: Params<Key>, key: Key, n: nat, c: Cell)
    requires p.Ok()
  {
    exists k: nat :: k < n && p.CellOf(k, key) == c
  }

  /** Writing the generation into one cell changes that cell only. */
  lemma WriteCell(data: seq<Word>, c: Cell, g: nat)
    requires InData(|data|, c) && 1 <= g <= 3
    ensures var clear := Not(Shifted(true, c.bit));
            var data' := data[2 * c.pair := Or(And(data[2 * c.pair], clear), Shifted(g % 2 == 1, c.bit))]
                             [2 * c.pair + 1 := Or(And(data[2 * c.pair + 1], clear), Shifted(g / 2 == 1, c.bit))];
            forall d :: InData(|data|, d) ==> Tag(data', d) == if d == c then g else Tag(data, d)
  {
  }

  /** The two words that hash function n writes hold its cell. */
  lemma WriteHash<Key>(p: Params<Key>, data: seq<Word>, n: nat, key: Key, g: nat)
    requires p.Ok() && |data| == p.words && 1 <= g <= 3
    ensures var h := p.Hash32(n, key);
            var bit, pos := h % BITS, p.Pos(h);
            var even, odd := pos - pos % 2, pos - pos % 2 + 1;
            && 0 <= even < odd < |data|
            && var data' := data[even := Or(And(data[even], Not(Shifted(true, bit))), Shifted(g % 2 == 1, bit))]
                                [odd := Or(And(data[odd], Not(Shifted(true, bit))), Shifted(g / 2 == 1, bit))];
            forall c :: InData(p.words, c) ==> Tag(data', c) == if c == p.CellOf(n, key) then g else Tag(data, c)
  {
    CellInData(p, n, key);
    WriteCell(data, p.CellOf(n, key), g);
    hide Tag, Or, And, Not, Shifted;
  }

  /** After all hash functions have written, the new key is the last touch of its cells. */
  lemma InsertExact<Key>(p: Params<Key>, data: seq<Word>, data': seq<Word>, log: seq<Key>, key: Key)
    requires p.Ok() && Exact(p, data, log, p.Generation(|log|)) && |data'| == p.words
    requires forall c :: InData(p.words, c) ==>
               Tag(data', c) == if TouchedBy(p, key, p.hashFuncs, c) then 1 + p.Generation(|log|) % 3 else Tag(data, c)
    ensures Exact(p, data', log + [key], p.Current(|log| + 1))
  {
    var log' := log + [key];
    assert log'[..|log|] == log;
    forall c | InData(p.words, c) ensures Tag(data', c) == p.TagOf(p.LastTouch(log', c), p.Current(|log'|)) {
      assert p.Touches(key, c) <==> TouchedBy(p, key, p.hashFuncs, c);
    }
  }

  class Filter<Key(!new)> {
    var params: Params<Key>
    var entriesThisGeneration: nat
    var generation: nat
    var data: seq<Word>
    ghost var log: seq<Key>     // the keys inserted since the last reset

    ghost predicate Valid()
      reads this
    {
      && params.Ok() && |data| == params.words
      && generation == 1 + params.Current(|log|) % 3
      && entriesThisGeneration == |log| - params.Current(|log|) * params.perGeneration
      && Exact(params, data, log, params.Current(|log|))
    }

    constructor (p: Params<Key>)
      requires p.Ok()
      ensures Valid() && log == [] && params == p
    {
      params := p;
      entriesThisGeneration := 0;
      generation := 1;
      data := seq(p.words, _ => Fill(false));
      log := [];
    }

    /** Forget everything; the new tweak gives new hash functions. */
    method Reset(hash: (nat, Key) -> nat)
      requires Valid()
      modifies this
      ensures Valid() && log == [] && params == old(params).(hash := hash)
    {
      params := params.(hash := hash);
      entriesThisGeneration := 0;
      generation := 1;
      data := seq(|data|, _ => Fill(false));
      log := [];
    }

    /** Start the next generation and wipe the cells that used its number. */
    method NextGeneration()
      requires Valid() && entriesThisGeneration == params.perGeneration
      modifies this`entriesThisGeneration, this`generation, this`data
      ensures |data| == params.words
      ensures entriesThisGeneration == 0 && generation == 1 + (params.Current(|log|) + 1) % 3
      ensures Exact(params, data, log, params.Current(|log|) + 1)
    {
      hide Exact, Wiped;
      Turn(params, |log|, generation);
      entriesThisGeneration := 0;
      generation := generation + 1;
      if generation == 4 {
        generation := 1;
      }
      ghost var before := data;
      WipeAll();
      WipedLength(before, data, generation);
      WipeExact(params, before, data, log);
    }

    method WipeAll()
      requires 1 <= generation <= 3 && |data| % 2 == 0
      modifies this`data
      ensures Wiped(old(data), data, generation, |data|)
    {
      var p := 0;
      while p < |data|
        invariant 0 <= p <= |data| && p % 2 == 0 && |data| == old(|data|)
        invariant Wiped(old(data), data, generation, p)
      {
        WipePair(data, p, generation);
        var mask := Or(Xor(data[p], Fill(generation % 2 == 1)), Xor(data[p + 1], Fill(generation / 2 == 1)));
        data := data[p := And(data[p], mask)][p + 1 := And(data[p + 1], mask)];
        p := p + 2;
      }
    }

    method Insert(key: Key)
      requires Valid()
      modifies this
      ensures Valid() && log == old(log) + [key] && params == old(params)
    {
      hide Exact;
      Position(params, |log|);
      if entriesThisGeneration == params.perGeneration {
        NextGeneration();
      }
      entriesThisGeneration := entriesThisGeneration + 1;
      ghost var before := data;
      WriteAll(key);
      InsertExact(params, before, data, log, key);
      log := log + [key];
    }

    method WriteAll(key: Key)
      requires params.Ok() && |data| == params.words && 1 <= generation <= 3
      modifies this`data
      ensures |data| == old(|data|)
      ensures forall c :: InData(params.words, c) ==>
                Tag(data, c) == if TouchedBy(params, key, params.hashFuncs, c) then generation else Tag(old(data), c)
    {
      var n := 0;
      while n < params.hashFuncs
        invariant 0 <= n <= params.hashFuncs && |data| == old(|data|)
        invariant forall c :: InData(params.words, c) ==>
                    Tag(data, c) == if TouchedBy(params, key, n, c) then generation else Tag(old(data), c)
      {
        var h := params.Hash32(n, key);
        var bit, pos := h % BITS, params.Pos(h);
        var even, odd := pos - pos % 2, pos - pos % 2 + 1;
        WriteHash(params, data, n, key, generation);
        hide Tag, Or, And, Not, Shifted;
        data := data[even := Or(And(data[even], Not(Shifted(true, bit))), Shifted(generation % 2 == 1, bit))];
        data := data[odd := Or(And(data[odd], Not(Shifted(true, bit))), Shifted(generation / 2 == 1, bit))];
        n := n + 1;
      }
    }

    /** A key is reported exactly if all its cells were touched in a generation still kept. */
    method Contains(key: Key) returns (found: bool)
      requires Valid()
      ensures found <==> Reported(params, log, key)
    {
      var n := 0;
      while n < params.hashFuncs
        invariant 0 <= n <= params.hashFuncs
        invariant forall k: nat :: k < n ==>
                  params.TagOf(params.LastTouch(log, params.CellOf(k, key)), params.Current(|log|)) != 0
      {
        var h := params.Hash32(n, key);
        var bit, pos := h % BITS, params.Pos(h);
        CellInData(params, n, key);
        var even := pos - pos % 2;
        assert Tag(data, params.CellOf(n, key)) != 0 <==> Or(data[even], data[even + 1])[bit];
        if !Or(data[even], data[even + 1])[bit] {
          return false;
        }
        n := n + 1;
      }
      return true;
    }
  }

  /** Counting entries per generation keeps track of the generation of the next key. */
  lemma Position<Key>(p: Params<Key>, n: nat)
    requires p.Ok()
    ensures n - p.Current(n) * p.perGeneration <= p.perGeneration
    ensures n - p.Current(n) * p.perGeneration == p.perGeneration ==>
              p.Generation(n) == p.Current(n) + 1 && n > 0
    ensures n - p.Current(n) * p.perGeneration < p.perGeneration ==> p.Generation(n) == p.Current(n)
    ensures p.Current(n + 1) == p.Generation(n)
  {
    var e, cur := p.perGeneration, p.Current(n);
    if n > 0 {
      assert n - 1 == cur * e + (n - 1) % e;
    }
    var r := n - cur * e;
    if r == e {
      assert (cur + 1) * e == cur * e + e;
      DivUnique(n, e, cur + 1, 0);
    } else {
      DivUnique(n, e, cur, r);
    }
  }
}
