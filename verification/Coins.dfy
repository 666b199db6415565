/**
 * Layered UTXO caches (src/coins.h, src/coins.cpp) as values.  A cache is a map of entries
 * with DIRTY and FRESH flags over a base; the meaning of a cache over its base is a flat map
 * from outpoints to coins.  Flags are truthful when they say nothing false about the base.
 */
module Coins {
  import opened Wrappers

  type OutPoint = nat
  type Script = seq<nat>

  const SPENT_VALUE := -1

  /** A coin as the chain knows it: an unspent output with its script. */
  datatype FullCoin = FullCoin(value: int, script: Script, height: int, coinbase: bool)

  /** CoinImpl: a cached coin, whose script may not be loaded and whose storage may be elsewhere. */
  datatype CoinImpl = CoinImpl(
    value: int,
    script: Script,
    scriptSize: nat,
    height: int,
    coinbase: bool,
    owner: bool
  ) {
    predicate IsSpent() { value == SPENT_VALUE }

    predicate HasScript() { scriptSize == |script| }

    function MakeOwning(): CoinImpl { this.(owner := true) }

    function MakeNonOwning(): CoinImpl { this.(owner := false) }

    /** The owning copy without the script that a cache keeps of a coin stored elsewhere. */
    function WithoutScript(): CoinImpl { this.(script := [], owner := true) }

    function Full(): FullCoin { FullCoin(value, script, height, coinbase) }

    function Usage(scriptUsage: Script -> nat): nat {
      if HasScript() && owner then scriptUsage(script) else 0
    }
  }

  /** The default coin: spent, with an empty script. */
  const CLEARED := CoinImpl(SPENT_VALUE, [], 0, 0, false, true)

  /** CoinWithScript: an owning coin with its script. */
  function WithScript(f: FullCoin): CoinImpl {
    CoinImpl(f.value, f.script, |f.script|, f.height, f.coinbase, true)
  }

  datatype Entry = Entry(coin: CoinImpl, dirty: bool, isFresh: bool)

  type Cache = map<OutPoint, Entry>
  type View = map<OutPoint, FullCoin>

  /** No coin of a view is spent. */
  ghost predicate Unspent(v: View) {
    forall o :: o in v ==> v[o].value != SPENT_VALUE
  }

  /** The cached coin is this coin, with or without its script. */
  predicate Matches(c: CoinImpl, f: FullCoin) {
    && c.value == f.value && c.height == f.height && c.coinbase == f.coinbase
    && c.scriptSize == |f.script|
    && (c.HasScript() ==> c.script == f.script)
  }

  /** What a cached coin says about an outpoint agrees with the base. */
  ghost predicate Agrees(c: CoinImpl, base: View, o: OutPoint) {
    if c.IsSpent() then o !in base else o in base && Matches(c, base[o])
  }

  /** The coin visible at an outpoint through one entry. */
  ghost function Shown(e: Entry, base: View, o: OutPoint): Option<FullCoin> {
    if e.coin.IsSpent() then None
    else if e.coin.HasScript() then Some(e.coin.Full())
    else Lookup(base, o)
  }

  function Lookup(v: View, o: OutPoint): Option<FullCoin> {
    if o in v then Some(v[o]) else None
  }

  ghost function Visible(c: Cache, base: View, o: OutPoint): Option<FullCoin> {
    if o in c then Shown(c[o], base, o) else Lookup(base, o)
  }

  /** The flat map that a cache over a base stands for. */
  ghost function Flat(c: Cache, base: View): (v: View)
    ensures forall o :: Lookup(v, o) == Visible(c, base, o)
  {
    map o | o in c.Keys + base.Keys && Visible(c, base, o).Some? :: Visible(c, base, o).value
  }

  /** The flags of one entry say nothing false about the base. */
  ghost predicate EntryTruthful(e: Entry, base: View, o: OutPoint) {
    && (e.isFresh ==> o !in base)
    && (!e.dirty ==> Agrees(e.coin, base, o))
    && (e.dirty && !e.coin.IsSpent() ==> e.coin.HasScript())
  }

  ghost predicate Truthful(c: Cache, base: View) {
    Unspent(base) && forall o :: o in c ==> EntryTruthful(c[o], base, o)
  }

  /** Two views are equal if they show the same coin everywhere. */
  lemma SameView(v: View, w: View)
    requires forall o :: Lookup(v, o) == Lookup(w, o)
    ensures v == w
  {
    forall o ensures o in v <==> o in w {
      assert Lookup(v, o) == Lookup(w, o);
    }
    forall o | o in v ensures v[o] == w[o] {
      assert Lookup(v, o) == Lookup(w, o);
    }
  }

  lemma FlatUnspent(c: Cache, base: View)
    requires Truthful(c, base)
    ensures Unspent(Flat(c, base))
  {
    var v := Flat(c, base);
    forall o | o in v ensures v[o].value != SPENT_VALUE {
      assert Lookup(v, o) == Visible(c, base, o);
      assert o in c ==> EntryTruthful(c[o], base, o);
    }
  }

  // ---------------------------------------------------------------------------
  // Operations of one store (CoinsStore)
  // ---------------------------------------------------------------------------

  datatype Error = ReplacesUnspent | FreshMisapplied

  /** AddCoin of a coin fetched from the base; FRESH if the base only has an empty entry. */
  function AddFetched(c: Cache, o: OutPoint, coin: CoinImpl): Cache {
    c[o := Entry(coin, false, coin.IsSpent())]
  }

  /** AddCoin of a new coin with script. */
  function AddNew(c: Cache, o: OutPoint, coin: FullCoin, overwrite: bool): Result<Cache, Error> {
    var e := if o in c then c[o] else Entry(CLEARED, false, false);
    if !overwrite && !e.coin.IsSpent() then Err(ReplacesUnspent)
    else Ok(c[o := Entry(WithScript(coin), true, e.isFresh || (!overwrite && !e.dirty))])
  }

  /** SpendCoin: forget a fresh entry, mark any other as spent. */
  function Spend(c: Cache, o: OutPoint): Cache {
    if o !in c then c
    else if c[o].isFresh then c - {o}
    else c[o := Entry(CLEARED, true, false)]
  }

  /** Uncache one outpoint: drop an entry without flags. */
  function Uncache(c: Cache, o: OutPoint): Cache {
    if o in c && !c[o].dirty && !c[o].isFresh then c - {o} else c
  }

  /** ReplaceWithCoinWithScript: the script of a cached coin has been loaded. */
  function LoadScript(c: Cache, o: OutPoint, coin: CoinImpl): Cache
    requires o in c
  {
    c[o := c[o].(coin := coin)]
  }

  /** BatchWrite of one entry of a child cache. */
  function WriteOne(c: Cache, o: OutPoint, e: Entry): Result<Cache, Error> {
    if !e.dirty then Ok(c)
    else if o !in c then
      if e.isFresh && e.coin.IsSpent() then Ok(c)
      else Ok(c[o := Entry(e.coin, true, e.isFresh)])
    else if e.isFresh && !c[o].coin.IsSpent() then Err(FreshMisapplied)
    else if c[o].isFresh && e.coin.IsSpent() then Ok(c - {o})
    else Ok(c[o := Entry(e.coin, true, c[o].isFresh)])
  }

  // ---------------------------------------------------------------------------
  // Their effect on the flat map and on the flags
  // ---------------------------------------------------------------------------

  /** Only the coin at `o` may look different. */
  ghost predicate OnlyAt(c: Cache, c': Cache, o: OutPoint) {
    forall p :: p != o ==> (p in c' <==> p in c) && (p in c ==> c'[p] == c[p])
  }

  lemma FlatAt(c: Cache, c': Cache, base: View, o: OutPoint)
    requires OnlyAt(c, c', o)
    ensures forall p :: p != o ==> Lookup(Flat(c', base), p) == Lookup(Flat(c, base), p)
  {
    forall p | p != o ensures Lookup(Flat(c', base), p) == Lookup(Flat(c, base), p) {
      assert Visible(c', base, p) == Visible(c, base, p);
    }
  }

  lemma TruthfulAt(c: Cache, c': Cache, base: View, o: OutPoint)
    requires Truthful(c, base) && OnlyAt(c, c', o)
    ensures Truthful(c', base) <==> (o in c' ==> EntryTruthful(c'[o], base, o))
  {
  }

  /** Filling the cache from the base changes nothing that is visible. */
  lemma AddFetchedKeeps(c: Cache, base: View, o: OutPoint, coin: CoinImpl)
    requires Truthful(c, base) && o !in c && Agrees(coin, base, o)
    ensures Truthful(AddFetched(c, o, coin), base)
    ensures Flat(AddFetched(c, o, coin), base) == Flat(c, base)
  {
    var c' := AddFetched(c, o, coin);
    TruthfulAt(c, c', base, o);
    FlatAt(c, c', base, o);
    assert Visible(c', base, o) == Visible(c, base, o);
    SameView(Flat(c', base), Flat(c, base));
  }

  lemma LoadScriptKeeps(c: Cache, base: View, o: OutPoint, coin: CoinImpl)
    requires Truthful(c, base) && o in c && !c[o].coin.IsSpent() && !c[o].coin.HasScript()
    requires coin.HasScript() && o in base && Matches(coin, base[o])
    ensures Truthful(LoadScript(c, o, coin), base)
    ensures Flat(LoadScript(c, o, coin), base) == Flat(c, base)
  {
    var c' := LoadScript(c, o, coin);
    assert EntryTruthful(c[o], base, o);
    TruthfulAt(c, c', base, o);
    FlatAt(c, c', base, o);
    assert Visible(c', base, o) == Visible(c, base, o);
    SameView(Flat(c', base), Flat(c, base));
  }

  lemma UncacheKeeps(c: Cache, base: View, o: OutPoint)
    requires Truthful(c, base)
    ensures Truthful(Uncache(c, o), base) && Flat(Uncache(c, o), base) == Flat(c, base)
  {
    var c' := Uncache(c, o);
    TruthfulAt(c, c', base, o);
    FlatAt(c, c', base, o);
    assert o in c ==> EntryTruthful(c[o], base, o);
    assert Visible(c', base, o) == Visible(c, base, o);
    SameView(Flat(c', base), Flat(c, base));
  }

  /** Spending removes exactly the coin at `o`, whatever the flags did. */
  lemma SpendKeeps(c: Cache, base: View, o: OutPoint)
    requires Truthful(c, base) && (o in c || o !in base)
    ensures Truthful(Spend(c, o), base) && Flat(Spend(c, o), base) == Flat(c, base) - {o}
  {
    var c' := Spend(c, o);
    TruthfulAt(c, c', base, o);
    FlatAt(c, c', base, o);
    assert o in c ==> EntryTruthful(c[o], base, o);
    assert Visible(c', base, o) == None;
    assert Lookup(Flat(c', base), o) == None;
    SameView(Flat(c', base), Flat(c, base) - {o});
  }

  /** The documented precondition of AddCoin: the caller has looked the outpoint up before. */
  ghost predicate LookedUp(c: Cache, base: View, o: OutPoint) {
    o in c || o !in base
  }

  /**
   * Adding a coin succeeds exactly if overwriting is allowed or no unspent coin is cached, and
   * then the flat map gains exactly that coin.  The flags stay truthful exactly if the caller
   * allowed overwriting or had looked the outpoint up.
   */
  lemma AddNewKeeps(c: Cache, base: View, o: OutPoint, coin: FullCoin, overwrite: bool)
    requires Truthful(c, base) && coin.value != SPENT_VALUE
    ensures AddNew(c, o, coin, overwrite).Ok? <==> overwrite || o !in c || c[o].coin.IsSpent()
    ensures AddNew(c, o, coin, overwrite).Ok? ==>
              var c' := AddNew(c, o, coin, overwrite).value;
              && Flat(c', base) == Flat(c, base)[o := coin]
              && (Truthful(c', base) <==> overwrite || LookedUp(c, base, o))
  {
    if AddNew(c, o, coin, overwrite).Ok? {
      var c' := AddNew(c, o, coin, overwrite).value;
      TruthfulAt(c, c', base, o);
      FlatAt(c, c', base, o);
      assert o in c ==> EntryTruthful(c[o], base, o);
      assert Visible(c', base, o) == Some(coin);
      assert Lookup(Flat(c', base), o) == Some(coin);
      SameView(Flat(c', base), Flat(c, base)[o := coin]);
    }
  }

  /** A cache under which the flags of AddCoin are wrong: the coin was never looked up. */
  lemma AddNewNeedsLookup()
    ensures exists c: Cache, base: View, o: OutPoint, coin: FullCoin ::
              && Truthful(c, base) && coin.value != SPENT_VALUE
              && AddNew(c, o, coin, false).Ok? && !Truthful(AddNew(c, o, coin, false).value, base)
  {
    var c: Cache, base: View := map[], map[7 := FullCoin(5, [], 1, false)];
    var coin := FullCoin(6, [], 2, false);
    assert Truthful(c, base) && 7 in base && !LookedUp(c, base, 7);
    AddNewKeeps(c, base, 7, coin, false);
  }

  /** A coin that the base does not have leaves no trace once it is added and spent. */
  lemma AddedAndSpent(c: Cache, o: OutPoint, coin: FullCoin)
    requires o !in c
    ensures AddNew(c, o, coin, false).Ok? && Spend(AddNew(c, o, coin, false).value, o) == c
  {
  }

  /** Nor does it if the base was asked first and returned a spent coin. */
  lemma FetchedAddedAndSpent(c: Cache, o: OutPoint, spent: CoinImpl, coin: FullCoin, overwrite: bool)
    requires o !in c && spent.IsSpent()
    ensures var fetched := AddFetched(c, o, spent);
            && AddNew(fetched, o, coin, overwrite).Ok?
            && Spend(AddNew(fetched, o, coin, overwrite).value, o) == c
  {
    var added := AddNew(AddFetched(c, o, spent), o, coin, overwrite).value;
    assert added - {o} == c;
  }

  /** A flush of a spent coin leaves no trace in a parent whose own base does not have it. */
  lemma SpentAndFlushed(c: Cache, o: OutPoint, e: Entry)
    requires e.dirty && e.coin.IsSpent()
    requires (o in c && c[o].isFresh && (e.isFresh ==> c[o].coin.IsSpent())) || (o !in c && e.isFresh)
    ensures WriteOne(c, o, e).Ok? && WriteOne(c, o, e).value == c - {o}
  {
    assert o !in c ==> c - {o} == c;
  }
}
