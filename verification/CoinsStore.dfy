/**
 * The coin store as the class it is (CoinsStore, src/coins.h): a map of entries updated in
 * place together with a running total of the memory its scripts use.  Every method is proved
 * equal to the function of module Coins, and the total stays exact.
 */
module CoinsStore {
  import opened Wrappers
  import opened Coins
  import CV = CoinsView
  import opened MapSum

  class CoinsStore {
    /** memusage::DynamicUsage of a script; nothing is allocated for an empty script. */
    const scriptUsage: Script -> nat
    var cacheCoins: Cache
    var cachedCoinsUsage: nat

    ghost function EntryUsage(): Entry -> nat {
      (e: Entry) => e.coin.Usage(scriptUsage)
    }

    /** The running total is the sum over all entries. */
    ghost predicate Valid()
      reads this
    {
      scriptUsage([]) == 0 && cachedCoinsUsage == Sum(cacheCoins, EntryUsage())
    }

    constructor (scriptUsage: Script -> nat)
      requires scriptUsage([]) == 0
      ensures Valid() && cacheCoins == map[] && this.scriptUsage == scriptUsage
    {
      this.scriptUsage := scriptUsage;
      cacheCoins := map[];
      cachedCoinsUsage := 0;
    }

    method FetchCoin(o: OutPoint) returns (coin: Option<CoinImpl>)
      ensures coin == CV.Fetch(cacheCoins, o)
    {
      if o in cacheCoins {
        var c := cacheCoins[o].coin;
        if c.HasScript() {
          return Some(c.MakeNonOwning());
        }
        return Some(c.MakeOwning());
      }
      return None;
    }

    /** AddCoin of a coin fetched from the base. */
    method AddFetched(o: OutPoint, coin: CoinImpl)
      requires Valid() && o !in cacheCoins   // assert(res.second)
      modifies this
      ensures Valid() && cacheCoins == Coins.AddFetched(old(cacheCoins), o, coin)
      ensures cachedCoinsUsage == old(cachedCoinsUsage) + coin.Usage(scriptUsage)
    {
      var entry := Entry(coin, false, false);
      if coin.IsSpent() {
        entry := entry.(isFresh := true);
      }
      SumUpdate(cacheCoins, EntryUsage(), o, entry);
      cacheCoins := cacheCoins[o := entry];
      cachedCoinsUsage := cachedCoinsUsage + entry.coin.Usage(scriptUsage);
    }

    /** AddCoin of a new coin with script. */
    method AddNew(o: OutPoint, coin: FullCoin, overwrite: bool) returns (outcome: Result<(), Error>)
      requires Valid()
      modifies this
      ensures Valid()
      ensures match Coins.AddNew(old(cacheCoins), o, coin, overwrite)
              case Err(e) => outcome == Err(e) && cacheCoins == old(cacheCoins)
              case Ok(c) => outcome == Ok(()) && cacheCoins == c
    {
      var inserted := o !in cacheCoins;
      var entry := if inserted then Entry(CLEARED, false, false) else cacheCoins[o];
      var fresh_ := false;
      if !overwrite {
        if !entry.coin.IsSpent() {
          return Err(ReplacesUnspent);
        }
        fresh_ := !entry.dirty;
      }
      var entry' := Entry(WithScript(coin), true, entry.isFresh || fresh_);
      SumUpdate(cacheCoins, EntryUsage(), o, entry');
      if !inserted {
        SumSplit(cacheCoins, EntryUsage(), o);
        cachedCoinsUsage := cachedCoinsUsage - entry.coin.Usage(scriptUsage);
      }
      cacheCoins := cacheCoins[o := entry'];
      cachedCoinsUsage := cachedCoinsUsage + entry'.coin.Usage(scriptUsage);
      return Ok(());
    }

    method SpendCoin(o: OutPoint) returns (found: bool)
      requires Valid()
      modifies this
      ensures Valid() && found == (o in old(cacheCoins)) && cacheCoins == Spend(old(cacheCoins), o)
    {
      if o !in cacheCoins {
        return false;
      }
      SumSplit(cacheCoins, EntryUsage(), o);
      cachedCoinsUsage := cachedCoinsUsage - cacheCoins[o].coin.Usage(scriptUsage);
      if cacheCoins[o].isFresh {
        cacheCoins := cacheCoins - {o};
      } else {
        SumUpdate(cacheCoins, EntryUsage(), o, Entry(CLEARED, true, false));
        cacheCoins := cacheCoins[o := Entry(CLEARED, true, false)];
      }
      return true;
    }

    method EraseCoin(o: OutPoint)
      requires Valid() && o in cacheCoins
      modifies this
      ensures Valid() && cacheCoins == old(cacheCoins) - {o}
    {
      SumSplit(cacheCoins, EntryUsage(), o);
      cachedCoinsUsage := cachedCoinsUsage - cacheCoins[o].coin.Usage(scriptUsage);
      cacheCoins := cacheCoins - {o};
    }

    /** Uncache drops exactly the listed entries that carry no flag; nothing visible changes. */
    method UncacheAll(outpoints: seq<OutPoint>, ghost base: View)
      requires Valid()
      modifies this
      ensures Valid()
      ensures old(Truthful(cacheCoins, base)) ==>
                Truthful(cacheCoins, base) && Flat(cacheCoins, base) == old(Flat(cacheCoins, base))
      ensures forall o :: o in cacheCoins <==>
                            && o in old(cacheCoins)
                            && !(o in outpoints && !old(cacheCoins)[o].dirty && !old(cacheCoins)[o].isFresh)
      ensures forall o :: o in cacheCoins ==> cacheCoins[o] == old(cacheCoins)[o]
    {
      var i := 0;
      while i < |outpoints|
        invariant 0 <= i <= |outpoints|
        invariant Valid()
        invariant old(Truthful(cacheCoins, base)) ==>
                    Truthful(cacheCoins, base) && Flat(cacheCoins, base) == old(Flat(cacheCoins, base))
        invariant forall o :: o in cacheCoins ==> o in old(cacheCoins) && cacheCoins[o] == old(cacheCoins)[o]
        invariant forall o :: o in old(cacheCoins) ==>
                    (o in cacheCoins <==>
                     !(o in outpoints[..i] && !old(cacheCoins)[o].dirty && !old(cacheCoins)[o].isFresh))
      {
        var o := outpoints[i];
        if Truthful(cacheCoins, base) {
          UncacheKeeps(cacheCoins, base, o);
        }
        if o in cacheCoins && !cacheCoins[o].dirty && !cacheCoins[o].isFresh {
          EraseCoin(o);
        }
        assert outpoints[..i + 1] == outpoints[..i] + [o];
        i := i + 1;
      }
      assert outpoints[..i] == outpoints;
    }

    method ReplaceWithCoinWithScript(o: OutPoint, coin: CoinImpl)
      requires Valid() && o in cacheCoins && !cacheCoins[o].coin.HasScript() && coin.HasScript()
      modifies this
      ensures Valid() && cacheCoins == LoadScript(old(cacheCoins), o, coin)
    {
      SumUpdate(cacheCoins, EntryUsage(), o, cacheCoins[o].(coin := coin));
      cacheCoins := cacheCoins[o := cacheCoins[o].(coin := coin)];
      cachedCoinsUsage := cachedCoinsUsage + coin.Usage(scriptUsage);
    }

    method MoveOutCoins() returns (coins: Cache)
      requires Valid()
      modifies this
      ensures Valid() && coins == old(cacheCoins) && cacheCoins == map[]
    {
      cachedCoinsUsage := 0;
      coins := cacheCoins;
      cacheCoins := map[];
    }

    method AddEntry(o: OutPoint, entry: Entry)
      requires Valid() && o !in cacheCoins
      modifies this
      ensures Valid() && cacheCoins == old(cacheCoins)[o := Entry(entry.coin, true, entry.isFresh)]
    {
      SumUpdate(cacheCoins, EntryUsage(), o, Entry(entry.coin, true, entry.isFresh));
      cacheCoins := cacheCoins[o := Entry(entry.coin, true, entry.isFresh)];
      cachedCoinsUsage := cachedCoinsUsage + entry.coin.Usage(scriptUsage);
    }

    method UpdateEntry(o: OutPoint, entry: Entry)
      requires Valid() && o in cacheCoins
      modifies this
      ensures Valid() && cacheCoins == old(cacheCoins)[o := Entry(entry.coin, true, old(cacheCoins)[o].isFresh)]
    {
      var updated := Entry(entry.coin, true, cacheCoins[o].isFresh);
      SumUpdate(cacheCoins, EntryUsage(), o, updated);
      SumSplit(cacheCoins, EntryUsage(), o);
      cachedCoinsUsage := cachedCoinsUsage - cacheCoins[o].coin.Usage(scriptUsage);
      cacheCoins := cacheCoins[o := updated];
      cachedCoinsUsage := cachedCoinsUsage + updated.coin.Usage(scriptUsage);
    }

    /** One turn of the loop of BatchWrite. */
    method WriteOne(o: OutPoint, e: Entry) returns (outcome: Result<(), Error>)
      requires Valid()
      modifies this
      ensures Valid()
      ensures match Coins.WriteOne(old(cacheCoins), o, e)
              case Err(x) => outcome == Err(x) && cacheCoins == old(cacheCoins)
              case Ok(c) => outcome == Ok(()) && cacheCoins == c
    {
      if e.dirty {
        if o !in cacheCoins {
          if !(e.isFresh && e.coin.IsSpent()) {
            AddEntry(o, e);
          }
        } else {
          if e.isFresh && !cacheCoins[o].coin.IsSpent() {
            return Err(FreshMisapplied);
          }
          if cacheCoins[o].isFresh && e.coin.IsSpent() {
            EraseCoin(o);
          } else {
            UpdateEntry(o, e);
          }
        }
      }
      return Ok(());
    }

    /**
     * BatchWrite consumes a child cache in any order and stops at the first error.  With
     * truthful flags on both sides there is no error, and this store then shows over its base
     * what the child showed over this store.
     */
    method BatchWrite(child: Cache, ghost base: View) returns (outcome: Result<(), Error>)
      requires Valid()
      modifies this
      ensures Valid()
      ensures old(Truthful(cacheCoins, base)) && Truthful(child, old(Flat(cacheCoins, base))) ==>
                && outcome == Ok(()) && Truthful(cacheCoins, base)
                && Flat(cacheCoins, base) == Flat(child, old(Flat(cacheCoins, base)))
    {
      ghost var v := Flat(cacheCoins, base);
      ghost var truthful := Truthful(cacheCoins, base) && Truthful(child, v);
      var mapCoins := child;
      while mapCoins != map[]
        invariant Valid() && (truthful ==> HalfWritten(cacheCoins, base, child, mapCoins, v))
        decreases |mapCoins|
      {
        var o :| o in mapCoins;
        if truthful {
          BatchStep(cacheCoins, base, child, mapCoins, v, o);
        }
        hide HalfWritten;
        outcome := WriteOne(o, mapCoins[o]);
        if outcome.Err? {
          return;
        }
        mapCoins := mapCoins - {o};
      }
      outcome := Ok(());
      if truthful {
        BatchDone(cacheCoins, base, child, v);
      }
    }
  }

  /** CCoinsViewCache: a store over a base view; `answer` is what the base's GetCoin returns. */
  class CoinsViewCache {
    const cache: CoinsStore

    constructor (scriptUsage: Script -> nat)
      requires scriptUsage([]) == 0
      ensures cache.Valid() && cache.cacheCoins == map[] && fresh(cache)
    {
      cache := new CoinsStore(scriptUsage);
    }

    method GetCoin(o: OutPoint, needScript: bool, answer: Option<CoinImpl>, ghost base: View)
      returns (coin: Option<CoinImpl>)
      requires cache.Valid() && Truthful(cache.cacheCoins, base) && CV.Answer(base, o, needScript, answer)
      modifies cache
      ensures cache.Valid() && (cache.cacheCoins, coin) == CV.GetCoin(old(cache.cacheCoins), o, needScript, answer)
      ensures Truthful(cache.cacheCoins, base) && Flat(cache.cacheCoins, base) == old(Flat(cache.cacheCoins, base))
      ensures CV.Reports(coin, Flat(cache.cacheCoins, base), o, needScript)
      ensures cache.cachedCoinsUsage == old(cache.cachedCoinsUsage)
    {
      CV.GetCoinCorrect(cache.cacheCoins, base, o, needScript, answer);
      hide Truthful, Flat, CV.Reports, CV.Answer;
      var fromCache := cache.FetchCoin(o);
      if fromCache.Some? {
        if fromCache.value.IsSpent() || fromCache.value.HasScript() {
          return fromCache;
        } else if !needScript {
          return Some(fromCache.value.WithoutScript());
        }
      }
      if answer.Some? && fromCache.None? {
        if answer.value.owner {
          cache.AddFetched(o, answer.value.WithoutScript());
        } else {
          cache.AddFetched(o, answer.value.MakeNonOwning());
        }
      }
      return answer;
    }

    method HaveCoin(o: OutPoint, answer: Option<CoinImpl>, ghost base: View) returns (have: bool)
      requires cache.Valid() && Truthful(cache.cacheCoins, base) && CV.Answer(base, o, false, answer)
      modifies cache
      ensures cache.Valid() && Truthful(cache.cacheCoins, base)
      ensures Flat(cache.cacheCoins, base) == old(Flat(cache.cacheCoins, base))
              && (have <==> o in Flat(cache.cacheCoins, base))
    {
      hide Truthful, Flat, CV.Answer, CV.GetCoin;
      var coin := GetCoin(o, false, answer, base);
      return coin.Some? && !coin.value.IsSpent();
    }

    /**
     * AddCoin.  The flags stay truthful if and only if nothing was added, overwriting was
     * allowed or the outpoint had been looked up; then the flat map changes as specified.
     */
    method AddCoin(o: OutPoint, coin: FullCoin, unspendable: bool, overwrite: bool, ghost base: View)
      returns (outcome: Result<(), Error>)
      requires cache.Valid() && Truthful(cache.cacheCoins, base) && coin.value != SPENT_VALUE
      modifies cache
      ensures cache.Valid()
      ensures Truthful(cache.cacheCoins, base) <==>
              unspendable || outcome.Err? || overwrite || old(LookedUp(cache.cacheCoins, base, o))
      ensures outcome.Ok? <==>
              unspendable || overwrite || o !in old(cache.cacheCoins) || old(cache.cacheCoins)[o].coin.IsSpent()
      ensures outcome.Err? ==> o in old(Flat(cache.cacheCoins, base))
      ensures Flat(cache.cacheCoins, base) ==
                if unspendable || outcome.Err? then old(Flat(cache.cacheCoins, base))
                else old(Flat(cache.cacheCoins, base))[o := coin]
      ensures overwrite || old(LookedUp(cache.cacheCoins, base, o)) ==>
                Flat(cache.cacheCoins, base) ==
                  CV.ApplyFlat(old(Flat(cache.cacheCoins, base)), CV.AddTo(o, coin, unspendable, overwrite))
    {
      AddNewKeeps(cache.cacheCoins, base, o, coin, overwrite);
      CV.CachedUnspent(cache.cacheCoins, base, o);
      hide Truthful, Flat;
      if unspendable {
        return Ok(());
      }
      outcome := cache.AddNew(o, coin, overwrite);
    }

    method SpendCoin(o: OutPoint, moveOut: bool, answer: Option<CoinImpl>, ghost base: View)
      returns (done: bool, moved: Option<CoinImpl>)
      requires cache.Valid() && Truthful(cache.cacheCoins, base) && CV.Answer(base, o, moveOut, answer)
      modifies cache
      ensures cache.Valid() && Truthful(cache.cacheCoins, base)
      ensures Flat(cache.cacheCoins, base) == old(Flat(cache.cacheCoins, base)) - {o}
      ensures done <==> o in old(cache.cacheCoins) || answer.Some?
      ensures o in old(Flat(cache.cacheCoins, base)) ==> done
      ensures o in old(Flat(cache.cacheCoins, base)) && moveOut ==>
                moved == Some(WithScript(old(Flat(cache.cacheCoins, base))[o]))
    {
      CV.SpendCoinCorrect(cache.cacheCoins, base, o, moveOut, answer);
      hide Truthful, Flat, CV.Reports, CV.Answer, CV.GetCoin;
      moved := None;
      var coin := GetCoin(o, moveOut, answer, base);
      if coin.None? {
        return false, None;
      }
      if moveOut {
        moved := Some(coin.value.MakeOwning());
      }
      done := cache.SpendCoin(o);
    }
  }

  /** The state of a flush when the entries `left` of the child are still to be written. */
  ghost predicate HalfWritten(c: Cache, base: View, child: Cache, left: Cache, v: View) {
    && Truthful(c, base)
    && (forall o :: o in left ==> o in child && left[o] == child[o] && EntryTruthful(left[o], Flat(c, base), o))
    && (forall o :: Lookup(Flat(c, base), o) == Written(child, left, v, o))
  }

  lemma BatchStep(c: Cache, base: View, child: Cache, left: Cache, v: View, o: OutPoint)
    requires HalfWritten(c, base, child, left, v) && o in left
    ensures Coins.WriteOne(c, o, left[o]).Ok?
    ensures HalfWritten(Coins.WriteOne(c, o, left[o]).value, base, child, left - {o}, v)
  {
    hide Coins.WriteOne, Flat, Truthful;
    CV.WriteOneKeeps(c, base, o, left[o]);
    var c' := Coins.WriteOne(c, o, left[o]).value;
    var before, after := Flat(c, base), Flat(c', base);
    forall p | p in left && p != o ensures EntryTruthful(left[p], after, p) {
      CV.EntryTruthfulLocal(left[p], before, after, p);
    }
    forall p ensures Lookup(after, p) == Written(child, left - {o}, v, p) {
      assert Lookup(before, p) == Written(child, left, v, p);
      assert Lookup(before, o) == Lookup(v, o);
    }
  }

  lemma BatchDone(c: Cache, base: View, child: Cache, v: View)
    requires HalfWritten(c, base, child, map[], v)
    ensures Flat(c, base) == Flat(child, v)
  {
    forall o ensures Lookup(Flat(c, base), o) == Lookup(Flat(child, v), o) {
      assert Lookup(Flat(child, v), o) == Visible(child, v, o);
    }
    SameView(Flat(c, base), Flat(child, v));
  }

  /** What the parent shows while the entries `left` of the child are still to be written. */
  ghost function Written(child: Cache, left: Cache, v: View, o: OutPoint): Option<FullCoin> {
    if o in child && o !in left then Shown(child[o], v, o) else Lookup(v, o)
  }
}
