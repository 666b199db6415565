/**
 * The coin database with its cache (CoinsDB, src/txdb.cpp) as the base of a view: it answers
 * as a base must, and a whole run over it is the same run on a flat map.
 */
module CoinsDB {
  import opened Wrappers
  import opened Coins
  import opened CoinsView
  import S = CoinsStore

  // ---------------------------------------------------------------------------
  // Reading through the cache of the database
  // ---------------------------------------------------------------------------

  /** The cache space left for scripts. */
  function Room(threshold: nat, usage: nat): nat {
    if threshold > usage then threshold - usage else 0
  }

  predicate HasSpace(threshold: nat, usage: nat, size: nat) {
    threshold >= usage + size
  }

  /** DBGetCoin: the script is read if it is asked for or fits the room left. */
  function DbRead(db: View, o: OutPoint, needScript: bool, room: nat): Option<CoinImpl> {
    if o !in db then None
    else if needScript || |db[o].script| <= room then Some(WithScript(db[o]))
    else Some(WithScript(db[o]).WithoutScript())
  }

  /**
   * GetCoin of the database.  `before` is the memory in use when the coin is looked up,
   * `after` when it is stored; other threads may load other coins in between.
   */
  function DbGet(c: Cache, db: View, o: OutPoint, needScript: bool, threshold: nat, before: nat, after: nat)
    : (Cache, Option<CoinImpl>)
  {
    var cached := Fetch(c, o);
    if cached.Some? && cached.value.IsSpent() then (c, None)
    else if cached.Some? && cached.value.HasScript() then (c, cached)
    else if cached.Some? && !needScript then (c, Some(cached.value.WithoutScript()))
    else
      match DbRead(db, o, needScript, Room(threshold, before))
      case None => (c, None)
      case Some(coin) =>
        if cached.Some? then
          if HasSpace(threshold, after, coin.scriptSize) then (LoadScript(c, o, coin), Some(coin.MakeNonOwning()))
          else (c, Some(coin))
        else if HasSpace(threshold, after, coin.scriptSize) then (AddFetched(c, o, coin), Some(coin.MakeNonOwning()))
        else (AddFetched(c, o, coin.WithoutScript()), Some(coin))
  }

  /** The database answers as a base must, and reading changes nothing that is visible. */
  lemma DbGetCorrect(c: Cache, db: View, o: OutPoint, needScript: bool, threshold: nat, before: nat, after: nat)
    requires Truthful(c, db) && before <= after
    ensures var (c', r) := DbGet(c, db, o, needScript, threshold, before, after);
            && Truthful(c', db) && Flat(c', db) == Flat(c, db)
            && Answer(Flat(c, db), o, needScript, r)
            && (r.Some? ==> !r.value.IsSpent())
  {
    assert Lookup(Flat(c, db), o) == Visible(c, db, o);
    assert o in c ==> EntryTruthful(c[o], db, o);
    var cached, read := Fetch(c, o), DbRead(db, o, needScript, Room(threshold, before));
    if read.Some? {
      var coin := read.value;
      if cached.None? {
        AddFetchedKeeps(c, db, o, coin);
        AddFetchedKeeps(c, db, o, coin.WithoutScript());
      } else if !cached.value.IsSpent() && !cached.value.HasScript() && needScript {
        LoadScriptKeeps(c, db, o, coin);
      }
    }
  }

  /**
   * What a read puts into the cache: every coin that the database has, with its script exactly
   * if the threshold leaves room for it; entries that were there keep their flags, and no
   * other entry changes.
   */
  lemma DbGetCaches(c: Cache, db: View, o: OutPoint, needScript: bool, threshold: nat, before: nat, after: nat)
    requires Truthful(c, db) && before <= after
    ensures var c' := DbGet(c, db, o, needScript, threshold, before, after).0;
            && OnlyAt(c, c', o)
            && (o !in c ==>
                  && (o in c' <==> o in db)
                  && (o in db ==>
                        && !c'[o].dirty && !c'[o].isFresh && c'[o].coin.owner && Matches(c'[o].coin, db[o])
                        && (|db[o].script| > 0 ==>
                              (c'[o].coin.HasScript() <==> after + |db[o].script| <= threshold))))
            && (o in c ==> o in c' && c'[o].dirty == c[o].dirty && c'[o].isFresh == c[o].isFresh)
            && (o in c && (needScript ==> c[o].coin.IsSpent() || c[o].coin.HasScript()) ==> c' == c)
            && (o in c && needScript && !c[o].coin.IsSpent() && !c[o].coin.HasScript() ==>
                  (c'[o].coin.HasScript() <==> after + c[o].coin.scriptSize <= threshold))
  {
    assert o in c ==> EntryTruthful(c[o], db, o);
  }

  class CoinsDB {
    const threshold: nat
    const cache: S.CoinsStore

    constructor (threshold: nat, scriptUsage: Script -> nat)
      requires scriptUsage([]) == 0
      ensures cache.Valid() && cache.cacheCoins == map[] && fresh(cache) && this.threshold == threshold
    {
      this.threshold := threshold;
      cache := new S.CoinsStore(scriptUsage);
    }

    method GetCoin(o: OutPoint, needScript: bool, db: View, before: nat, after: nat) returns (coin: Option<CoinImpl>)
      requires cache.Valid() && Truthful(cache.cacheCoins, db) && before <= after
      modifies cache
      ensures cache.Valid()
      ensures (cache.cacheCoins, coin) == DbGet(old(cache.cacheCoins), db, o, needScript, threshold, before, after)
    {
      hide Flat;
      var fromCache := cache.FetchCoin(o);
      if fromCache.Some? {
        if fromCache.value.IsSpent() {
          return None;
        } else if fromCache.value.HasScript() {
          return fromCache;
        } else if !needScript {
          return Some(fromCache.value.WithoutScript());
        }
      }
      var fromView := DbRead(db, o, needScript, Room(threshold, before));
      if fromView.None? {
        return None;
      }
      if fromCache.Some? {
        assert fromView.value.HasScript();
        if HasSpace(threshold, after, fromView.value.scriptSize) {
          cache.ReplaceWithCoinWithScript(o, fromView.value);
          return Some(fromView.value.MakeNonOwning());
        }
        return fromView;
      }
      if !HasSpace(threshold, after, fromView.value.scriptSize) {
        cache.AddFetched(o, fromView.value.WithoutScript());
        return fromView;
      }
      cache.AddFetched(o, fromView.value);
      assert fromView.value.owner;
      return Some(fromView.value.MakeNonOwning());
    }
  }

  // ---------------------------------------------------------------------------
  // Every run of a view over the database
  // ---------------------------------------------------------------------------

  /** A view's cache over the cache of the database. */
  datatype Stack = Stack(child: Cache, cache: Cache)

  /** An operation of the view and the memory use around the database's part; its own answer is not used. */
  datatype Call = Call(op: Op, before: nat, after: nat)

  function NeedsScript(op: Op): bool {
    match op
    case Read(_, needScript, _) => needScript
    case Have(_, _) => false
    case AddTo(_, _, _, _) => false
    case SpendAt(_, moveOut, _) => moveOut
  }

  function Answered(op: Op, a: Option<CoinImpl>): Op {
    if op.AddTo? then op else op.(answer := a)
  }

  /** GetCoin of the view goes on to its base. */
  predicate AsksBase(c: Cache, op: Op) {
    && !op.AddTo?
    && (op.o in c ==> NeedsScript(op) && !c[op.o].coin.IsSpent() && !c[op.o].coin.HasScript())
  }

  /** The view performs an operation; the database's cache changes only if it is asked. */
  function Perform(s: Stack, db: View, threshold: nat, call: Call): Stack {
    var (cache, a) := DbGet(s.cache, db, call.op.o, NeedsScript(call.op), threshold, call.before, call.after);
    Stack(Apply(s.child, Answered(call.op, a)), if AsksBase(s.child, call.op) then cache else s.cache)
  }

  ghost predicate Sound(s: Stack, db: View) {
    Truthful(s.cache, db) && Truthful(s.child, Flat(s.cache, db))
  }

  /** What the view shows. */
  ghost function Shows(s: Stack, db: View): View {
    Flat(s.child, Flat(s.cache, db))
  }

  /** Loaded coins only add to the memory in use, and AddCoin's precondition is met. */
  ghost predicate ProperCall(s: Stack, db: View, call: Call) {
    && call.before <= call.after
    && (call.op.AddTo? ==> Proper(s.child, Flat(s.cache, db), call.op))
  }

  /** An answer that is not asked for has no influence. */
  lemma NotAsked(c: Cache, op: Op, a: Option<CoinImpl>, b: Option<CoinImpl>)
    requires !AsksBase(c, op)
    ensures Apply(c, Answered(op, a)) == Apply(c, Answered(op, b))
  {
  }

  lemma PerformRefines(s: Stack, db: View, threshold: nat, call: Call)
    requires Sound(s, db) && ProperCall(s, db, call)
    ensures Sound(Perform(s, db, threshold, call), db)
    ensures Shows(Perform(s, db, threshold, call), db) == ApplyFlat(Shows(s, db), call.op)
  {
    var op := call.op;
    var (cache, a) := DbGet(s.cache, db, op.o, NeedsScript(op), threshold, call.before, call.after);
    DbGetCorrect(s.cache, db, op.o, NeedsScript(op), threshold, call.before, call.after);
    hide DbGet, Apply, Truthful, Flat, Answer;
    StepRefines(s.child, Flat(s.cache, db), Answered(op, a));
  }

  function PerformAll(s: Stack, db: View, threshold: nat, calls: seq<Call>): Stack
    decreases |calls|
  {
    if calls == [] then s else PerformAll(Perform(s, db, threshold, calls[0]), db, threshold, calls[1..])
  }

  ghost predicate ProperCalls(s: Stack, db: View, threshold: nat, calls: seq<Call>)
    decreases |calls|
  {
    calls != [] ==>
      ProperCall(s, db, calls[0]) && ProperCalls(Perform(s, db, threshold, calls[0]), db, threshold, calls[1..])
  }

  function Ops(calls: seq<Call>): (ops: seq<Op>)
    ensures |ops| == |calls| && forall i :: 0 <= i < |calls| ==> ops[i] == calls[i].op
  {
    seq(|calls|, i requires 0 <= i < |calls| => calls[i].op)
  }

  /** Any run of the view over the database and its cache is the same run on a flat map. */
  lemma {:induction false} PerformAllRefines(s: Stack, db: View, threshold: nat, calls: seq<Call>)
    requires Sound(s, db) && ProperCalls(s, db, threshold, calls)
    ensures Sound(PerformAll(s, db, threshold, calls), db)
    ensures Shows(PerformAll(s, db, threshold, calls), db) == RunFlat(Shows(s, db), Ops(calls))
    decreases |calls|
  {
    hide Sound, Shows, Perform, ProperCall, ApplyFlat;
    if calls != [] {
      PerformRefines(s, db, threshold, calls[0]);
      PerformAllRefines(Perform(s, db, threshold, calls[0]), db, threshold, calls[1..]);
      assert Ops(calls)[1..] == Ops(calls[1..]);
    }
  }

  /**
   * From a fresh view to the database: run any operations, flush the view into the database's
   * cache and that cache into the database.  Nothing fails, and the database holds what the
   * run makes of the flat map that it and its cache stood for, whatever scripts were cached.
   */
  lemma DatabaseRefines(db: View, cache: Cache, threshold: nat, calls: seq<Call>, order: seq<OutPoint>)
    requires Truthful(cache, db) && ProperCalls(Stack(map[], cache), db, threshold, calls)
    requires forall i, j :: 0 <= i < j < |order| ==> order[i] != order[j]
    requires forall o :: o in order <==> o in PerformAll(Stack(map[], cache), db, threshold, calls).child
    ensures var s := PerformAll(Stack(map[], cache), db, threshold, calls);
            && WriteAll(s.cache, s.child, order).Ok?
            && Stored(WriteAll(s.cache, s.child, order).value, db) == RunFlat(Flat(cache, db), Ops(calls))
  {
    FreshShows(cache, db);
    hide Truthful, Flat, Stored, Perform, ProperCall;
    var s := PerformAll(Stack(map[], cache), db, threshold, calls);
    PerformAllRefines(Stack(map[], cache), db, threshold, calls);
    FlushKeeps(s.cache, db, s.child, order);
    StoredIsFlat(WriteAll(s.cache, s.child, order).value, db);
  }

  /** A fresh view shows its base. */
  lemma FreshShows(cache: Cache, db: View)
    requires Truthful(cache, db)
    ensures Sound(Stack(map[], cache), db) && Shows(Stack(map[], cache), db) == Flat(cache, db)
  {
    var none: Cache := map[];
    var v := Flat(cache, db);
    FlatUnspent(cache, db);
    forall o ensures Lookup(Flat(none, v), o) == Lookup(v, o) {
      assert Lookup(Flat(none, v), o) == Visible(none, v, o);
    }
    SameView(Flat(none, v), v);
  }
}
