/**
 * A cached view (CCoinsViewCache) over a base view, and flushing one cache into another
 * (CoinsStore::BatchWrite) and into the database (CoinsDB::Flush).
 */
module CoinsView {
  import opened Wrappers
  import opened Coins

  // ---------------------------------------------------------------------------
  // The view cache
  // ---------------------------------------------------------------------------

  /**
   * An answer the base view may give: a coin it has, loaded with script if that was asked
   * for, or nothing (or an empty entry) if it has none.  A coin stored in the base's own cache
   * is returned non-owning and always with its script.
   */
  ghost predicate Answer(base: View, o: OutPoint, needScript: bool, a: Option<CoinImpl>) {
    match a
    case None => o !in base
    case Some(c) =>
      && Agrees(c, base, o)
      && (!c.IsSpent() && (needScript || !c.owner) ==> c.HasScript())
  }

  /** FetchCoin: the cached coin, pointing into the cache if its script is there. */
  function Fetch(c: Cache, o: OutPoint): Option<CoinImpl> {
    if o !in c then None
    else if c[o].coin.HasScript() then Some(c[o].coin.MakeNonOwning())
    else Some(c[o].coin.MakeOwning())
  }

  /** GetCoin, where `answer` is what the base view would return. */
  function GetCoin(c: Cache, o: OutPoint, needScript: bool, answer: Option<CoinImpl>): (Cache, Option<CoinImpl>) {
    var cached := Fetch(c, o);
    if cached.Some? && (cached.value.IsSpent() || cached.value.HasScript()) then (c, cached)
    else if cached.Some? && !needScript then (c, Some(cached.value.WithoutScript()))
    else if answer.Some? && cached.None? then
      var kept := if answer.value.owner then answer.value.WithoutScript() else answer.value.MakeNonOwning();
      (AddFetched(c, o, kept), answer)
    else (c, answer)
  }

  /** The coin a caller sees: none if nothing or a spent coin was returned. */
  ghost predicate Reports(r: Option<CoinImpl>, flat: View, o: OutPoint, needScript: bool) {
    if r.None? || r.value.IsSpent() then o !in flat
    else o in flat && Matches(r.value, flat[o]) && (needScript ==> r.value.HasScript())
  }

  /** Reading is correct about the flat map, and only fills the cache. */
  lemma GetCoinCorrect(c: Cache, base: View, o: OutPoint, needScript: bool, answer: Option<CoinImpl>)
    requires Truthful(c, base) && Answer(base, o, needScript, answer)
    ensures var (c', r) := GetCoin(c, o, needScript, answer);
            && Truthful(c', base) && Flat(c', base) == Flat(c, base)
            && Reports(r, Flat(c, base), o, needScript)
            && (r.Some? ==> o in c') && (r.None? ==> o !in base)
  {
    var (c', r) := GetCoin(c, o, needScript, answer);
    assert Lookup(Flat(c, base), o) == Visible(c, base, o);
    if o in c {
      assert EntryTruthful(c[o], base, o);
    } else if answer.Some? {
      var kept := if answer.value.owner then answer.value.WithoutScript() else answer.value.MakeNonOwning();
      AddFetchedKeeps(c, base, o, kept);
    }
  }

  /** What a view returns is again an answer that a view above it may rely on. */
  lemma AnswerAbove(c: Cache, base: View, o: OutPoint, needScript: bool, answer: Option<CoinImpl>)
    requires Truthful(c, base) && Answer(base, o, needScript, answer)
    ensures Answer(Flat(c, base), o, needScript, GetCoin(c, o, needScript, answer).1)
  {
    GetCoinCorrect(c, base, o, needScript, answer);
    assert Lookup(Flat(c, base), o) == Visible(c, base, o);
    assert o in c ==> EntryTruthful(c[o], base, o);
  }

  function HaveCoin(c: Cache, o: OutPoint, answer: Option<CoinImpl>): (Cache, bool) {
    var (c', r) := GetCoin(c, o, false, answer);
    (c', r.Some? && !r.value.IsSpent())
  }

  lemma HaveCoinCorrect(c: Cache, base: View, o: OutPoint, answer: Option<CoinImpl>)
    requires Truthful(c, base) && Answer(base, o, false, answer)
    ensures var (c', have) := HaveCoin(c, o, answer);
            Truthful(c', base) && Flat(c', base) == Flat(c, base) && (have <==> o in Flat(c, base))
  {
    GetCoinCorrect(c, base, o, false, answer);
  }

  /** SpendCoin; the last result is the coin moved out to the caller. */
  function SpendCoin(c: Cache, o: OutPoint, moveOut: bool, answer: Option<CoinImpl>): (Cache, bool, Option<CoinImpl>) {
    var (c', r) := GetCoin(c, o, moveOut, answer);
    if r.None? then (c', false, None)
    else (Spend(c', o), o in c', if moveOut then Some(r.value.MakeOwning()) else None)
  }

  /** Spending removes the coin, and hands over the very coin that was there. */
  lemma SpendCoinCorrect(c: Cache, base: View, o: OutPoint, moveOut: bool, answer: Option<CoinImpl>)
    requires Truthful(c, base) && Answer(base, o, moveOut, answer)
    ensures var (c', done, moved) := SpendCoin(c, o, moveOut, answer);
            && Truthful(c', base) && Flat(c', base) == Flat(c, base) - {o}
            && (done <==> o in c || answer.Some?) && (o in Flat(c, base) ==> done)
            && (o in Flat(c, base) && moveOut ==> moved == Some(WithScript(Flat(c, base)[o])))
  {
    GetCoinCorrect(c, base, o, moveOut, answer);
    var (c1, r) := GetCoin(c, o, moveOut, answer);
    if r.None? {
      assert Lookup(Flat(c, base), o) == None;
      assert Flat(c, base) - {o} == Flat(c, base);
    } else {
      SpendKeeps(c1, base, o);
    }
  }

  /** AddCoin on the view: an unspendable output is not stored. */
  function AddCoin(c: Cache, o: OutPoint, coin: FullCoin, unspendable: bool, overwrite: bool): Result<Cache, Error> {
    if unspendable then Ok(c) else AddNew(c, o, coin, overwrite)
  }

  // ---------------------------------------------------------------------------
  // Every run on an attached view
  // ---------------------------------------------------------------------------

  datatype Op =
    | Read(o: OutPoint, needScript: bool, answer: Option<CoinImpl>)
    | Have(o: OutPoint, answer: Option<CoinImpl>)
    | AddTo(o: OutPoint, coin: FullCoin, unspendable: bool, overwrite: bool)
    | SpendAt(o: OutPoint, moveOut: bool, answer: Option<CoinImpl>)

  /** The operation may occur: the base answers as it must, and AddCoin's precondition is met. */
  ghost predicate Proper(c: Cache, base: View, op: Op) {
    match op
    case Read(o, needScript, answer) => Answer(base, o, needScript, answer)
    case Have(o, answer) => Answer(base, o, false, answer)
    case AddTo(o, coin, _, overwrite) => coin.value != SPENT_VALUE && (overwrite || LookedUp(c, base, o))
    case SpendAt(o, moveOut, answer) => Answer(base, o, moveOut, answer)
  }

  /** The cache after an operation; AddCoin that throws leaves it as it was. */
  function Apply(c: Cache, op: Op): Cache {
    match op
    case Read(o, needScript, answer) => GetCoin(c, o, needScript, answer).0
    case Have(o, answer) => HaveCoin(c, o, answer).0
    case AddTo(o, coin, unspendable, overwrite) =>
      (match AddCoin(c, o, coin, unspendable, overwrite) case Ok(c') => c' case Err(_) => c)
    case SpendAt(o, moveOut, answer) => SpendCoin(c, o, moveOut, answer).0
  }

  /** The same operation on the flat map: overwriting an existing coin needs permission. */
  function ApplyFlat(v: View, op: Op): View {
    match op
    case Read(_, _, _) => v
    case Have(_, _) => v
    case AddTo(o, coin, unspendable, overwrite) =>
      if unspendable || (!overwrite && o in v) then v else v[o := coin]
    case SpendAt(o, _, _) => v - {o}
  }

  lemma StepRefines(c: Cache, base: View, op: Op)
    requires Truthful(c, base) && Proper(c, base, op)
    ensures Truthful(Apply(c, op), base)
    ensures Flat(Apply(c, op), base) == ApplyFlat(Flat(c, base), op)
  {
    match op
    case Read(o, needScript, answer) => GetCoinCorrect(c, base, o, needScript, answer);
    case Have(o, answer) => HaveCoinCorrect(c, base, o, answer);
    case SpendAt(o, moveOut, answer) => SpendCoinCorrect(c, base, o, moveOut, answer);
    case AddTo(o, coin, unspendable, overwrite) =>
      if !unspendable {
        AddNewKeeps(c, base, o, coin, overwrite);
        assert Lookup(Flat(c, base), o) == Visible(c, base, o);
        assert o in c ==> EntryTruthful(c[o], base, o);
      }
  }

  /** An unspent coin is cached only where one is visible, and is seen if it was looked up. */
  lemma CachedUnspent(c: Cache, base: View, o: OutPoint)
    requires Truthful(c, base)
    ensures o in c ==> (c[o].coin.IsSpent() <==> o !in Flat(c, base))
    ensures o !in c ==> (o in Flat(c, base) <==> o in base)
  {
    assert Lookup(Flat(c, base), o) == Visible(c, base, o);
    assert o in c ==> EntryTruthful(c[o], base, o);
  }

  ghost predicate ProperRun(c: Cache, base: View, ops: seq<Op>)
    decreases |ops|
  {
    ops != [] ==> Proper(c, base, ops[0]) && ProperRun(Apply(c, ops[0]), base, ops[1..])
  }

  function Run(c: Cache, ops: seq<Op>): Cache
    decreases |ops|
  {
    if ops == [] then c else Run(Apply(c, ops[0]), ops[1..])
  }

  function RunFlat(v: View, ops: seq<Op>): View
    decreases |ops|
  {
    if ops == [] then v else RunFlat(ApplyFlat(v, ops[0]), ops[1..])
  }

  /** Any run of the cached view is the same run on a flat map, and keeps the flags truthful. */
  lemma {:induction false} RunRefines(c: Cache, base: View, ops: seq<Op>)
    requires Truthful(c, base) && ProperRun(c, base, ops)
    ensures Truthful(Run(c, ops), base)
    ensures Flat(Run(c, ops), base) == RunFlat(Flat(c, base), ops)
    decreases |ops|
  {
    if ops != [] {
      StepRefines(c, base, ops[0]);
      RunRefines(Apply(c, ops[0]), base, ops[1..]);
    }
  }

  // ---------------------------------------------------------------------------
  // Flushing into the parent
  // ---------------------------------------------------------------------------

  /**
   * One entry of a child whose flags are truthful about the parent's view is written without
   * error; the parent then shows what the child showed, and its own flags stay truthful.
   */
  lemma WriteOneKeeps(c: Cache, base: View, o: OutPoint, e: Entry)
    requires Truthful(c, base) && EntryTruthful(e, Flat(c, base), o)
    ensures WriteOne(c, o, e).Ok?
    ensures var c' := WriteOne(c, o, e).value;
            && Truthful(c', base) && OnlyAt(c, c', o)
            && Lookup(Flat(c', base), o) == Shown(e, Flat(c, base), o)
            && forall p :: p != o ==> Lookup(Flat(c', base), p) == Lookup(Flat(c, base), p)
  {
    assert Lookup(Flat(c, base), o) == Visible(c, base, o);
    assert o in c ==> EntryTruthful(c[o], base, o);
    var c' := WriteOne(c, o, e).value;
    TruthfulAt(c, c', base, o);
    FlatAt(c, c', base, o);
    assert Lookup(Flat(c', base), o) == Visible(c', base, o);
  }

  /** Truthfulness of an entry depends on the base only at its own outpoint. */
  lemma EntryTruthfulLocal(e: Entry, v: View, w: View, o: OutPoint)
    requires Lookup(v, o) == Lookup(w, o) && EntryTruthful(e, v, o)
    ensures EntryTruthful(e, w, o)
  {
  }

  /** Write the entries of a child in any order. */
  function WriteAll(c: Cache, child: Cache, order: seq<OutPoint>): Result<Cache, Error>
    requires forall i :: 0 <= i < |order| ==> order[i] in child
    decreases |order|
  {
    if order == [] then Ok(c)
    else
      match WriteOne(c, order[0], child[order[0]])
      case Err(e) => Err(e)
      case Ok(c') => WriteAll(c', child, order[1..])
  }

  lemma {:induction false} WriteAllKeeps(c: Cache, base: View, child: Cache, order: seq<OutPoint>)
    requires forall i :: 0 <= i < |order| ==> order[i] in child
    requires forall i, j :: 0 <= i < j < |order| ==> order[i] != order[j]
    requires Truthful(c, base)
    requires forall i :: 0 <= i < |order| ==> EntryTruthful(child[order[i]], Flat(c, base), order[i])
    ensures WriteAll(c, child, order).Ok?
    ensures var c' := WriteAll(c, child, order).value;
            && Truthful(c', base)
            && forall o :: Lookup(Flat(c', base), o) ==
                             if o in order then Shown(child[o], Flat(c, base), o) else Lookup(Flat(c, base), o)
    decreases |order|
  {
    if order != [] {
      var o, rest := order[0], order[1..];
      assert EntryTruthful(child[o], Flat(c, base), o);
      WriteOneKeeps(c, base, o, child[o]);
      var c1 := WriteOne(c, o, child[o]).value;
      assert forall i :: 0 <= i < |rest| ==> rest[i] == order[i + 1];
      forall i | 0 <= i < |rest| ensures EntryTruthful(child[rest[i]], Flat(c1, base), rest[i]) {
        EntryTruthfulLocal(child[rest[i]], Flat(c, base), Flat(c1, base), rest[i]);
      }
      WriteAllKeeps(c1, base, child, rest);
      forall p ensures p in order <==> p == o || p in rest {
        assert order == [o] + rest;
      }
      forall p | p in rest ensures Shown(child[p], Flat(c1, base), p) == Shown(child[p], Flat(c, base), p) {
        assert p != o;
      }
    }
  }

  /**
   * Flushing a child whose flags are truthful about the parent's view into a parent whose
   * flags are truthful about its base never fails, shows exactly what the child showed, and
   * leaves the parent's flags truthful, in whatever order the child's entries are visited.
   */
  lemma FlushKeeps(parent: Cache, base: View, child: Cache, order: seq<OutPoint>)
    requires Truthful(parent, base) && Truthful(child, Flat(parent, base))
    requires forall i, j :: 0 <= i < j < |order| ==> order[i] != order[j]
    requires forall o :: o in order <==> o in child
    ensures WriteAll(parent, child, order).Ok?
    ensures var p := WriteAll(parent, child, order).value;
            Truthful(p, base) && Flat(p, base) == Flat(child, Flat(parent, base))
  {
    forall i | 0 <= i < |order| ensures order[i] in child {
      assert order[i] in order;
    }
    WriteAllKeeps(parent, base, child, order);
    var p := WriteAll(parent, child, order).value;
    var v := Flat(parent, base);
    forall o ensures Lookup(Flat(p, base), o) == Lookup(Flat(child, v), o) {
      assert Lookup(Flat(child, v), o) == Visible(child, v, o);
    }
    SameView(Flat(p, base), Flat(child, v));
  }

  // ---------------------------------------------------------------------------
  // Flushing into the database
  // ---------------------------------------------------------------------------

  /** What DBBatchWrite leaves in the database: dirty entries are erased or written. */
  ghost function Stored(c: Cache, base: View): View {
    map o | o in c.Keys + base.Keys && (if o in c && c[o].dirty then !c[o].coin.IsSpent() else o in base)
      :: if o in c && c[o].dirty then c[o].coin.Full() else base[o]
  }

  /** Writing only the dirty entries makes the database equal to the flat map. */
  lemma StoredIsFlat(c: Cache, base: View)
    requires Truthful(c, base)
    ensures Stored(c, base) == Flat(c, base)
    ensures forall o :: o in c && c[o].dirty && !c[o].coin.IsSpent() ==> c[o].coin.HasScript()
  {
    forall o ensures Lookup(Stored(c, base), o) == Lookup(Flat(c, base), o) {
      assert Lookup(Flat(c, base), o) == Visible(c, base, o);
      assert o in c ==> EntryTruthful(c[o], base, o);
    }
    forall o | o in c && c[o].dirty && !c[o].coin.IsSpent() ensures c[o].coin.HasScript() {
      assert EntryTruthful(c[o], base, o);
    }
    SameView(Stored(c, base), Flat(c, base));
  }

  /**
   * The whole stack: a run on a view over the database's cache, flushed into that cache and
   * then into the database, leaves in the database what the run would have made of the flat
   * map that the database and its cache stood for.
   */
  lemma StackRefines(db: View, cache: Cache, ops: seq<Op>, order: seq<OutPoint>)
    requires Truthful(cache, db) && ProperRun(map[], Flat(cache, db), ops)
    requires forall i, j :: 0 <= i < j < |order| ==> order[i] != order[j]
    requires forall o :: o in order <==> o in Run(map[], ops)
    ensures WriteAll(cache, Run(map[], ops), order).Ok?
    ensures Stored(WriteAll(cache, Run(map[], ops), order).value, db) == RunFlat(Flat(cache, db), ops)
  {
    var v := Flat(cache, db);
    FlatUnspent(cache, db);
    var none: Cache := map[];
    forall o ensures Lookup(Flat(none, v), o) == Lookup(v, o) {
      assert Lookup(Flat(none, v), o) == Visible(none, v, o);
    }
    SameView(Flat(none, v), v);
    RunRefines(none, v, ops);
    FlushKeeps(cache, db, Run(none, ops), order);
    StoredIsFlat(WriteAll(cache, Run(none, ops), order).value, db);
  }
}
