/** The partially downloaded block and the reconstruction of the whole one (src/blockencodings.cpp). */
module CompactDownload {
  import opened Wrappers
  import opened Sets
  import opened CompactSlots
  import opened CompactBlocks

  /** What checking the rebuilt block says. */
  datatype BlockCheck = Good | Corrupt | Bad

  /** What InitData left in the slots: the base, the map and how far the scans went. */
  ghost predicate Initialised(c: Compact, short: nat -> nat, pool: seq<Tx>, extra: seq<Offer>,
                              base: Slots, m: map<nat, nat>, have: seq<bool>, avail: Slots, kp: nat, ke: nat)
  {
    && |base| == |c.ids| + |c.pre| && Placed(c.pre, |c.pre|, base) && Free(base) == |c.ids| + Stalls(c.pre, |c.pre|)
    && Slotted(m, base) && InOrder(m, c.ids, base, |c.ids|) && m.Keys == Elements(c.ids)
    && kp <= |pool| && ke <= |extra|
    && Scanned(short, m, base, avail, have, Offers(pool)[..kp], extra[..ke])
  }

  lemma InitialisedBy(c: Compact, short: nat -> nat, pool: seq<Tx>, extra: seq<Offer>,
                      base: Slots, m: map<nat, nat>, have: seq<bool>, avail: Slots, kp: nat, ke: nat)
    requires |base| == |c.ids| + |c.pre| && Placed(c.pre, |c.pre|, base)
    requires Free(base) == |c.ids| + Stalls(c.pre, |c.pre|)
    requires Slotted(m, base) && InOrder(m, c.ids, base, |c.ids|) && m.Keys == Elements(c.ids)
    requires kp <= |pool| && ke <= |extra| && Scanned(short, m, base, avail, have, Offers(pool)[..kp], extra[..ke])
    ensures Initialised(c, short, pool, extra, base, m, have, avail, kp, ke)
  {
    hide Placed, Slotted, InOrder, Scanned, Offers, Elements, Free, Stalls;
  }

  /** Scanning leaves a prefilled slot alone. */
  lemma TakenKept(short: nat -> nat, m: map<nat, nat>, base: Slots, avail: Slots, have: seq<bool>,
                  pool: seq<Offer>, extra: seq<Offer>, p: nat)
    requires Slotted(m, base) && Scanned(short, m, base, avail, have, pool, extra) && p < |base| && base[p].Some?
    ensures avail[p] == base[p]
  {
    assert p !in m.Values;
  }

  /** Refused before anything is stored. */
  predicate Malformed(c: Compact, maxTx: nat) {
    c.header.None? || (c.ids == [] && c.pre == []) || |c.ids| + |c.pre| > maxTx
  }

  /** The block that the slots and the downloaded transactions make. */
  ghost predicate FilledWith(avail: Slots, missing: seq<Tx>, vtx: seq<Option<Tx>>) {
    && |vtx| == |avail| && Free(avail) == |missing|
    && forall i :: 0 <= i < |avail| ==> Entry(avail, missing, i, vtx[i])
  }

  /** A free slot takes the next downloaded transaction: as many precede it as free slots do. */
  ghost predicate Entry(avail: Slots, missing: seq<Tx>, i: nat, entry: Option<Tx>)
    requires i < |avail|
  {
    && (avail[i].None? ==> Free(avail[..i]) < |missing|)
    && entry == if avail[i].Some? then avail[i] else Some(missing[Free(avail[..i])])
  }

  /** What becomes of the prefilled transactions. */
  datatype Placing = Refused | Accepted | WrittenOutside

  /** Places the prefilled transactions in an empty array. */
  method PlacePrefilled(pre: seq<Prefilled>, ids: nat, empty: Slots) returns (r: Placing, slots: Slots)
    requires |empty| == ids + |pre| && Empty(empty)
    ensures r == WrittenOutside <==> Outside(pre, ids)
    ensures r == Accepted <==> Placeable(pre, ids) && !Outside(pre, ids)
    ensures |slots| == ids + |pre|
    ensures r == Accepted ==> Placed(pre, |pre|, slots) && Free(slots) == ids + Stalls(pre, |pre|)
  {
    hide *;
    slots := empty;
    PlaceStart(pre, ids, slots);
    var last: int := -1;
    for i := 0 to |pre|
      invariant |slots| == ids + |pre| && last >= -1
      invariant i > 0 ==> last >= 0 && !Outside(pre, ids)
      invariant Placed(pre, i, slots) && Free(slots) + i == ids + |pre| + Stalls(pre, i)
      invariant i < |pre| ==> last + Advance(pre[i].index) == SlotOf(pre, i)
      invariant forall j :: 0 <= j < i ==> PlaceableAt(pre, ids, j)
    {
      hide *;
      last := last + Advance(pre[i].index);
      NextSlot(pre, ids, i);
      if pre[i].tx.isNull || last > 0xFFFF_FFFF || last % 0x1_0000_0000 > ids + i {
        return Refused, slots;
      }
      if last < 0 {
        return WrittenOutside, slots;
      }
      LastInside(last, ids + i);
      PlacedStep(pre, i, slots);
      slots := slots[last := Some(pre[i].tx)];
    }
    AllPlaceable(pre, ids);
    return Accepted, slots;
  }

  lemma PlaceStart(pre: seq<Prefilled>, ids: nat, empty: Slots)
    requires Empty(empty)
    ensures Placed(pre, 0, empty) && Free(empty) == |empty| && Stalls(pre, 0) == 0
    ensures pre != [] ==> SlotOf(pre, 0) == -1 + Advance(pre[0].index)
    ensures pre == [] ==> !Outside(pre, ids)
  {
    PlacedStart(pre, empty);
  }

  lemma LastInside(last: nat, bound: nat)
    requires last <= 0xFFFF_FFFF && last % 0x1_0000_0000 <= bound
    ensures last <= bound
  {
  }

  lemma NextSlot(pre: seq<Prefilled>, ids: nat, i: nat)
    requires i < |pre|
    ensures PlaceableAt(pre, ids, i) <==>
            !pre[i].tx.isNull && SlotOf(pre, i) <= 0xFFFF_FFFF && SlotOf(pre, i) % 0x1_0000_0000 <= ids + i
    ensures Placeable(pre, ids) ==> PlaceableAt(pre, ids, i)
    ensures i + 1 < |pre| ==> SlotOf(pre, i + 1) == SlotOf(pre, i) + Advance(pre[i + 1].index)
    ensures i == 0 ==> (Outside(pre, ids) <==> PlaceableAt(pre, ids, 0) && SlotOf(pre, 0) == -1)
  {
    if i == 0 {
      FirstOutside(pre, ids);
    }
  }

  /** A message is too short for that many short ids. */
  lemma NeverOutside(c: Message)
    ensures !Outside(c.pre, |c.ids|)
  {
  }

  lemma AllPlaceable(pre: seq<Prefilled>, ids: nat)
    requires forall i :: 0 <= i < |pre| ==> PlaceableAt(pre, ids, i)
    ensures Placeable(pre, ids)
  {
  }

  class PartiallyDownloadedBlock {
    var header: Option<nat>
    var txns: Slots
    var prefilledCount: nat
    var mempoolCount: int
    var extraCount: nat

    constructor ()
      ensures header == None && txns == [] && prefilledCount == mempoolCount == extraCount == 0
    {
      header, txns := None, [];
      prefilledCount, mempoolCount, extraCount := 0, 0, 0;
    }

    /**
     * InitData.  A well-formed compact block without short id collisions gets every slot
     * prefilled, filled from the pool or the extra transactions, or left free.
     */
    method InitData(c: Message, short: nat -> nat, pool: seq<Tx>, extra: seq<Offer>, maxTx: nat, crowded: nat -> bool)
      returns (status: Status, ghost base: Slots, ghost m: map<nat, nat>, ghost have: seq<bool>,
               ghost kp: nat, ghost ke: nat)
      requires header == None && txns == [] && extraCount < 0x1_0000_0000_0000_0000
      modifies this
      ensures status == INVALID <==>
              || c.header.None? || (c.ids == [] && c.pre == []) || |c.ids| + |c.pre| > maxTx
              || !Placeable(c.pre, |c.ids|)
      ensures Malformed(c, maxTx) ==> header == None && txns == []
      ensures status == FAILED <==>
              && !Malformed(c, maxTx) && Placeable(c.pre, |c.ids|)
              && (!Distinct(c.ids) || exists i :: 0 <= i < |c.ids| && crowded(i))
      ensures status == OK || status == INVALID || status == FAILED
      ensures status == OK ==>
              && header == c.header && prefilledCount == |c.pre|
              && Initialised(c, short, pool, extra, base, m, have, txns, kp, ke)
              && Counted(base, txns, mempoolCount, old(mempoolCount))
              && (kp == |pool| || old(mempoolCount) != 0 || AllMatched(short, m, Offers(pool)[..kp]))
              && (ke == |extra| || mempoolCount == |m|)
              && ExtraCounted(short, m, Offers(pool)[..kp], extra[..ke], old(extraCount), extraCount)
    {
      base, m, have, kp, ke := [], map[], [], 0, 0;
      if c.header.None? || (c.ids == [] && c.pre == []) {
        return INVALID, base, m, have, kp, ke;
      }
      if |c.ids| + |c.pre| > maxTx {
        return INVALID, base, m, have, kp, ke;
      }
      var placed, slots := PlacePrefilled(c.pre, |c.ids|, seq(|c.ids| + |c.pre|, _ => None));
      header, txns := c.header, slots;
      NeverOutside(c);
      if placed != Accepted {
        return INVALID, base, m, have, kp, ke;
      }
      hide *;
      prefilledCount := |c.pre|;
      base := slots;
      var ok, ids := MapIds(c.ids, slots, crowded);
      if !ok {
        return FAILED, base, m, have, kp, ke;
      }
      m := ids;
      var had, avail, count, extraC;
      avail, had, count, kp := ScanPool(short, ids, slots, pool, mempoolCount);
      avail, had, count, extraC, ke :=
        ScanExtra(short, ids, base, avail, had, extra, count, extraCount, Offers(pool)[..kp], mempoolCount);
      InitialisedBy(c, short, pool, extra, base, m, had, avail, kp, ke);
      txns, mempoolCount, extraCount, have := avail, count, extraC, had;
      return OK, base, m, have, kp, ke;
    }

    /**
     * FillBlock: free slots take the downloaded transactions in order.  It succeeds exactly
     * if there are as many as free slots and the block checks out; after a complete pass it
     * cannot be called again.
     */
    method FillBlock(missing: seq<Tx>, check: BlockCheck) returns (status: Status, vtx: seq<Option<Tx>>)
      requires header.Some?
      modifies this
      ensures status == INVALID <==> |missing| != old(Free(txns))
      ensures status == OK <==> |missing| == old(Free(txns)) && check == Good
      ensures status == FAILED <==> |missing| == old(Free(txns)) && check == Corrupt
      ensures status == CHECKBLOCK_FAILED <==> |missing| == old(Free(txns)) && check == Bad
      ensures |missing| == old(Free(txns)) ==> FilledWith(old(txns), missing, vtx)
      ensures |missing| >= old(Free(txns)) ==> header == None && txns == []
      ensures |missing| < old(Free(txns)) ==> header == old(header) && MovedOut(old(txns), |missing|, txns)
    {
      ghost var avail := txns;
      vtx := [];
      var offset := 0;
      assert avail[..0] == [];
      for i := 0 to |txns|
        invariant |txns| == |avail| && txns[i..] == avail[i..] && Empty(txns[..i]) && header == old(header)
        invariant offset == Free(avail[..i]) <= |missing| && |vtx| == i
        invariant forall j :: 0 <= j < i ==> Entry(avail, missing, j, vtx[j])
      {
        FreeNext(avail, i);
        assert txns[i] == txns[i..][0] == avail[i];
        FreePrefix(avail, i);
        if txns[i].None? {
          if |missing| <= offset {
            StoppedAt(avail, txns, |missing|, i);
            return INVALID, vtx;
          }
          vtx := vtx + [Some(missing[offset])];
          offset := offset + 1;
        } else {
          vtx := vtx + [txns[i]];
          txns := txns[i := None];
        }
      }
      assert avail[..|avail|] == avail;
      header, txns := None, [];
      if |missing| != offset {
        return INVALID, vtx;
      }
      match check
      case Good => return OK, vtx;
      case Corrupt => return FAILED, vtx;
      case Bad => return CHECKBLOCK_FAILED, vtx;
    }
  }

  /** After a pass that ran out, the transactions before the stop are gone. */
  ghost predicate MovedOut(was: Slots, n: nat, now: Slots) {
    && |now| == |was|
    && forall j :: 0 <= j < |was| ==> now[j] == if Free(was[..j + 1]) <= n then None else was[j]
  }

  lemma StoppedAt(was: Slots, now: Slots, n: nat, i: nat)
    requires i < |was| == |now| && was[i].None? && Free(was[..i]) == n && Empty(now[..i]) && now[i..] == was[i..]
    ensures MovedOut(was, n, now) && Free(was) > n
  {
    hide Free;
    FreeNext(was, i);
    FreePrefix(was, i + 1);
    forall j | 0 <= j < |was| ensures now[j] == if Free(was[..j + 1]) <= n then None else was[j] {
      if j < i {
        FreeWithin(was, j + 1, i);
        assert now[j] == now[..i][j];
      } else {
        FreeWithin(was, i + 1, j + 1);
        assert now[j] == now[i..][j - i] && was[j] == was[i..][j - i];
      }
    }
  }

  lemma FreeNext(s: Slots, i: nat)
    requires i < |s|
    ensures Free(s[..i + 1]) == Free(s[..i]) + (if s[i].None? then 1 else 0)
  {
    assert s[..i + 1][..i] == s[..i];
  }

  lemma FreeWithin(s: Slots, a: nat, b: nat)
    requires a <= b <= |s|
    ensures Free(s[..a]) <= Free(s[..b])
  {
    hide Free;
    assert s[..b][..a] == s[..a];
    FreePrefix(s[..b], a);
  }

  lemma {:induction false} FreePrefix(s: Slots, k: nat)
    requires k <= |s|
    ensures Free(s[..k]) <= Free(s)
    decreases |s|
  {
    if k < |s| {
      FreePrefix(s[..|s| - 1], k);
      assert s[..|s| - 1][..k] == s[..k];
    } else {
      assert s[..k] == s;
    }
  }

  // ---------------------------------------------------------------------------
  // The block comes back
  // ---------------------------------------------------------------------------

  /** No offered transaction other than the block's own carries one of its short ids. */
  ghost predicate NoForeign(short: nat -> nat, block: seq<Tx>, offers: seq<Offer>) {
    forall o, i :: o in offers && 1 <= i < |block| && short(o.key) == short(block[i].hash) ==> o.tx == block[i]
  }

  /** The transactions to ask for: those of the free slots, in order. */
  function MissingOf(block: seq<Tx>, avail: Slots): (missing: seq<Tx>)
    requires |block| == |avail|
    ensures |missing| == |FreeSlots(avail, |avail|)|
    ensures forall j :: 0 <= j < |missing| ==>
              FreeSlots(avail, |avail|)[j] < |block| && missing[j] == block[FreeSlots(avail, |avail|)[j]]
  {
    FreeSlotsExact(avail, |avail|);
    var f := FreeSlots(avail, |avail|);
    seq(|f|, j requires 0 <= j < |f| && f[j] < |block| => block[f[j]])
  }

  lemma {:induction false} OnlyFirstTaken(base: Slots, k: nat)
    requires 1 <= k <= |base| && base[0].Some? && forall p :: 1 <= p < |base| ==> base[p].None?
    ensures |FreeSlots(base, k)| == k - 1 && forall j :: 0 <= j < k - 1 ==> FreeSlots(base, k)[j] == j + 1
  {
    if k > 1 {
      OnlyFirstTaken(base, k - 1);
    }
  }

  /** The short id of transaction i stands for slot i. */
  lemma OwnSlots(header: nat, block: seq<Tx>, short: nat -> nat, base: Slots, m: map<nat, nat>)
    requires |block| >= 1 && |base| == |block|
    requires var c := Compress(header, block, short);
             && Placed(c.pre, |c.pre|, base) && InOrder(m, c.ids, base, |c.ids|)
    ensures base[0] == Some(block[0])
    ensures forall i :: 1 <= i < |block| ==> short(block[i].hash) in m && m[short(block[i].hash)] == i
  {
    var c := Compress(header, block, short);
    assert SlotOf(c.pre, 0) == 0;
    assert Holds(c.pre, 1, base, 0) && Latest(c.pre, 1, 0);
    forall p | 1 <= p < |base| ensures base[p].None? {
      assert !Taken(c.pre, 1, p);
    }
    OnlyFirstTaken(base, |base|);
    hide FreeSlots, Placed;
    forall i | 1 <= i < |block| ensures short(block[i].hash) in m && m[short(block[i].hash)] == i {
      assert c.ids[i - 1] == short(block[i].hash);
    }
  }

  lemma {:induction false} MatchesOwn(short: nat -> nat, block: seq<Tx>, offers: seq<Offer>, i: nat)
    requires 1 <= i < |block| && NoForeign(short, block, offers)
    ensures forall t :: t in Matches(short, offers, short(block[i].hash)) ==> t == block[i]
  {
    if offers != [] {
      var init, o := offers[..|offers| - 1], offers[|offers| - 1];
      assert forall x :: x in init ==> x in offers;
      MatchesOwn(short, block, init, i);
      assert o in offers;
    }
  }

  lemma OutcomeOwn(pool: seq<Tx>, extra: seq<Tx>, t: Tx)
    requires (forall x :: x in pool ==> x == t) && (forall x :: x in extra ==> x == t)
    ensures Outcome(pool, extra).Some? ==> Outcome(pool, extra).value == t
    ensures |pool| == 1 ==> Outcome(pool, extra) == Some(t)
  {
    var all := pool + extra;
    forall i | 0 <= i < |all| ensures all[i] == t {
      assert all[i] in pool || all[i] in extra;
    }
  }

  lemma NoForeignPrefix(short: nat -> nat, block: seq<Tx>, offers: seq<Offer>, k: nat)
    requires k <= |offers| && NoForeign(short, block, offers)
    ensures NoForeign(short, block, offers[..k])
  {
    assert forall o :: o in offers[..k] ==> o in offers;
  }

  /** Whatever is in a slot is the block's own transaction. */
  lemma SlotsRight(header: nat, block: seq<Tx>, short: nat -> nat, pool: seq<Tx>, extra: seq<Offer>,
                   base: Slots, m: map<nat, nat>, have: seq<bool>, avail: Slots, kp: nat, ke: nat, i: nat)
    requires |block| >= 1 && i < |block|
    requires Initialised(Compress(header, block, short), short, pool, extra, base, m, have, avail, kp, ke)
    requires NoForeign(short, block, Offers(pool)) && NoForeign(short, block, extra)
    ensures |avail| == |block| && (avail[i].Some? ==> avail[i].value == block[i])
    ensures i >= 1 && |Matches(short, Offers(pool)[..kp], short(block[i].hash))| == 1 ==> avail[i] == Some(block[i])
  {
    hide Slotted, Placed, InOrder, Matches, Outcome, NoForeign, Elements;
    OwnSlots(header, block, short, base, m);
    TakenKept(short, m, base, avail, have, Offers(pool)[..kp], extra[..ke], 0);
    if i >= 1 {
      var id := short(block[i].hash);
      NoForeignPrefix(short, block, Offers(pool), kp);
      NoForeignPrefix(short, block, extra, ke);
      MatchesOwn(short, block, Offers(pool)[..kp], i);
      MatchesOwn(short, block, extra[..ke], i);
      assert SlotScanned(short, m[id], id, avail, have, Offers(pool)[..kp], extra[..ke]);
      OutcomeOwn(Matches(short, Offers(pool)[..kp], id), Matches(short, extra[..ke], id), block[i]);
    }
  }

  /**
   * With the missing transactions downloaded, the rebuilt block is the original block,
   * provided that no offered transaction collides with a short id of the block.
   */
  lemma Reconstructs(header: nat, block: seq<Tx>, short: nat -> nat, pool: seq<Tx>, extra: seq<Offer>,
                     base: Slots, m: map<nat, nat>, have: seq<bool>, avail: Slots, kp: nat, ke: nat,
                     vtx: seq<Option<Tx>>)
    requires |block| >= 1 && |avail| == |block|
    requires Initialised(Compress(header, block, short), short, pool, extra, base, m, have, avail, kp, ke)
    requires NoForeign(short, block, Offers(pool)) && NoForeign(short, block, extra)
    ensures |MissingOf(block, avail)| == Free(avail)
    ensures FilledWith(avail, MissingOf(block, avail), vtx) ==> Whole(block, vtx)
  {
    hide Initialised, NoForeign, FreeSlots, Free;
    MissingCount(block, avail);
    var missing := MissingOf(block, avail);
    if FilledWith(avail, missing, vtx) {
      forall i | 0 <= i < |block| ensures vtx[i] == Some(block[i]) {
        SlotsRight(header, block, short, pool, extra, base, m, have, avail, kp, ke, i);
        assert Entry(avail, missing, i, vtx[i]);
        if avail[i].None? {
          ScanFinds(avail, i);
          FreeSlotsCount(avail, i);
        }
      }
    }
  }

  /** A whole block: every entry is the original transaction. */
  ghost predicate Whole(block: seq<Tx>, vtx: seq<Option<Tx>>) {
    |vtx| == |block| && forall i :: 0 <= i < |block| ==> vtx[i] == Some(block[i])
  }

  /**
   * The whole exchange: a block is sent as a compact block, the receiver asks for the
   * transactions of the free slots and fills them in.  It ends in the original block unless
   * the block is too large, two of its short ids collide or a foreign transaction carries one.
   */
  method Relay(header: nat, block: seq<Tx>, short: nat -> nat, pool: seq<Tx>, extra: seq<Offer>, maxTx: nat,
               crowded: nat -> bool, check: BlockCheck)
    returns (status: Status, vtx: seq<Option<Tx>>)
    requires 1 <= |block| < 0x1_0000_0000
    ensures block[0].isNull || |block| > maxTx ==> status == INVALID
    ensures !block[0].isNull && |block| <= maxTx ==>
              var ids := Compress(header, block, short).ids;
              if !Distinct(ids) || exists i :: 0 <= i < |ids| && crowded(i) then status == FAILED
              else
                && (status == OK <==> check == Good) && (status == FAILED <==> check == Corrupt)
                && (status == CHECKBLOCK_FAILED <==> check == Bad)
                && (NoForeign(short, block, Offers(pool)) && NoForeign(short, block, extra) ==> Whole(block, vtx))
  {
    vtx := [];
    var c: Message := Compress(header, block, short);
    var download := new PartiallyDownloadedBlock();
    ghost var base, m, have, kp, ke;
    CompressAccepted(header, block, short, maxTx);
    hide *;
    status, base, m, have, kp, ke := download.InitData(c, short, pool, extra, maxTx, crowded);
    if status == OK {
      var avail := download.txns;
      InitialisedSize(header, block, short, pool, extra, base, m, have, avail, kp, ke);
      var missing := MissingOf(block, avail);
      MissingCount(block, avail);
      status, vtx := download.FillBlock(missing, check);
      if NoForeign(short, block, Offers(pool)) && NoForeign(short, block, extra) {
        Reconstructs(header, block, short, pool, extra, base, m, have, avail, kp, ke, vtx);
      }
    }
  }

  lemma CompressAccepted(header: nat, block: seq<Tx>, short: nat -> nat, maxTx: nat)
    requires |block| >= 1
    ensures var c := Compress(header, block, short);
            && c.header.Some? && |c.ids| + |c.pre| == |block|
            && (Malformed(c, maxTx) || !Placeable(c.pre, |c.ids|) <==> block[0].isNull || |block| > maxTx)
  {
    var c := Compress(header, block, short);
    assert SlotOf(c.pre, 0) == 0;
    assert PlaceableAt(c.pre, |c.ids|, 0) <==> !block[0].isNull;
  }

  lemma InitialisedSize(header: nat, block: seq<Tx>, short: nat -> nat, pool: seq<Tx>, extra: seq<Offer>,
                        base: Slots, m: map<nat, nat>, have: seq<bool>, avail: Slots, kp: nat, ke: nat)
    requires |block| >= 1
    requires Initialised(Compress(header, block, short), short, pool, extra, base, m, have, avail, kp, ke)
    ensures |avail| == |block|
  {
  }

  lemma MissingCount(block: seq<Tx>, avail: Slots)
    requires |block| == |avail|
    ensures |MissingOf(block, avail)| == Free(avail)
  {
    FreeSlotsCount(avail, |avail|);
    assert avail[..|avail|] == avail;
  }

  /** A fresh download has every transaction of the block that the pool offers exactly once. */
  lemma PoolSuffices(header: nat, block: seq<Tx>, short: nat -> nat, pool: seq<Tx>, extra: seq<Offer>,
                     base: Slots, m: map<nat, nat>, have: seq<bool>, avail: Slots, kp: nat, ke: nat, i: nat)
    requires |block| >= 1 && 1 <= i < |block|
    requires Initialised(Compress(header, block, short), short, pool, extra, base, m, have, avail, kp, ke)
    requires NoForeign(short, block, Offers(pool)) && NoForeign(short, block, extra)
    requires kp == |pool| || AllMatched(short, m, Offers(pool)[..kp])
    requires |Matches(short, Offers(pool), short(block[i].hash))| == 1
    ensures |avail| == |block| && avail[i] == Some(block[i])
  {
    SlotsRight(header, block, short, pool, extra, base, m, have, avail, kp, ke, i);
    OwnSlots(header, block, short, base, m);
    assert Offers(pool)[..|pool|] == Offers(pool);
  }

  /** The counter of filled slots never falls below its start, nor rises by more than the short ids. */
  lemma CountNotNegative(short: nat -> nat, m: map<nat, nat>, base: Slots, avail: Slots, have: seq<bool>,
                         pool: seq<Offer>, extra: seq<Offer>, count: int, count0: int)
    requires Slotted(m, base) && Scanned(short, m, base, avail, have, pool, extra)
    requires Counted(base, avail, count, count0)
    ensures count0 <= count <= count0 + |m|
  {
    FilledNamed(m, base, avail);
  }
}
