/**
 The linear-scan book of the differential test, with the capacity rule added, and the theorem
 that the ladder emits the same events and holds the same orders.
 */
module Reference {
  import opened Types
  import opened Ladder
  import opened Matching
  import opened Invariants
  import opened Runs
  import opened Listing
  import opened Turns
  import Recovery

  datatype Ref = Ref(orders: seq<RestingOrder>, last: u64)
  datatype RefOutcome = RefOutcome(ref: Ref, events: seq<Event>)
  datatype RefMatched = RefMatched(orders: seq<RestingOrder>, left: nat, events: seq<Event>)

  /** Linear search; -1 when absent. */
  function Find(os: seq<RestingOrder>, id: u64, k: nat := 0): (r: int)
    requires k <= |os|
    ensures r == -1 || (k <= r < |os| && os[r].orderId == id)
    ensures r == -1 ==> forall j | k <= j < |os| :: os[j].orderId != id
    decreases |os| - k
  {
    if k == |os| then -1 else if os[k].orderId == id then k else Find(os, id, k + 1)
  }

  predicate Crosses(side: Side, limit: Price, o: RestingOrder) {
    if side.Buy? then o.price <= limit else o.price >= limit
  }

  predicate Eligible(side: Side, limit: Price, o: RestingOrder) {
    o.side != side && Crosses(side, limit, o)
  }

  /** The scan prefers x to y: strictly better price, or the same price and earlier. */
  predicate Preferred(side: Side, x: RestingOrder, y: RestingOrder) {
    (if side.Buy? then x.price < y.price else x.price > y.price) || (x.price == y.price && x.priority < y.priority)
  }

  /** best_opposite over the first n orders; -1 when none is eligible. */
  function Best(os: seq<RestingOrder>, side: Side, limit: Price, n: nat): (r: int)
    requires n <= |os|
    ensures r == -1 || (0 <= r < n && Eligible(side, limit, os[r]))
    ensures r == -1 ==> forall k | 0 <= k < n :: !Eligible(side, limit, os[k])
    ensures r != -1 ==> forall k | 0 <= k < n && Eligible(side, limit, os[k]) :: !Preferred(side, os[k], os[r])
    ensures r != -1 ==> forall k | 0 <= k < r && Eligible(side, limit, os[k]) :: Preferred(side, os[r], os[k])
  {
    if n == 0 then -1
    else
      var best := Best(os, side, limit, n - 1);
      if !Eligible(side, limit, os[n - 1]) then best
      else if best == -1 || Preferred(side, os[n - 1], os[best]) then n - 1 else best
  }

  /** can_fill, with its running total. */
  predicate CanFill(os: seq<RestingOrder>, side: Side, limit: Price, q: u64, k: nat, available: nat)
    requires k <= |os|
    decreases |os| - k
  {
    if k == |os| then false
    else if !Eligible(side, limit, os[k]) then CanFill(os, side, limit, q, k + 1, available)
    else os[k].quantity >= q - available || CanFill(os, side, limit, q, k + 1, available + os[k].quantity)
  }

  /** List entry k after trading t of it. */
  function AfterTrade(os: seq<RestingOrder>, k: nat, t: u64): seq<RestingOrder>
    requires k < |os| && t <= os[k].quantity
  {
    if t == os[k].quantity then Splice(os, k) else os[k := os[k].(quantity := os[k].quantity - t)]
  }

  /** Trade with the best eligible order until the quantity or the orders run out. */
  function Match(os: seq<RestingOrder>, m: Command, limit: Price, q: u64): (r: RefMatched)
    ensures r.left <= q
    decreases |os|, q
  {
    var k := Best(os, m.side, limit, |os|);
    if q == 0 || k == -1 then RefMatched(os, q, [])
    else
      var o := os[k];
      var t := if q < o.quantity then q else o.quantity;
      var e := Emit(Trade, m, o.orderId, o.price, t, NoReason);
      var rest := Match(AfterTrade(os, k, t), m, limit, q - t);
      RefMatched(rest.orders, rest.left, [e] + rest.events)
  }

  function RefExecute(c: Config, r: Ref, m: Command): RefOutcome {
    var x := Match(r.orders, m, EffectiveLimit(c, m), m.quantity);
    if x.left == 0 then RefOutcome(r.(orders := x.orders), x.events)
    else if m.orderType.Limit? then
      RefOutcome(r.(orders := x.orders + [RestingOrder(m.orderId, m.side, m.price, x.left, m.sequence)]),
                 x.events + [Emit(Rested, m, 0, m.price, x.left, NoReason)])
    else RefOutcome(r.(orders := x.orders), x.events + [Emit(Cancelled, m, 0, m.price, x.left, NoReason)])
  }

  /** Why the linear-scan book turns a command away. */
  function RefAdmission(c: Config, r: Ref, m: Command, replacement: bool): RejectReason
    requires ValidConfig(c)
  {
    var limit := EffectiveLimit(c, m);
    if m.quantity == 0 then InvalidQuantity
    else if !m.orderType.Market? && !ValidPrice(c, m.price) then InvalidPrice
    else if !replacement && Find(r.orders, m.orderId) != -1 then DuplicateOrderId
    else if m.orderType.FillOrKill? && !CanFill(r.orders, m.side, limit, m.quantity, 0, 0) then WouldNotFill
    else if |r.orders| == c.maximumOrders && m.orderType.Limit?
            && !CanFill(r.orders, m.side, limit, m.quantity, 0, 0) then BookCapacity
    else NoReason
  }

  function RefSubmit(c: Config, r: Ref, m: Command, replacement: bool): RefOutcome
    requires ValidConfig(c)
  {
    var reason := RefAdmission(c, r, m, replacement);
    if reason != NoReason then RefOutcome(r, [Reject(m, reason)])
    else
      var x := RefExecute(c, r, m);
      RefOutcome(x.ref, (if replacement then [] else [Emit(Accepted, m, 0, 0, 0, NoReason)]) + x.events)
  }

  function RefCancel(r: Ref, m: Command): RefOutcome {
    var k := Find(r.orders, m.orderId);
    if k == -1 then RefOutcome(r, [Reject(m, UnknownOrderId)])
    else
      RefOutcome(r.(orders := Splice(r.orders, k)),
                 [Emit(Cancelled, m, 0, r.orders[k].price, r.orders[k].quantity, NoReason)])
  }

  function RefReplace(c: Config, r: Ref, m: Command): RefOutcome
    requires ValidConfig(c)
  {
    var k := Find(r.orders, m.orderId);
    if k == -1 then RefOutcome(r, [Reject(m, UnknownOrderId)])
    else if m.quantity == 0 then RefOutcome(r, [Reject(m, InvalidQuantity)])
    else if !ValidPrice(c, m.price) then RefOutcome(r, [Reject(m, InvalidPrice)])
    else
      var rep := Replacement(m, r.orders[k].side);
      var x := RefSubmit(c, r.(orders := Splice(r.orders, k)), rep, true);
      RefOutcome(x.ref, [Emit(Replaced, rep, 0, rep.price, rep.quantity, NoReason)] + x.events)
  }

  function RefDispatch(c: Config, r: Ref, m: Command): RefOutcome
    requires ValidConfig(c)
  {
    match m.kind
    case New => RefSubmit(c, r, m, false)
    case Cancel => RefCancel(r, m)
    case Replace => RefReplace(c, r, m)
  }

  function RefProcess(c: Config, r: Ref, m: Command): RefOutcome
    requires ValidConfig(c)
  {
    if m.sequence != Next(r.last) then RefOutcome(r, [Reject(m, SequenceGap)])
    else
      RefDispatch(c, r.(last := m.sequence), m)
  }

  // ---- the simulation relation ---------------------------------------------------------------

  /** At each side and price the list is in admission order. */
  predicate InOrder(os: seq<RestingOrder>) {
    forall j, k | 0 <= j < k < |os| && os[j].side == os[k].side && os[j].price == os[k].price ::
      os[j].priority <= os[k].priority
  }

  /** The ladder is the list, filed by side and tick. */
  ghost predicate Mirrors(c: Config, b: Book, r: Ref)
    requires ValidConfig(c)
  {
    b == BookOf(c, r.orders, r.last) && Listed(c, r.orders)
  }

  lemma {:induction false} EligibleIsReachable(c: Config, m: Command, o: RestingOrder)
    requires ValidConfig(c) && (m.orderType.Market? || ValidPrice(c, m.price)) && ValidPrice(c, o.price)
    ensures PriceIndex(c, o.price) < PriceCount(c)
    ensures Crosses(m.side, EffectiveLimit(c, m), o)
            <==> Slot(Opposite(m.side), PriceIndex(c, o.price), PriceCount(c)) < Reach(c, m)
  {
    IndexOfPrice(c, o.price);
    WithinReach(c, m, PriceIndex(c, o.price));
  }

  lemma {:induction false} PriceIndexOrder(c: Config, p: Price, q: Price)
    requires ValidConfig(c) && ValidPrice(c, p) && ValidPrice(c, q)
    ensures p < q <==> PriceIndex(c, p) < PriceIndex(c, q)
    ensures p == q <==> PriceIndex(c, p) == PriceIndex(c, q)
  {
    IndexOfPrice(c, p);
    IndexOfPrice(c, q);
    IndexPriceOrder(c, PriceIndex(c, p), PriceIndex(c, q));
  }

  lemma {:induction false} PickNone(c: Config, os: seq<RestingOrder>, s: Side, i: nat)
    requires ValidConfig(c) && forall k | 0 <= k < |os| :: !Sits(c, os[k], s, i)
    ensures Pick(c, os, s, i) == []
  {
    hide Sits;
    if os != [] { PickNone(c, os[1..], s, i); }
  }

  /** Nothing eligible in the list: the reachable ranks are empty. */
  lemma {:induction false} NoneEligible(c: Config, os: seq<RestingOrder>, m: Command)
    requires ValidConfig(c) && Listed(c, os) && (m.orderType.Market? || ValidPrice(c, m.price))
    requires Best(os, m.side, EffectiveLimit(c, m), |os|) == -1
    ensures EmptyRanks(LevelsOf(c, os, Opposite(m.side)), Opposite(m.side), 0, Reach(c, m))
  {
    var opp, n := Opposite(m.side), PriceCount(c);
    forall r | 0 <= r < Reach(c, m) ensures Pick(c, os, opp, Slot(opp, r, n)) == [] {
      forall j | 0 <= j < |os| ensures !Sits(c, os[j], opp, Slot(opp, r, n)) { EligibleIsReachable(c, m, os[j]); }
      PickNone(c, os, opp, Slot(opp, r, n));
    }
  }

  /** The scan's choice has the best rank, and at its tick the earliest priority, first listed. */
  lemma {:induction false} BestIsFirst(c: Config, os: seq<RestingOrder>, m: Command, k: nat, j: nat)
    requires ValidConfig(c) && Listed(c, os) && (m.orderType.Market? || ValidPrice(c, m.price))
    requires k < |os| && k == Best(os, m.side, EffectiveLimit(c, m), |os|)
    requires j < |os| && os[j].side == Opposite(m.side)
    ensures var opp, n := Opposite(m.side), PriceCount(c);
            && Slot(opp, PriceIndex(c, os[k].price), n) <= Slot(opp, PriceIndex(c, os[j].price), n)
            && (PriceIndex(c, os[k].price) == PriceIndex(c, os[j].price) ==>
                  os[k].priority <= os[j].priority && (j < k ==> os[k].priority < os[j].priority))
  {
    EligibleIsReachable(c, m, os[k]);
    EligibleIsReachable(c, m, os[j]);
    PriceIndexOrder(c, os[j].price, os[k].price);
    PriceIndexOrder(c, os[k].price, os[j].price);
  }

  lemma {:induction false} BetterRanksEmpty(c: Config, os: seq<RestingOrder>, m: Command, k: nat, r: nat)
    requires ValidConfig(c) && Listed(c, os) && (m.orderType.Market? || ValidPrice(c, m.price))
    requires k < |os| && k == Best(os, m.side, EffectiveLimit(c, m), |os|)
    requires r < Slot(Opposite(m.side), PriceIndex(c, os[k].price), PriceCount(c))
    ensures Pick(c, os, Opposite(m.side), Slot(Opposite(m.side), r, PriceCount(c))) == []
  {
    hide Best, Reach;
    var opp, i := Opposite(m.side), Slot(Opposite(m.side), r, PriceCount(c));
    forall j | 0 <= j < |os| ensures !Sits(c, os[j], opp, i) {
      if os[j].side == opp { BestIsFirst(c, os, m, k, j); }
    }
    PickNone(c, os, opp, i);
  }

  lemma {:induction false} BestSits(c: Config, os: seq<RestingOrder>, m: Command, k: nat)
    requires ValidConfig(c) && Listed(c, os) && (m.orderType.Market? || ValidPrice(c, m.price))
    requires k < |os| && k == Best(os, m.side, EffectiveLimit(c, m), |os|)
    ensures var opp, i := Opposite(m.side), PriceIndex(c, os[k].price);
            && os[k].side == opp && Sits(c, os[k], opp, i) && i < PriceCount(c)
            && Slot(opp, i, PriceCount(c)) < Reach(c, m)
  {
    hide Reach;
    EligibleIsReachable(c, m, os[k]);
  }

  /** The scan's choice lies in the best nonempty level. */
  lemma {:induction false} BestLevel(c: Config, os: seq<RestingOrder>, m: Command, k: nat)
    requires ValidConfig(c) && Listed(c, os) && (m.orderType.Market? || ValidPrice(c, m.price))
    requires k < |os| && ValidPrice(c, os[k].price) && k == Best(os, m.side, EffectiveLimit(c, m), |os|)
    ensures var opp, i := Opposite(m.side), PriceIndex(c, os[k].price);
            && os[k].side == opp && i < PriceCount(c)
            && Slot(opp, i, PriceCount(c)) < Reach(c, m)
            && EmptyRanks(LevelsOf(c, os, opp), opp, 0, Slot(opp, i, PriceCount(c)))
            && Pick(c, os, opp, i) == Pick(c, os[..k], opp, i) + [Entry(os[k])] + Pick(c, os[k + 1..], opp, i)
  {
    hide Best, Reach, Listed, ValidConfig, ValidPrice, PriceIndex, EffectiveLimit, Sits, Pick;
    var opp, i, n := Opposite(m.side), PriceIndex(c, os[k].price), PriceCount(c);
    BestSits(c, os, m, k);
    forall r | 0 <= r < Slot(opp, i, n) ensures Pick(c, os, opp, Slot(opp, r, n)) == [] {
      BetterRanksEmpty(c, os, m, k, r);
    }
    PickAround(c, os, k, opp, i);
  }

  /** It heads that level exactly when nothing there was admitted before the head. */
  lemma {:induction false} BestIsHead(c: Config, os: seq<RestingOrder>, m: Command, k: nat)
    requires ValidConfig(c) && Listed(c, os) && (m.orderType.Market? || ValidPrice(c, m.price))
    requires k < |os| && ValidPrice(c, os[k].price) && k == Best(os, m.side, EffectiveLimit(c, m), |os|)
    ensures var opp, i := Opposite(m.side), PriceIndex(c, os[k].price);
            HeadFirst(Pick(c, os, opp, i)) <==> Pick(c, os[..k], opp, i) == []
  {
    hide Best, Reach, Pick, PriceCount, ValidPrice, PriceIndex, EffectiveLimit;
    var opp, i := Opposite(m.side), PriceIndex(c, os[k].price);
    var l, front := Pick(c, os, opp, i), Pick(c, os[..k], opp, i);
    BestLevel(c, os, m, k);
    if front == [] {
      forall j | 0 < j < |l| ensures l[0].priority <= l[j].priority {
        var x := PickOrigin(c, os, opp, i, j);
        BestIsFirst(c, os, m, k, x);
      }
    } else {
      var x := PickOrigin(c, os[..k], opp, i, 0);
      BestIsFirst(c, os, m, k, x);
      assert l[|front|] == Entry(os[k]) && l[0] == front[0];
    }
  }

  // ---- matching ------------------------------------------------------------------------------

  predicate DistinctIds(os: seq<RestingOrder>) {
    forall j, k | 0 <= j < k < |os| :: os[j].orderId != os[k].orderId
  }

  lemma {:induction false} AfterTradeKeeps(c: Config, os: seq<RestingOrder>, k: nat, t: u64)
    requires ValidConfig(c) && Listed(c, os) && DistinctIds(os) && k < |os| && t <= os[k].quantity
    ensures Listed(c, AfterTrade(os, k, t)) && DistinctIds(AfterTrade(os, k, t))
  {
    hide ValidPrice;
  }

  function Filled(o: Order, t: u64): Level
    requires t <= o.qty
  {
    if t == o.qty then [] else [o.(qty := o.qty - t)]
  }

  lemma {:induction false} TradeHeadOf(a: Level, o: Order, z: Level, t: u64)
    requires t <= o.qty && a == []
    ensures a + [o] + z != [] && (a + [o] + z)[0] == o
    ensures TradeHead(a + [o] + z, t) == a + Filled(o, t) + z
  {
    assert (a + [o] + z)[1..] == z;
    assert a + Filled(o, t) + z == Filled(o, t) + z;
  }

  lemma {:induction false} AfterTradePick(c: Config, os: seq<RestingOrder>, k: nat, t: u64, s: Side, j: nat)
    requires ValidConfig(c) && k < |os| && t <= os[k].quantity
    ensures Pick(c, AfterTrade(os, k, t), s, j)
            == Pick(c, os[..k], s, j)
               + (if Sits(c, os[k], s, j) then Filled(Entry(os[k]), t) else [])
               + Pick(c, os[k + 1..], s, j)
  {
    hide Sits;
    if t == os[k].quantity {
      PickSplice(c, os, k, s, j);
    } else {
      var os' := AfterTrade(os, k, t);
      PickAround(c, os', k, s, j);
      assert os'[..k] == os[..k] && os'[k + 1..] == os[k + 1..];
      assert Sits(c, os'[k], s, j) == Sits(c, os[k], s, j) by { QuantityIsFree(c, os[k], os[k].quantity - t, s, j); }
    }
  }

  lemma {:induction false} QuantityIsFree(c: Config, o: RestingOrder, q: u64, s: Side, i: nat)
    requires ValidConfig(c)
    ensures Sits(c, o.(quantity := q), s, i) == Sits(c, o, s, i)
  {}

  /** Trading with the first order of a tick is trading with the head of its level. */
  lemma {:induction false} TradeMirrorsAt(c: Config, os: seq<RestingOrder>, k: nat, t: u64, s: Side, j: nat)
    requires ValidConfig(c) && k < |os| && t <= os[k].quantity
    requires Sits(c, os[k], s, j) ==> Pick(c, os[..k], s, j) == []
    ensures !Sits(c, os[k], s, j) ==> Pick(c, AfterTrade(os, k, t), s, j) == Pick(c, os, s, j)
    ensures Sits(c, os[k], s, j) ==>
              && Pick(c, os, s, j) != [] && Pick(c, os, s, j)[0] == Entry(os[k])
              && Pick(c, AfterTrade(os, k, t), s, j) == TradeHead(Pick(c, os, s, j), t)
  {
    PickAround(c, os, k, s, j);
    AfterTradePick(c, os, k, t, s, j);
    if Sits(c, os[k], s, j) {
      TradeHeadOf(Pick(c, os[..k], s, j), Entry(os[k]), Pick(c, os[k + 1..], s, j), t);
    }
  }

  lemma {:induction false} TradeMirrors(c: Config, os: seq<RestingOrder>, k: nat, t: u64, s: Side)
    requires ValidConfig(c) && k < |os| && ValidPrice(c, os[k].price) && t <= os[k].quantity
    requires Pick(c, os[..k], os[k].side, PriceIndex(c, os[k].price)) == []
    ensures var i := PriceIndex(c, os[k].price);
            && i < PriceCount(c)
            && Pick(c, os, os[k].side, i) != [] && Pick(c, os, os[k].side, i)[0] == Entry(os[k])
            && LevelsOf(c, AfterTrade(os, k, t), s)
               == if s != os[k].side then LevelsOf(c, os, s)
                  else LevelsOf(c, os, s)[i := TradeHead(Pick(c, os, s, i), t)]
  {
    var i := PriceIndex(c, os[k].price);
    IndexOfPrice(c, os[k].price);
    TradeMirrorsAt(c, os, k, t, os[k].side, i);
    var after, before := LevelsOf(c, AfterTrade(os, k, t), s), LevelsOf(c, os, s);
    forall j | 0 <= j < PriceCount(c)
      ensures after[j] == if s == os[k].side && j == i then TradeHead(Pick(c, os, s, i), t) else before[j]
    {
      TradeMirrorsAt(c, os, k, t, s, j);
    }
  }

  /** The list's matching result and the sweep's agree. */
  predicate SameMatch(c: Config, m: Command, os: seq<RestingOrder>, x: RefMatched, w: Swept)
    requires ValidConfig(c)
  {
    && LevelsOf(c, x.orders, Opposite(m.side)) == w.levels
    && LevelsOf(c, x.orders, m.side) == LevelsOf(c, os, m.side)
    && x.left == w.left
    && (forall k | 0 <= k < |w.fills| :: w.fills[k].index < PriceCount(c)) && x.events == Trades(c, m, w.fills)
    && Listed(c, x.orders)
  }

  /** Two event streams differ at position k. */
  predicate DifferAt(es: seq<Event>, fs: seq<Event>, k: nat) {
    k < |es| && k < |fs| && es[k] != fs[k]
  }

  ghost predicate Differ(es: seq<Event>, fs: seq<Event>) {
    exists k :: DifferAt(es, fs, k)
  }

  /** A difference survives whatever follows, and whatever both have in front. */
  lemma {:induction false} DifferWithin(a: seq<Event>, es: seq<Event>, x: seq<Event>, fs: seq<Event>, y: seq<Event>)
    requires Differ(es, fs)
    ensures Differ(a + es + x, a + fs + y)
  {
    var k :| DifferAt(es, fs, k);
    assert DifferAt(a + es + x, a + fs + y, |a| + k);
  }

  lemma {:induction false} DifferentIsDiffer(es: seq<Event>, fs: seq<Event>)
    requires Differ(es, fs)
    ensures es != fs
  {}

  /** One trade of the scan, when its choice heads the level, is one fill of the sweep. */
  lemma {:induction false} MatchStep(c: Config, os: seq<RestingOrder>, m: Command, q: u64, k: nat, t: u64)
    requires ValidConfig(c) && Listed(c, os) && (m.orderType.Market? || ValidPrice(c, m.price))
    requires q > 0 && k < |os| && ValidPrice(c, os[k].price) && k == Best(os, m.side, EffectiveLimit(c, m), |os|)
    requires Pick(c, os[..k], Opposite(m.side), PriceIndex(c, os[k].price)) == []
    requires t == if q < os[k].quantity then q else os[k].quantity
    ensures var opp, os', n := Opposite(m.side), AfterTrade(os, k, t), Reach(c, m);
            var ls, ls' := LevelsOf(c, os, opp), LevelsOf(c, os', opp);
            var f := Fill(PriceIndex(c, os[k].price), os[k].orderId, t);
            var w := Sweep(ls', opp, 0, n, q - t);
            && f.index < PriceCount(c)
            && Sweep(ls, opp, 0, n, q) == Swept(w.levels, w.left, [f] + w.fills)
            && LevelsOf(c, os', m.side) == LevelsOf(c, os, m.side)
            && (InTurn(ls, opp, 0, n, q) <==> HeadFirst(ls[f.index]) && InTurn(ls', opp, 0, n, q - t))
  {
    hide Listed, AfterTrade, Best, ValidPrice, TradeHead, Sweep, Pick, ValidConfig, PriceIndex, EffectiveLimit,
      InTurn, HeadFirst;
    var opp, i := Opposite(m.side), PriceIndex(c, os[k].price);
    var ls := LevelsOf(c, os, opp);
    BestLevel(c, os, m, k);
    TradeMirrors(c, os, k, t, opp);
    TradeMirrors(c, os, k, t, m.side);
    SweepStep(ls, opp, Slot(opp, i, |ls|), Reach(c, m), q);
    InTurnStep(ls, opp, Slot(opp, i, |ls|), Reach(c, m), q);
  }

  /** Where the scan's choice does not head its level, the two trade with different orders at once. */
  lemma {:induction false} MatchParts(c: Config, os: seq<RestingOrder>, m: Command, q: u64, k: nat)
    requires ValidConfig(c) && Listed(c, os) && DistinctIds(os) && (m.orderType.Market? || ValidPrice(c, m.price))
    requires q > 0 && k < |os| && ValidPrice(c, os[k].price) && k == Best(os, m.side, EffectiveLimit(c, m), |os|)
    requires !HeadFirst(Pick(c, os, Opposite(m.side), PriceIndex(c, os[k].price)))
    ensures var opp, n := Opposite(m.side), Reach(c, m);
            var ls, x := LevelsOf(c, os, opp), Match(os, m, EffectiveLimit(c, m), q);
            var w := Sweep(ls, opp, 0, n, q);
            && !InTurn(ls, opp, 0, n, q)
            && w.fills != [] && x.events != [] && x.events[0].contra == os[k].orderId != w.fills[0].id
  {
    hide Listed, ValidPrice, TradeHead, Sweep, Pick, ValidConfig, PriceIndex, EffectiveLimit, InTurn, HeadFirst, Sits;
    var opp, i := Opposite(m.side), PriceIndex(c, os[k].price);
    var ls := LevelsOf(c, os, opp);
    BestLevel(c, os, m, k);
    BestIsHead(c, os, m, k);
    var x := PickOrigin(c, os[..k], opp, i, 0);
    assert ls[i][0] == Entry(os[x]);
    SweepStep(ls, opp, Slot(opp, i, |ls|), Reach(c, m), q);
    InTurnStep(ls, opp, Slot(opp, i, |ls|), Reach(c, m), q);
  }

  /** The scan and the sweep, trade by trade: alike while every head is in turn, and apart otherwise. */
  ghost predicate MatchAgrees(c: Config, os: seq<RestingOrder>, m: Command, q: u64)
    requires ValidConfig(c) && (m.orderType.Market? || ValidPrice(c, m.price))
  {
    var opp, n := Opposite(m.side), Reach(c, m);
    var ls, x := LevelsOf(c, os, opp), Match(os, m, EffectiveLimit(c, m), q);
    var w := Sweep(ls, opp, 0, n, q);
    if InTurn(ls, opp, 0, n, q) then SameMatch(c, m, os, x, w) else Differ(Trades(c, m, w.fills), x.events)
  }

  lemma {:induction false} MatchUnfold(os: seq<RestingOrder>, m: Command, limit: Price, q: u64, k: nat, t: u64)
    requires q > 0 && k < |os| && k == Best(os, m.side, limit, |os|)
    requires t == if q < os[k].quantity then q else os[k].quantity
    ensures var rest := Match(AfterTrade(os, k, t), m, limit, q - t);
            var e := Emit(Trade, m, os[k].orderId, os[k].price, t, NoReason);
            Match(os, m, limit, q) == RefMatched(rest.orders, rest.left, [e] + rest.events)
  {
    hide Best, AfterTrade;
  }

  lemma {:induction false} MatchExtends(c: Config, os: seq<RestingOrder>, m: Command, q: u64, k: nat, t: u64)
    requires ValidConfig(c) && Listed(c, os) && (m.orderType.Market? || ValidPrice(c, m.price))
    requires q > 0 && k < |os| && ValidPrice(c, os[k].price) && k == Best(os, m.side, EffectiveLimit(c, m), |os|)
    requires HeadFirst(Pick(c, os, Opposite(m.side), PriceIndex(c, os[k].price)))
    requires t == if q < os[k].quantity then q else os[k].quantity
    requires MatchAgrees(c, AfterTrade(os, k, t), m, q - t)
    ensures MatchAgrees(c, os, m, q)
  {
    hide Listed, AfterTrade, Best, ValidPrice, Sweep, Pick, ValidConfig, PriceIndex, EffectiveLimit, Match, Reach,
      InTurn, HeadFirst, Differ, IndexPrice;
    var opp, os', n := Opposite(m.side), AfterTrade(os, k, t), Reach(c, m);
    var w := Sweep(LevelsOf(c, os', opp), opp, 0, n, q - t);
    var rest := Match(os', m, EffectiveLimit(c, m), q - t);
    var f := Fill(PriceIndex(c, os[k].price), os[k].orderId, t);
    BestIsHead(c, os, m, k);
    MatchStep(c, os, m, q, k, t);
    MatchUnfold(os, m, EffectiveLimit(c, m), q, k, t);
    IndexOfPrice(c, os[k].price);
    TradesCons(c, m, f, w.fills);
    var e, trades := Emit(Trade, m, os[k].orderId, os[k].price, t, NoReason), Trades(c, m, w.fills);
    if !InTurn(LevelsOf(c, os', opp), opp, 0, n, q - t) {
      DifferWithin([e], trades, [], rest.events, []);
      assert [e] + trades + [] == [e] + trades && [e] + rest.events + [] == [e] + rest.events;
    }
  }

  lemma {:induction false} MatchEnds(c: Config, os: seq<RestingOrder>, m: Command, q: u64)
    requires ValidConfig(c) && Listed(c, os) && (m.orderType.Market? || ValidPrice(c, m.price))
    requires q == 0 || Best(os, m.side, EffectiveLimit(c, m), |os|) == -1
    ensures MatchAgrees(c, os, m, q)
  {
    hide Listed, ValidPrice, Sweep, Pick, ValidConfig, EffectiveLimit, Reach, InTurn;
    var opp := Opposite(m.side);
    if q > 0 { NoneEligible(c, os, m); }
    ReachFits(c, BookOf(c, os, 0), m);
    SweepStops(LevelsOf(c, os, opp), opp, Reach(c, m), q);
    InTurnStops(LevelsOf(c, os, opp), opp, Reach(c, m), q);
  }

  /** Each fill of the sweep is the scan's next trade, exactly as long as heads are in turn. */
  lemma {:induction false} MatchMirrors(c: Config, os: seq<RestingOrder>, m: Command, q: u64)
    requires ValidConfig(c) && Listed(c, os) && DistinctIds(os) && (m.orderType.Market? || ValidPrice(c, m.price))
    ensures MatchAgrees(c, os, m, q)
    decreases |os|, q
  {
    hide ValidPrice, Sweep, Pick, ValidConfig, EffectiveLimit, Reach, InTurn, HeadFirst, PriceIndex, Best, Match,
      SameMatch, Trades, MatchAgrees, DistinctIds;
    var k := Best(os, m.side, EffectiveLimit(c, m), |os|);
    if q == 0 || k == -1 {
      MatchEnds(c, os, m, q);
    } else {
      BestRange(os, m, EffectiveLimit(c, m));
      var t := if q < os[k].quantity then q else os[k].quantity;
      if HeadFirst(Pick(c, os, Opposite(m.side), PriceIndex(c, os[k].price))) {
        AfterTradeKeeps(c, os, k, t);
        MatchMirrors(c, AfterTrade(os, k, t), m, q - t);
        MatchExtends(c, os, m, q, k, t);
      } else {
        MatchApart(c, os, m, q, k);
      }
    }
  }

  lemma {:induction false} BestRange(os: seq<RestingOrder>, m: Command, limit: Price)
    ensures -1 <= Best(os, m.side, limit, |os|) < |os|
  {}

  lemma {:induction false} MatchApart(c: Config, os: seq<RestingOrder>, m: Command, q: u64, k: nat)
    requires ValidConfig(c) && Listed(c, os) && DistinctIds(os) && (m.orderType.Market? || ValidPrice(c, m.price))
    requires q > 0 && k < |os| && ValidPrice(c, os[k].price) && k == Best(os, m.side, EffectiveLimit(c, m), |os|)
    requires !HeadFirst(Pick(c, os, Opposite(m.side), PriceIndex(c, os[k].price)))
    ensures MatchAgrees(c, os, m, q)
  {
    hide Listed, ValidPrice, Sweep, Pick, ValidConfig, EffectiveLimit, InTurn, HeadFirst, PriceIndex, Match, Best,
      IndexPrice;
    MatchParts(c, os, m, q, k);
    var opp := Opposite(m.side);
    var w := Sweep(LevelsOf(c, os, opp), opp, 0, Reach(c, m), q);
    assert DifferAt(Trades(c, m, w.fills), Match(os, m, EffectiveLimit(c, m), q).events, 0);
  }

  // ---- liquidity -----------------------------------------------------------------------------

  /** What the scan counts as available. */
  function Available(os: seq<RestingOrder>, side: Side, limit: Price, k: nat): nat
    requires k <= |os|
    decreases |os| - k
  {
    if k == |os| then 0
    else (if Eligible(side, limit, os[k]) then os[k].quantity else 0) + Available(os, side, limit, k + 1)
  }

  lemma {:induction false} CanFillMeans(os: seq<RestingOrder>, side: Side, limit: Price, q: u64, k: nat, have: nat)
    requires k <= |os| && have < q
    ensures CanFill(os, side, limit, q, k, have) <==> have + Available(os, side, limit, k) >= q
    decreases |os| - k
  {
    if k < |os| {
      if !Eligible(side, limit, os[k]) {
        CanFillMeans(os, side, limit, q, k + 1, have);
      } else if have + os[k].quantity < q {
        CanFillMeans(os, side, limit, q, k + 1, have + os[k].quantity);
      }
    }
  }

  lemma {:induction false} DepthUpdate(ls: seq<Level>, s: Side, n: nat, i: nat, l: Level)
    requires n <= |ls| && i < |ls|
    ensures Depth(ls[i := l], s, n)
            == Depth(ls, s, n) + (if Slot(s, i, |ls|) < n then Total(l) - Total(ls[i]) else 0)
  {
    hide Total;
    if n > 0 { DepthUpdate(ls, s, n - 1, i, l); }
  }

  lemma {:induction false} DepthNone(ls: seq<Level>, s: Side, n: nat)
    requires n <= |ls| && forall i | 0 <= i < |ls| :: ls[i] == []
    ensures Depth(ls, s, n) == 0
  {
    if n > 0 { DepthNone(ls, s, n - 1); }
  }

  lemma {:induction false} LevelsOfCons(c: Config, os: seq<RestingOrder>, s: Side)
    requires ValidConfig(c) && os != [] && ValidPrice(c, os[0].price)
    ensures var i, tail := PriceIndex(c, os[0].price), LevelsOf(c, os[1..], s);
            && i < PriceCount(c)
            && LevelsOf(c, os, s) == if os[0].side != s then tail else tail[i := [Entry(os[0])] + tail[i]]
  {
    IndexOfPrice(c, os[0].price);
    assert forall j | 0 <= j < PriceCount(c) :: [] + Pick(c, os[1..], s, j) == Pick(c, os[1..], s, j);
  }

  lemma {:induction false} AvailableShift(os: seq<RestingOrder>, side: Side, limit: Price, k: nat)
    requires os != [] && k < |os|
    ensures Available(os, side, limit, k + 1) == Available(os[1..], side, limit, k)
    decreases |os| - k
  {
    if k + 1 < |os| { AvailableShift(os, side, limit, k + 1); }
  }

  /** The list's available quantity is the ladder's reachable depth. */
  lemma {:induction false} DepthIsAvailable(c: Config, os: seq<RestingOrder>, m: Command)
    requires ValidConfig(c) && Listed(c, os) && (m.orderType.Market? || ValidPrice(c, m.price))
    ensures Depth(LevelsOf(c, os, Opposite(m.side)), Opposite(m.side), Reach(c, m))
            == Available(os, m.side, EffectiveLimit(c, m), 0)
  {
    hide Reach, EffectiveLimit, ValidPrice, PriceIndex;
    var opp, n, limit := Opposite(m.side), Reach(c, m), EffectiveLimit(c, m);
    if os == [] {
      DepthNone(LevelsOf(c, os, opp), opp, n);
    } else {
      var tail, i := LevelsOf(c, os[1..], opp), PriceIndex(c, os[0].price);
      DepthIsAvailable(c, os[1..], m);
      AvailableShift(os, m.side, limit, 0);
      LevelsOfCons(c, os, opp);
      EligibleIsReachable(c, m, os[0]);
      if os[0].side == opp {
        var l := [Entry(os[0])] + tail[i];
        assert l[1..] == tail[i];
        assert Total(l) == os[0].quantity + Total(tail[i]);
        DepthUpdate(tail, opp, n, i, l);
      }
    }
  }

  // ---- commands ------------------------------------------------------------------------------

  lemma {:induction false} FindIsResident(c: Config, os: seq<RestingOrder>, last: u64, id: u64)
    requires ValidConfig(c) && Listed(c, os)
    ensures Resident(BookOf(c, os, last), id) <==> Find(os, id) != -1
  {
    var b := BookOf(c, os, last);
    if Find(os, id) != -1 {
      var p := PlaceOf(c, os, last, Find(os, id));
    }
    if Resident(b, id) {
      var p := Locate(b, id);
      var k := PickOrigin(c, os, p.side, p.index, p.pos);
    }
  }

  lemma {:induction false} ListedDistinct(c: Config, b: Book, r: Ref)
    requires ValidConfig(c) && Mirrors(c, b, r) && UniqueIds(b)
    ensures DistinctIds(r.orders)
  {
    hide Pick, ValidPrice, PriceIndex;
    forall j, k | 0 <= j < k < |r.orders| ensures r.orders[j].orderId != r.orders[k].orderId {
      var p := PlaceOf(c, r.orders, r.last, j);
      var q := PlaceOf(c, r.orders, r.last, k);
      if p == q { Recovery.EarlierPlace(c, r.orders, j, k, p.side, p.index); }
    }
  }

  /** Every order that executing m would trade with is the earliest of its FIFO when its turn comes. */
  predicate TakesTurns(c: Config, b: Book, m: Command)
    requires ValidConfig(c) && Sized(c, b) && (m.orderType.Market? || ValidPrice(c, m.price))
  {
    InTurn(Levels(b, Opposite(m.side)), Opposite(m.side), 0, Reach(c, m), m.quantity)
  }

  lemma {:induction false} ExecuteMirrors(c: Config, b: Book, r: Ref, m: Command)
    requires ValidConfig(c) && Mirrors(c, b, r) && DistinctIds(r.orders)
    requires m.orderType.Market? || ValidPrice(c, m.price)
    ensures Sized(c, b)
    ensures var x, y := Execute(c, b, m), RefExecute(c, r, m);
            if TakesTurns(c, b, m) then x.events == y.events && Mirrors(c, x.book, y.ref)
            else Differ(x.events, y.events)
  {
    hide Match, Sweep, Reach, EffectiveLimit, ValidPrice, PriceIndex, IndexPrice, LevelsOf, InTurn, Differ;
    var opp := Opposite(m.side);
    var x := Match(r.orders, m, EffectiveLimit(c, m), m.quantity);
    MatchMirrors(c, r.orders, m, m.quantity);
    var w := Sweep(Levels(b, opp), opp, 0, Reach(c, m), m.quantity);
    if TakesTurns(c, b, m) {
      assert WithLevels(b, opp, w.levels) == BookOf(c, x.orders, r.last);
      if x.left > 0 && m.orderType.Limit? {
        AppendListed(c, x.orders, r.last, RestingOrder(m.orderId, m.side, m.price, x.left, m.sequence));
      }
    } else {
      var es, fs := Trades(c, m, w.fills), x.events;
      var u, v := Execute(c, b, m).events, RefExecute(c, r, m).events;
      assert u == [] + es + u[|es|..] && v == [] + fs + v[|fs|..];
      DifferWithin([], es, u[|es|..], fs, v[|fs|..]);
    }
  }

  /**
   The engine's preflight is consulted and gets it wrong: the displayed depth falls short of the
   quantity although the true depth covers it.
   */
  ghost predicate Misjudged(c: Config, b: Book, m: Command)
    requires ValidConfig(c) && Sized(c, b)
  {
    && m.quantity > 0 && (m.orderType.Market? || ValidPrice(c, m.price))
    && (m.orderType.FillOrKill? || (m.orderType.Limit? && Resting(b) == c.maximumOrders))
    && var opp := Opposite(m.side);
       ShownDepth(Levels(b, opp), opp, Reach(c, m)) < m.quantity <= Depth(Levels(b, opp), opp, Reach(c, m))
  }

  lemma {:induction false} PreflightMirrors(c: Config, b: Book, r: Ref, m: Command)
    requires ValidConfig(c) && Mirrors(c, b, r) && (m.orderType.Market? || ValidPrice(c, m.price)) && m.quantity > 0
    ensures Sized(c, b)
    ensures var opp := Opposite(m.side);
            && ShownDepth(Levels(b, opp), opp, Reach(c, m)) <= Depth(Levels(b, opp), opp, Reach(c, m))
            && (CanFill(r.orders, m.side, EffectiveLimit(c, m), m.quantity, 0, 0)
                <==> Depth(Levels(b, opp), opp, Reach(c, m)) >= m.quantity)
  {
    DepthIsAvailable(c, r.orders, m);
    CanFillMeans(r.orders, m.side, EffectiveLimit(c, m), m.quantity, 0, 0);
    ShownAtMostTrue(Levels(b, Opposite(m.side)), Opposite(m.side), Reach(c, m));
  }

  lemma {:induction false} AdmissionMirrors(c: Config, b: Book, r: Ref, m: Command, replacement: bool)
    requires ValidConfig(c) && Mirrors(c, b, r)
    ensures Sized(c, b)
    ensures (replacement || !Resident(b, m.orderId)) && Misjudged(c, b, m) ==>
              Admission(c, b, m, replacement) != NoReason && RefAdmission(c, r, m, replacement) == NoReason
    ensures !((replacement || !Resident(b, m.orderId)) && Misjudged(c, b, m)) ==>
              Admission(c, b, m, replacement) == RefAdmission(c, r, m, replacement)
  {
    hide Reach, ShownDepth, Depth, Resident, CanFill, Resting, ValidPrice, EffectiveLimit;
    FindIsResident(c, r.orders, r.last, m.orderId);
    ListingCount(c, r.orders, r.last);
    if m.quantity > 0 && (m.orderType.Market? || ValidPrice(c, m.price)) { PreflightMirrors(c, b, r, m); }
  }

  lemma {:induction false} AdmissionMeans(c: Config, b: Book, m: Command, replacement: bool)
    requires ValidConfig(c) && Sized(c, b) && Admission(c, b, m, replacement) == NoReason
    ensures m.orderType.Market? || ValidPrice(c, m.price)
  {}

  /** Two event streams that already differ in their first event. */
  predicate Apart(es: seq<Event>, fs: seq<Event>) {
    es != [] && fs != [] && es[0] != fs[0]
  }

  /** The command is admitted and does not take turns. */
  ghost predicate Unfair(c: Config, b: Book, m: Command, replacement: bool)
    requires ValidConfig(c) && Sized(c, b)
  {
    && Admission(c, b, m, replacement) == NoReason
    && (m.orderType.Market? || ValidPrice(c, m.price)) && !TakesTurns(c, b, m)
  }

  lemma {:induction false} SubmitMirrors(c: Config, b: Book, r: Ref, m: Command, replacement: bool)
    requires ValidConfig(c) && Mirrors(c, b, r) && DistinctIds(r.orders)
    ensures Sized(c, b)
    ensures var x, y := Ladder.Submit(c, b, m, replacement), RefSubmit(c, r, m, replacement);
            if (replacement || !Resident(b, m.orderId)) && Misjudged(c, b, m) then
              Apart(x.events, y.events) || replacement
            else if Unfair(c, b, m, replacement) then Differ(x.events, y.events)
            else x.events == y.events && Mirrors(c, x.book, y.ref)
  {
    hide Admission, RefAdmission, Execute, RefExecute, Resident, Misjudged, TakesTurns, Differ;
    AdmissionMirrors(c, b, r, m, replacement);
    if Admission(c, b, m, replacement) == NoReason {
      AdmissionMeans(c, b, m, replacement);
      ExecuteMirrors(c, b, r, m);
      if !TakesTurns(c, b, m) {
        var es, fs := Execute(c, b, m).events, RefExecute(c, r, m).events;
        var front := if replacement then [] else [Emit(Accepted, m, 0, 0, 0, NoReason)];
        DifferWithin(front, es, [], fs, []);
        assert front + es + [] == front + es && front + fs + [] == front + fs;
      }
    } else {
      assert [Reject(m, Admission(c, b, m, replacement))][0].kind == Rejected;
    }
  }

  /** The listed order with an id sits where the ladder locates it. */
  lemma {:induction false} FindIsLocate(c: Config, b: Book, r: Ref, id: u64)
    requires ValidConfig(c) && Mirrors(c, b, r) && UniqueIds(b) && Resident(b, id)
    ensures Sized(c, b)
    ensures var k, p := Find(r.orders, id), Locate(b, id);
            && k != -1 && p.side == r.orders[k].side && p.index < PriceCount(c)
            && IndexPrice(c, p.index) == r.orders[k].price && OrderAt(b, p).qty == r.orders[k].quantity
            && Remove(b, p) == BookOf(c, Splice(r.orders, k), r.last)
            && Mirrors(c, Remove(b, p), r.(orders := Splice(r.orders, k)))
            && (DistinctIds(r.orders) ==> DistinctIds(Splice(r.orders, k)))
  {
    FindIsResident(c, r.orders, r.last, id);
    var k := Find(r.orders, id);
    var p := PlaceOf(c, r.orders, r.last, k);
    assert p == Locate(b, id);
    SpliceRemoves(c, r.orders, r.last, k, p);
    IndexOfPrice(c, r.orders[k].price);
    SpliceKeeps(c, r.orders, k);
  }

  lemma {:induction false} SpliceKeeps(c: Config, os: seq<RestingOrder>, k: nat)
    requires ValidConfig(c) && Listed(c, os) && k < |os|
    ensures Listed(c, Splice(os, k)) && (DistinctIds(os) ==> DistinctIds(Splice(os, k)))
    ensures forall j | 0 <= j < |Splice(os, k)| :: Splice(os, k)[j] in os
  {
    hide ValidPrice;
  }

  lemma {:induction false} CancelMirrors(c: Config, b: Book, r: Ref, m: Command)
    requires Sound(c, b) && Mirrors(c, b, r)
    ensures CancelOrder(c, b, m).events == RefCancel(r, m).events
    ensures Mirrors(c, CancelOrder(c, b, m).book, RefCancel(r, m).ref)
  {
    FindIsResident(c, r.orders, r.last, m.orderId);
    if Resident(b, m.orderId) { FindIsLocate(c, b, r, m.orderId); }
  }

  /** The replacement is let through, and on the book without the original order it does not take turns. */
  ghost predicate UnfairReplacement(c: Config, b: Book, m: Command)
    requires ValidConfig(c) && Sized(c, b)
  {
    && Resident(b, m.orderId) && m.quantity > 0 && ValidPrice(c, m.price)
    && var p := Locate(b, m.orderId);
       !TakesTurns(c, Remove(b, p), Replacement(m, p.side))
  }

  lemma {:induction false} ReplaceMirrors(c: Config, b: Book, r: Ref, m: Command)
    requires Sound(c, b) && Mirrors(c, b, r) && DistinctIds(r.orders)
    ensures var x, y := ReplaceOrder(c, b, m), RefReplace(c, r, m);
            if UnfairReplacement(c, b, m) then Differ(x.events, y.events)
            else x.events == y.events && Mirrors(c, x.book, y.ref)
  {
    hide Ladder.Submit, RefSubmit, TakesTurns, Admission, Differ, DistinctIds, UniqueIds, ValidPrice, Resident, Locate;
    FindIsResident(c, r.orders, r.last, m.orderId);
    if Resident(b, m.orderId) && m.quantity > 0 && ValidPrice(c, m.price) {
      var k, p := Find(r.orders, m.orderId), Locate(b, m.orderId);
      FindIsLocate(c, b, r, m.orderId);
      RemoveCount(b, p);
      ReplacementAdmitted(c, b, p, m);
      var b', r', rep := Remove(b, p), r.(orders := Splice(r.orders, k)), Replacement(m, p.side);
      SubmitMirrors(c, b', r', rep, true);
      if !TakesTurns(c, b', rep) {
        var es, fs := Ladder.Submit(c, b', rep, true).events, RefSubmit(c, r', rep, true).events;
        var front := [Emit(Replaced, rep, 0, rep.price, rep.quantity, NoReason)];
        DifferWithin(front, es, [], fs, []);
        assert front + es + [] == front + es && front + fs + [] == front + fs;
      }
    }
  }

  // ---- runs ----------------------------------------------------------------------------------

  /** A command is misjudged: next in sequence, its preflight is consulted and gets it wrong. */
  ghost predicate Diverges(c: Config, b: Book, m: Command)
    requires ValidConfig(c) && Sized(c, b)
  {
    m.sequence == Next(b.last) && m.kind.New? && !Resident(b, m.orderId) && Misjudged(c, b, m)
  }

  /** A command jumps the queue: next in sequence and admitted, it trades with a head that is not the earliest. */
  ghost predicate OutOfTurn(c: Config, b: Book, m: Command)
    requires ValidConfig(c) && Sized(c, b)
  {
    && m.sequence == Next(b.last)
    && match m.kind
       case New => Unfair(c, b, m, false)
       case Cancel => false
       case Replace => UnfairReplacement(c, b, m)
  }

  /** The two ways, and the only two, in which a command can be answered differently. */
  ghost predicate Parts(c: Config, b: Book, m: Command)
    requires ValidConfig(c) && Sized(c, b)
  {
    Diverges(c, b, m) || OutOfTurn(c, b, m)
  }

  lemma {:induction false} AdvanceMirrors(c: Config, b: Book, r: Ref, sequence: u64)
    requires Sound(c, b) && Mirrors(c, b, r)
    ensures Mirrors(c, b.(last := sequence), r.(last := sequence))
    ensures Sized(c, b.(last := sequence))
    ensures forall m :: Misjudged(c, b.(last := sequence), m) <==> Misjudged(c, b, m)
  {}

  /** Turns are a matter of the levels; the last sequence has no part in them. */
  lemma {:induction false} TurnsLevels(c: Config, b: Book, last: u64, m: Command)
    requires Sound(c, b)
    ensures Sized(c, b.(last := last))
    ensures Unfair(c, b.(last := last), m, false) <==> Unfair(c, b, m, false)
    ensures UnfairReplacement(c, b.(last := last), m) <==> UnfairReplacement(c, b, m)
  {
    hide Resident, Resting, InTurn, Reach, ShownDepth, Positive, UniqueIds;
    AdvanceKeeps(c, b, last);
    SameLevels(b, last, m.orderId);
    if Resident(b, m.orderId) {
      LocateKept(b, last, m.orderId);
      var p := Locate(b, m.orderId);
      assert Remove(b.(last := last), p) == Remove(b, p).(last := last);
    }
  }

  lemma {:induction false} SameLevels(b: Book, last: u64, id: u64)
    ensures Resident(b.(last := last), id) <==> Resident(b, id)
    ensures Resting(b.(last := last)) == Resting(b)
  {
    var t := b.(last := last);
    if Resident(b, id) { var p := Locate(b, id); assert Holds(t, p) && OrderAt(t, p).id == id; }
    if Resident(t, id) { var p := Locate(t, id); assert Holds(b, p) && OrderAt(b, p).id == id; }
  }

  lemma {:induction false} DispatchMirrors(c: Config, b: Book, r: Ref, m: Command)
    requires Sound(c, b) && Mirrors(c, b, r) && DistinctIds(r.orders)
    ensures var x, y := Dispatch(c, b, m), RefDispatch(c, r, m);
            if m.kind.New? && !Resident(b, m.orderId) && Misjudged(c, b, m) then Apart(x.events, y.events)
            else if (m.kind.New? && Unfair(c, b, m, false)) || (m.kind.Replace? && UnfairReplacement(c, b, m)) then
              Differ(x.events, y.events)
            else x.events == y.events && Mirrors(c, x.book, y.ref)
  {
    hide Apart, Differ, Ladder.Submit, RefSubmit, CancelOrder, RefCancel, ReplaceOrder, RefReplace, Misjudged, Mirrors,
      Unfair, UnfairReplacement;
    match m.kind
    case New => SubmitMirrors(c, b, r, m, false);
    case Cancel => CancelMirrors(c, b, r, m);
    case Replace => ReplaceMirrors(c, b, r, m);
  }

  /** The list is in order exactly when every FIFO of the ladder is. */
  lemma {:induction false} InOrderIsQueued(c: Config, b: Book, r: Ref)
    requires ValidConfig(c) && Mirrors(c, b, r)
    ensures InOrder(r.orders) <==> Queued(b)
  {
    hide Pick, ValidPrice, PriceIndex;
    var os := r.orders;
    if InOrder(os) {
      forall p, q | Ahead(b, p, q) ensures OrderAt(b, p).priority <= OrderAt(b, q).priority {
        var j := PickOrigin(c, os, p.side, p.index, p.pos);
        var k := PickOrigin(c, os, q.side, q.index, q.pos);
        if k < j { PickGrows(c, os, k, j, p.side, p.index); }
        PriceIndexOrder(c, os[j].price, os[k].price);
      }
    }
    if Queued(b) {
      forall j, k | 0 <= j < k < |os| && os[j].side == os[k].side && os[j].price == os[k].price
        ensures os[j].priority <= os[k].priority
      {
        var p := PlaceOf(c, os, r.last, j);
        var q := PlaceOf(c, os, r.last, k);
        PickAround(c, os[..k], j, p.side, p.index);
        assert os[..k][..j] == os[..j];
        assert Ahead(b, p, q);
      }
    }
  }

  lemma {:induction false} PickGrows(c: Config, os: seq<RestingOrder>, j: nat, k: nat, s: Side, i: nat)
    requires ValidConfig(c) && j <= k <= |os|
    ensures |Pick(c, os[..j], s, i)| <= |Pick(c, os[..k], s, i)|
  {
    hide Pick;
    PickConcat(c, os[..j], os[j..k], s, i);
    assert os[..j] + os[j..k] == os[..k];
  }

  /**
   The differential theorem, one command, on any sound book and the list that mirrors it: the two
   answer alike and their books still agree, unless the command parts them, and then some event
   differs; if it is misjudged, the very first.
   */
  lemma {:induction false} DifferentialStep(c: Config, b: Book, r: Ref, m: Command)
    requires Sound(c, b) && Mirrors(c, b, r)
    ensures var x, y := Ladder.Process(c, b, m), RefProcess(c, r, m);
            && (Diverges(c, b, m) ==> Apart(x.events, y.events))
            && (Parts(c, b, m) ==> Differ(x.events, y.events))
            && (!Parts(c, b, m) ==> x.events == y.events && Mirrors(c, x.book, y.ref))
  {
    hide Dispatch, RefDispatch, Misjudged, Resident, Unfair, UnfairReplacement, DistinctIds;
    ListedDistinct(c, b, r);
    if m.sequence == Next(b.last) {
      AdvanceMirrors(c, b, r, m.sequence);
      AdvanceKeeps(c, b, m.sequence);
      TurnsLevels(c, b, m.sequence, m);
      var t := b.(last := m.sequence);
      DispatchMirrors(c, t, r.(last := m.sequence), m);
      if Diverges(c, b, m) {
        assert DifferAt(Dispatch(c, t, m).events, RefDispatch(c, r.(last := m.sequence), m).events, 0);
      }
    }
  }

  function RefRun(c: Config, r: Ref, ms: seq<Command>): RefOutcome
    requires ValidConfig(c)
  {
    if ms == [] then RefOutcome(r, [])
    else
      var front := RefRun(c, r, ms[..|ms| - 1]);
      var x := RefProcess(c, front.ref, ms[|ms| - 1]);
      RefOutcome(x.ref, front.events + x.events)
  }

  /** No command of the run parts the books when it is reached. */
  ghost predicate NeverParts(c: Config, b: Book, ms: seq<Command>)
    requires ValidConfig(c) && Sized(c, b)
  {
    forall n | 0 <= n < |ms| :: !Parts(c, Run(c, b, ms[..n]).book, ms[n])
  }

  /** No command of the run is misjudged when it is reached. */
  ghost predicate NeverDiverges(c: Config, b: Book, ms: seq<Command>)
    requires ValidConfig(c) && Sized(c, b)
  {
    forall n | 0 <= n < |ms| :: !Diverges(c, Run(c, b, ms[..n]).book, ms[n])
  }

  lemma {:induction false} NeverPartsFront(c: Config, b: Book, ms: seq<Command>)
    requires ValidConfig(c) && Sized(c, b) && ms != []
    ensures NeverParts(c, b, ms) <==>
            NeverParts(c, b, ms[..|ms| - 1]) && !Parts(c, Run(c, b, ms[..|ms| - 1]).book, ms[|ms| - 1])
  {
    hide Run, Parts;
    var front := ms[..|ms| - 1];
    assert forall n | 0 <= n < |front| :: front[..n] == ms[..n] && front[n] == ms[n];
    if NeverParts(c, b, ms) {
      forall n | 0 <= n < |front| ensures !Parts(c, Run(c, b, front[..n]).book, front[n]) {
        assert front[..n] == ms[..n];
      }
    }
    if NeverParts(c, b, front) && !Parts(c, Run(c, b, front).book, ms[|front|]) {
      forall n | 0 <= n < |ms| ensures !Parts(c, Run(c, b, ms[..n]).book, ms[n]) {
        if n < |front| { assert front[..n] == ms[..n]; }
      }
    }
  }

  /** One more command of a run, in both books. */
  lemma {:induction false} RunsExtend(c: Config, b: Book, r: Ref, ms: seq<Command>)
    requires ValidConfig(c) && Sized(c, b) && ms != []
    ensures var front, m := ms[..|ms| - 1], ms[|ms| - 1];
            var f, g := Run(c, b, front), RefRun(c, r, front);
            && Run(c, b, ms).book == Ladder.Process(c, f.book, m).book
            && Run(c, b, ms).events == f.events + Ladder.Process(c, f.book, m).events
            && RefRun(c, r, ms).ref == RefProcess(c, g.ref, m).ref
            && RefRun(c, r, ms).events == g.events + RefProcess(c, g.ref, m).events
  {
    hide Ladder.Process, RefProcess;
  }

  /**
   The differential theorem, whole runs of any sound book and the list that mirrors it, past a
   sequence wrap too: the two produce the same events, and end in the same state, if and only if no
   command parts them when it is reached.
   */
  lemma {:induction false} DifferentialRun(c: Config, b: Book, r: Ref, ms: seq<Command>)
    requires Sound(c, b) && ValidConfig(c) && Sized(c, b) && Mirrors(c, b, r)
    ensures NeverParts(c, b, ms) ==>
              Run(c, b, ms).events == RefRun(c, r, ms).events && Mirrors(c, Run(c, b, ms).book, RefRun(c, r, ms).ref)
    ensures !NeverParts(c, b, ms) ==> Differ(Run(c, b, ms).events, RefRun(c, r, ms).events)
    ensures Run(c, b, ms).events == RefRun(c, r, ms).events <==> NeverParts(c, b, ms)
  {
    hide Run, RefRun, Ladder.Process, RefProcess, Sound, Mirrors, Sized, ValidConfig;
    hide Diverges, Parts, NeverParts, Differ;
    if ms == [] {
      NothingRun(c, b, r);
    } else {
      var front, m := ms[..|ms| - 1], ms[|ms| - 1];
      NeverPartsFront(c, b, ms);
      DifferentialRun(c, b, r, front);
      RunsExtend(c, b, r, ms);
      var f, g := Run(c, b, front), RefRun(c, r, front);
      RunTheorem(c, b, front);
      RunSized(c, b, front);
      var x, y := Ladder.Process(c, f.book, m).events, RefProcess(c, g.ref, m).events;
      if !NeverParts(c, b, front) {
        DifferWithin([], f.events, x, g.events, y);
        assert [] + f.events + x == f.events + x && [] + g.events + y == g.events + y;
      } else {
        DifferentialStep(c, f.book, g.ref, m);
        if Parts(c, f.book, m) {
          DifferWithin(f.events, x, [], y, []);
          assert f.events + x + [] == f.events + x && g.events + y + [] == g.events + y;
        }
      }
    }
    if !NeverParts(c, b, ms) { DifferentIsDiffer(Run(c, b, ms).events, RefRun(c, r, ms).events); }
  }

  lemma {:induction false} NothingRun(c: Config, b: Book, r: Ref)
    requires ValidConfig(c) && Sized(c, b)
    ensures NeverParts(c, b, []) && Run(c, b, []) == Outcome(b, []) && RefRun(c, r, []) == RefOutcome(r, [])
  {}

  // ---- in admission order --------------------------------------------------------------------

  lemma {:induction false} QueuedTakesTurns(c: Config, b: Book, m: Command)
    requires ValidConfig(c) && Sized(c, b) && Queued(b) && (m.orderType.Market? || ValidPrice(c, m.price))
    ensures TakesTurns(c, b, m)
  {
    hide Queued, InTurn;
    ReachFits(c, b, m);
    QueuedInTurn(b, Opposite(m.side), 0, Reach(c, m), m.quantity);
  }

  /** Where every FIFO is in admission order, only a misjudged preflight can part the books. */
  lemma {:induction false} QueuedParts(c: Config, b: Book, m: Command)
    requires Sound(c, b) && Queued(b)
    ensures Parts(c, b, m) <==> Diverges(c, b, m)
  {
    hide Queued, TakesTurns, Diverges, Resident, Admission;
    if m.orderType.Market? || ValidPrice(c, m.price) { QueuedTakesTurns(c, b, m); }
    if Resident(b, m.orderId) && ValidPrice(c, m.price) {
      var p := Locate(b, m.orderId);
      RemoveThins(b, p);
      ThinsQueued(Remove(b, p), b);
      QueuedTakesTurns(c, Remove(b, p), Replacement(m, p.side));
    }
  }

  /** So it is on every run from a dated book, until the sequence wraps. */
  lemma {:induction false} DatedParts(c: Config, b: Book, ms: seq<Command>)
    requires Sound(c, b) && ValidConfig(c) && Sized(c, b) && Dated(b) && b.last + |ms| < TWO64
    ensures NeverParts(c, b, ms) <==> NeverDiverges(c, b, ms)
  {
    hide Run, Sound, Sized, ValidConfig, Queued, Timely, Parts, Diverges;
    forall n | 0 <= n < |ms|
      ensures Parts(c, Run(c, b, ms[..n]).book, ms[n]) <==> Diverges(c, Run(c, b, ms[..n]).book, ms[n])
    {
      RunTheorem(c, b, ms[..n]);
      RunTimely(c, b, ms[..n]);
      QueuedParts(c, Run(c, b, ms[..n]).book, ms[n]);
    }
  }

  /**
   From a new book: the runs agree exactly when no command parts them, and short of 2^64 commands
   that is when none is misjudged.
   */
  lemma {:induction false} FreshDifferential(c: Config, ms: seq<Command>)
    requires ValidConfig(c)
    ensures Run(c, Empty(c), ms).events == RefRun(c, Ref([], 0), ms).events <==> NeverParts(c, Empty(c), ms)
    ensures NeverParts(c, Empty(c), ms) ==> Mirrors(c, Run(c, Empty(c), ms).book, RefRun(c, Ref([], 0), ms).ref)
    ensures |ms| < TWO64 ==> (NeverParts(c, Empty(c), ms) <==> NeverDiverges(c, Empty(c), ms))
  {
    hide Run, RefRun, Sound, NeverDiverges, NeverParts, Queued;
    EmptyIsSound(c);
    EmptyListing(c);
    DifferentialRun(c, Empty(c), Ref([], 0), ms);
    if |ms| < TWO64 { DatedParts(c, Empty(c), ms); }
  }

  // ---- when no total can wrap ----------------------------------------------------------------

  lemma {:induction false} NoWrapNeverDiverges(c: Config, b: Book, m: Command)
    requires ValidConfig(c) && Sized(c, b) && NoWrap(b.bids) && NoWrap(b.asks)
    ensures !Diverges(c, b, m)
  {
    if m.orderType.Market? || ValidPrice(c, m.price) {
      ShownIsTrue(Levels(b, Opposite(m.side)), Opposite(m.side), Reach(c, m));
    }
  }

  lemma {:induction false} TotalCapped(l: Level, most: u64)
    requires forall k | 0 <= k < |l| :: l[k].qty <= most
    ensures Total(l) <= most * |l|
  {
    if l != [] { TotalCapped(l[1..], most); }
  }

  lemma {:induction false} CappedNeverWraps(c: Config, b: Book, s: Side, most: u64)
    requires Sound(c, b) && Capped(b, most) && most * c.maximumOrders < TWO64
    ensures NoWrap(Levels(b, s))
  {
    hide Total, Positive, UniqueIds, CountTo;
    var ls := Levels(b, s);
    forall i | 0 <= i < |ls| ensures Total(ls[i]) < TWO64 {
      forall k | 0 <= k < |ls[i]| ensures ls[i][k].qty <= most { assert Holds(b, Place(s, i, k)); }
      CountCovers(ls, |ls|, i);
      LevelCapped(ls[i], most, c.maximumOrders);
    }
  }

  lemma {:induction false} LevelCapped(l: Level, most: u64, room: nat)
    requires (forall k | 0 <= k < |l| :: l[k].qty <= most) && |l| <= room && most * room < TWO64
    ensures Total(l) < TWO64
  {
    hide Total;
    TotalCapped(l, most);
    MulMono(|l|, room, most);
    assert most * |l| == |l| * most && most * room == room * most;
  }

  lemma {:induction false} RunCapped(c: Config, b: Book, ms: seq<Command>, most: u64)
    requires Sound(c, b) && ValidConfig(c) && Sized(c, b) && Capped(b, most)
    requires forall k | 0 <= k < |ms| :: ms[k].quantity <= most
    ensures Capped(Run(c, b, ms).book, most)
  {
    hide Ladder.Process, Sound, Capped, Sized, ValidConfig;
    if ms != [] {
      var front := ms[..|ms| - 1];
      RunCapped(c, b, front, most);
      RunTheorem(c, b, front);
      ProcessKeeps(c, Run(c, b, front).book, ms[|ms| - 1]);
    }
  }

  /**
   With every quantity capped so that a full book cannot reach 2^64 at one tick, as behind the
   gateway, the ladder and the linear-scan book answer every run identically.
   */
  lemma {:induction false} CappedRunsAgree(c: Config, ms: seq<Command>, most: u64)
    requires ValidConfig(c) && most * c.maximumOrders < TWO64 && |ms| < TWO64
    requires forall k | 0 <= k < |ms| :: ms[k].quantity <= most
    ensures Run(c, Empty(c), ms).events == RefRun(c, Ref([], 0), ms).events
    ensures Mirrors(c, Run(c, Empty(c), ms).book, RefRun(c, Ref([], 0), ms).ref)
  {
    hide Run, RefRun, Sound, Timely, Capped, Diverges, NoWrap;
    var b := Empty(c);
    EmptyIsSound(c);
    forall n | 0 <= n < |ms| ensures !Diverges(c, Run(c, b, ms[..n]).book, ms[n]) {
      var t := Run(c, b, ms[..n]).book;
      RunTheorem(c, b, ms[..n]);
      RunCapped(c, b, ms[..n], most);
      RunSized(c, b, ms[..n]);
      CappedNeverWraps(c, t, Buy, most);
      CappedNeverWraps(c, t, Sell, most);
      NoWrapNeverDiverges(c, t, ms[n]);
    }
    FreshDifferential(c, ms);
  }
}
