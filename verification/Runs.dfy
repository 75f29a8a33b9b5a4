/** Command-level guarantees and their consequences for whole runs. */
module Runs {
  import opened Types
  import opened Ladder
  import opened Matching
  import opened Invariants

  // ---- every command keeps the invariants ----------------------------------------------------

  lemma {:induction false} AdvanceKeeps(c: Config, b: Book, sequence: u64)
    requires Sound(c, b)
    ensures Sound(c, b.(last := sequence))
    ensures Uncrossed(b) ==> Uncrossed(b.(last := sequence))
    ensures Dated(b) && b.last < sequence ==> Dated(b.(last := sequence)) && Newest(b.(last := sequence), sequence)
    ensures Timely(b) && b.last < sequence ==> Timely(b.(last := sequence)) && Newest(b.(last := sequence), sequence)
    ensures forall most | Capped(b, most) :: Capped(b.(last := sequence), most)
    ensures forall id :: Resident(b.(last := sequence), id) <==> Resident(b, id)
  {
    var t := b.(last := sequence);
    assert forall p :: Holds(t, p) <==> Holds(b, p);
    assert forall p | Holds(t, p) :: OrderAt(t, p) == OrderAt(b, p);
    assert forall p, q :: Ahead(t, p, q) <==> Ahead(b, p, q);
    forall id ensures Resident(t, id) <==> Resident(b, id) {
      if Resident(b, id) { assert Holds(t, Locate(b, id)); }
      if Resident(t, id) { assert Holds(b, Locate(t, id)); }
    }
  }

  lemma {:induction false} SubmitKeeps(c: Config, b: Book, m: Command, replacement: bool)
    requires Sound(c, b) && (replacement ==> !Resident(b, m.orderId))
    ensures Sound(c, Submit(c, b, m, replacement).book)
    ensures Uncrossed(b) ==> Uncrossed(Submit(c, b, m, replacement).book)
    ensures Dated(b) && m.sequence <= b.last && Newest(b, m.sequence) ==> Dated(Submit(c, b, m, replacement).book)
    ensures Timely(b) && m.sequence <= b.last && Newest(b, m.sequence) ==> Timely(Submit(c, b, m, replacement).book)
    ensures forall most | Capped(b, most) && m.quantity <= most :: Capped(Submit(c, b, m, replacement).book, most)
  {
    if Admission(c, b, m, replacement) == NoReason {
      assert Admitted(c, b, m);
      ExecuteKeeps(c, b, m);
    }
  }

  lemma {:induction false} ReplaceKeeps(c: Config, b: Book, m: Command)
    requires Sound(c, b)
    ensures Sound(c, ReplaceOrder(c, b, m).book)
    ensures Uncrossed(b) ==> Uncrossed(ReplaceOrder(c, b, m).book)
    ensures Dated(b) && m.sequence <= b.last && Newest(b, m.sequence) ==> Dated(ReplaceOrder(c, b, m).book)
    ensures Timely(b) && m.sequence <= b.last && Newest(b, m.sequence) ==> Timely(ReplaceOrder(c, b, m).book)
    ensures forall most | Capped(b, most) && m.quantity <= most :: Capped(ReplaceOrder(c, b, m).book, most)
  {
    if Resident(b, m.orderId) && m.quantity > 0 && ValidPrice(c, m.price) {
      var p := Locate(b, m.orderId);
      CancelKeeps(c, b, p);
      RemoveThins(b, p);
      if Newest(b, m.sequence) { ThinsNewest(Remove(b, p), b, m.sequence); }
      SubmitKeeps(c, Remove(b, p), Replacement(m, p.side), true);
    }
  }

  lemma {:induction false} DispatchKeeps(c: Config, b: Book, m: Command)
    requires Sound(c, b)
    ensures Sound(c, Dispatch(c, b, m).book)
    ensures Uncrossed(b) ==> Uncrossed(Dispatch(c, b, m).book)
    ensures Dated(b) && m.sequence <= b.last && Newest(b, m.sequence) ==> Dated(Dispatch(c, b, m).book)
    ensures Timely(b) && m.sequence <= b.last && Newest(b, m.sequence) ==> Timely(Dispatch(c, b, m).book)
    ensures forall most | Capped(b, most) && m.quantity <= most :: Capped(Dispatch(c, b, m).book, most)
  {
    match m.kind
    case New => SubmitKeeps(c, b, m, false);
    case Cancel => if Resident(b, m.orderId) { CancelKeeps(c, b, Locate(b, m.orderId)); }
    case Replace => ReplaceKeeps(c, b, m);
  }

  /** One command keeps the book sound, and uncrossed; priorities stay in order while sequences do not wrap. */
  lemma {:induction false} ProcessKeeps(c: Config, b: Book, m: Command)
    requires Sound(c, b)
    ensures Sound(c, Process(c, b, m).book)
    ensures Uncrossed(b) ==> Uncrossed(Process(c, b, m).book)
    ensures Dated(b) && b.last + 1 < TWO64 ==> Dated(Process(c, b, m).book)
    ensures Timely(b) && b.last + 1 < TWO64 ==> Timely(Process(c, b, m).book)
    ensures forall most | Capped(b, most) && m.quantity <= most :: Capped(Process(c, b, m).book, most)
  {
    hide Dispatch, Sound, Uncrossed, Dated, Timely, Capped;
    if m.sequence == Next(b.last) {
      AdvanceKeeps(c, b, m.sequence);
      DispatchKeeps(c, b.(last := m.sequence), m);
    }
  }

  // ---- the shape of a response ---------------------------------------------------------------

  predicate AllTrades(es: seq<Event>) {
    forall k | 0 <= k < |es| :: es[k].kind == Trade
  }

  /** Trade* (Rested | Cancelled)? */
  predicate ExecutionShape(es: seq<Event>) {
    AllTrades(es)
    || (|es| > 0 && AllTrades(es[..|es| - 1]) && (es[|es| - 1].kind == Rested || es[|es| - 1].kind == Cancelled))
  }

  /** Rejected | Cancelled | (Accepted | Replaced) Trade* (Rested | Cancelled)? */
  predicate ResponseShape(es: seq<Event>) {
    |es| > 0 &&
    match es[0].kind
    case Rejected => |es| == 1
    case Cancelled => |es| == 1
    case Accepted => ExecutionShape(es[1..])
    case Replaced => ExecutionShape(es[1..])
    case _ => false
  }

  /** Every event names the command, and gives a reason just when it rejects, and then nothing else. */
  predicate AboutCommand(es: seq<Event>, m: Command) {
    forall k | 0 <= k < |es| ::
      && es[k].sequence == m.sequence && es[k].orderId == m.orderId
      && (es[k].kind == Rejected <==> es[k].reason != NoReason)
      && (es[k].kind == Rejected ==> es[k].contra == 0 && es[k].price == 0 && es[k].quantity == 0)
  }

  lemma {:induction false} ExecuteShape(c: Config, b: Book, m: Command)
    requires ValidConfig(c) && Sized(c, b) && (m.orderType.Market? || ValidPrice(c, m.price))
    ensures ExecutionShape(Execute(c, b, m).events) && AboutCommand(Execute(c, b, m).events, m)
    ensures Execute(c, b, m).book.last == b.last
  {
    var opp := Opposite(m.side);
    var w := Sweep(Levels(b, opp), opp, 0, Reach(c, m), m.quantity);
    var trades := Trades(c, m, w.fills);
    assert AllTrades(trades);
    var es := Execute(c, b, m).events;
    if w.left > 0 { assert es[..|es| - 1] == trades; }
  }

  lemma {:induction false} SubmitShape(c: Config, b: Book, m: Command, replacement: bool)
    requires ValidConfig(c) && Sized(c, b)
    ensures var x := Submit(c, b, m, replacement);
            && AboutCommand(x.events, m) && x.book.last == b.last
            && (if Admission(c, b, m, replacement) != NoReason then
                  x.book == b && x.events == [Reject(m, Admission(c, b, m, replacement))]
                else if replacement then ExecutionShape(x.events)
                else ResponseShape(x.events) && x.events[0].kind == Accepted)
  {
    if Admission(c, b, m, replacement) == NoReason {
      ExecuteShape(c, b, m);
      var es := Execute(c, b, m).events;
      assert ([Emit(Accepted, m, 0, 0, 0, NoReason)] + es)[1..] == es;
      assert [] + es == es;
    }
  }

  /** A replacement that passed its checks is never turned away: one node has just been freed. */
  lemma {:induction false} ReplacementAdmitted(c: Config, b: Book, p: Place, m: Command)
    requires Sound(c, b) && Holds(b, p) && m.quantity > 0 && ValidPrice(c, m.price)
    ensures Admission(c, Remove(b, p), Replacement(m, p.side), true) == NoReason
  {
    RemoveCount(b, p);
  }

  lemma {:induction false} ReplaceShape(c: Config, b: Book, m: Command)
    requires Sound(c, b)
    ensures var x := ReplaceOrder(c, b, m);
            && ResponseShape(x.events) && AboutCommand(x.events, m) && x.book.last == b.last
            && (if Resident(b, m.orderId) && m.quantity > 0 && ValidPrice(c, m.price)
                then x.events[0].kind == Replaced && x.events[0].reason == NoReason
                else x.events[0].kind == Rejected && x.book == b && x.events[0].reason != SequenceGap)
  {
    if Resident(b, m.orderId) && m.quantity > 0 && ValidPrice(c, m.price) {
      var p := Locate(b, m.orderId);
      var r := Replacement(m, p.side);
      ReplacementAdmitted(c, b, p, m);
      SubmitShape(c, Remove(b, p), r, true);
      var x := Submit(c, Remove(b, p), r, true);
      assert ([Emit(Replaced, r, 0, r.price, r.quantity, NoReason)] + x.events)[1..] == x.events;
    }
  }

  lemma {:induction false} DispatchShape(c: Config, b: Book, m: Command)
    requires Sound(c, b)
    ensures var x := Dispatch(c, b, m);
            && ResponseShape(x.events) && AboutCommand(x.events, m) && x.book.last == b.last
            && (x.events[0].kind == Rejected ==> x.book == b) && x.events[0].reason != SequenceGap
            && (m.kind.Replace? ==>
                  (x.events[0].kind == Replaced
                   <==> Resident(b, m.orderId) && m.quantity > 0 && ValidPrice(c, m.price)))
  {
    match m.kind
    case New => SubmitShape(c, b, m, false);
    case Cancel =>
    case Replace => ReplaceShape(c, b, m);
  }

  /**
   Every response has the documented shape. A rejection touches no resting order, and only a
   sequence gap fails to consume the sequence; a replace of a resident order with a valid price
   and quantity is answered Replaced, never Rejected.
   */
  lemma {:induction false} ResponseTheorem(c: Config, b: Book, m: Command)
    requires Sound(c, b)
    ensures var x := Process(c, b, m);
            && ResponseShape(x.events) && AboutCommand(x.events, m)
            && (x.events[0].kind == Rejected ==> x.book.bids == b.bids && x.book.asks == b.asks)
            && x.book.last == (if m.sequence == Next(b.last) then m.sequence else b.last)
            && (m.sequence != Next(b.last) <==> x.events[0].reason == SequenceGap)
            && (m.sequence == Next(b.last) && m.kind.Replace? ==>
                  (x.events[0].kind == Replaced
                   <==> Resident(b, m.orderId) && m.quantity > 0 && ValidPrice(c, m.price)))
  {
    hide Dispatch, Positive, UniqueIds, Resting, Resident, ResponseShape, AboutCommand;
    if m.sequence == Next(b.last) {
      AdvanceKeeps(c, b, m.sequence);
      DispatchShape(c, b.(last := m.sequence), m);
    } else {
      GapShape(c, b, m);
    }
  }

  lemma {:induction false} GapShape(c: Config, b: Book, m: Command)
    requires ValidConfig(c) && Sized(c, b) && m.sequence != Next(b.last)
    ensures Process(c, b, m).book == b && Process(c, b, m).events == [Reject(m, SequenceGap)]
    ensures ResponseShape(Process(c, b, m).events) && AboutCommand(Process(c, b, m).events, m)
  {
    hide Dispatch;
  }

  // ---- conservation and priority of one execution --------------------------------------------

  function Traded(es: seq<Event>): nat {
    if es == [] then 0 else (if es[0].kind == Trade then es[0].quantity else 0) + Traded(es[1..])
  }

  lemma {:induction false} TradesCons(c: Config, m: Command, f: Fill, fills: seq<Fill>)
    requires ValidConfig(c) && f.index < PriceCount(c)
    requires forall k | 0 <= k < |fills| :: fills[k].index < PriceCount(c)
    ensures Trades(c, m, [f] + fills)
            == [Emit(Trade, m, f.id, IndexPrice(c, f.index), f.qty, NoReason)] + Trades(c, m, fills)
  {}

  lemma {:induction false} TradedConcat(a: seq<Event>, b: seq<Event>)
    ensures Traded(a + b) == Traded(a) + Traded(b)
  {
    if a == [] { assert a + b == b; } else {
      assert (a + b)[1..] == a[1..] + b;
      TradedConcat(a[1..], b);
    }
  }

  lemma {:induction false} TradedFills(c: Config, m: Command, fills: seq<Fill>)
    requires ValidConfig(c) && forall k | 0 <= k < |fills| :: fills[k].index < PriceCount(c)
    ensures Traded(Trades(c, m, fills)) == Sum(fills)
  {
    if fills != [] {
      assert Trades(c, m, fills)[1..] == Trades(c, m, fills[1..]);
      TradedFills(c, m, fills[1..]);
    }
  }

  /** The order may trade at the price: any price for a market order, else one no worse than its own. */
  predicate Within(m: Command, p: Price) {
    m.orderType.Market? || (if m.side.Buy? then p <= m.price else p >= m.price)
  }

  predicate NoBetterThan(s: Side, later: Price, earlier: Price) {
    if s.Buy? then earlier <= later else earlier >= later
  }

  lemma {:induction false} WithinReach(c: Config, m: Command, i: nat)
    requires ValidConfig(c) && (m.orderType.Market? || ValidPrice(c, m.price)) && i < PriceCount(c)
    ensures Slot(Opposite(m.side), i, PriceCount(c)) < Reach(c, m) <==> Within(m, IndexPrice(c, i))
  {
    LimitIsValid(c, m);
    IndexOfPrice(c, EffectiveLimit(c, m));
    IndexPriceInRange(c, i);
    IndexPriceOrder(c, i, PriceIndex(c, EffectiveLimit(c, m)));
  }

  /** Trades of the front of a ranked queue are within the limit and in price order. */
  lemma {:induction false} TradesReport(c: Config, m: Command, queue: seq<Fill>, fills: seq<Fill>)
    requires ValidConfig(c) && (m.orderType.Market? || ValidPrice(c, m.price))
    requires RankedWithin(queue, Opposite(m.side), PriceCount(c), 0, Reach(c, m))
    requires |fills| <= |queue| && forall k | 0 <= k < |fills| :: fills[k].index == queue[k].index < PriceCount(c)
    ensures var es := Trades(c, m, fills);
            && (forall k | 0 <= k < |es| :: Within(m, es[k].price))
            && (forall j, k | 0 <= j < k < |es| :: NoBetterThan(m.side, es[k].price, es[j].price))
  {
    hide Reach;
    var es := Trades(c, m, fills);
    forall k | 0 <= k < |es| ensures Within(m, es[k].price) {
      WithinReach(c, m, queue[k].index);
    }
    forall j, k | 0 <= j < k < |es| ensures NoBetterThan(m.side, es[k].price, es[j].price) {
      IndexPriceOrder(c, queue[j].index, queue[k].index);
    }
  }

  /** The offers an aggressor can reach, in price-then-FIFO order. */
  function Reachable(c: Config, b: Book, m: Command): seq<Fill>
    requires ValidConfig(c) && Sized(c, b) && (m.orderType.Market? || ValidPrice(c, m.price))
  {
    Queue(Levels(b, Opposite(m.side)), Opposite(m.side), 0, Reach(c, m))
  }

  lemma {:induction false} ReachableRanked(c: Config, b: Book, m: Command)
    requires ValidConfig(c) && Sized(c, b) && (m.orderType.Market? || ValidPrice(c, m.price))
    ensures RankedWithin(Reachable(c, b, m), Opposite(m.side), PriceCount(c), 0, Reach(c, m))
    ensures |Take(Reachable(c, b, m), m.quantity)| <= |Reachable(c, b, m)|
    ensures forall k | 0 <= k < |Take(Reachable(c, b, m), m.quantity)| ::
              Take(Reachable(c, b, m), m.quantity)[k].index == Reachable(c, b, m)[k].index < PriceCount(c)
  {
    QueueRanks(Levels(b, Opposite(m.side)), Opposite(m.side), 0, Reach(c, m));
    TakeIsPrefix(Reachable(c, b, m), m.quantity);
  }

  /** Trades, then a remainder exactly when the reachable depth falls short, adding up to the quantity. */
  lemma {:induction false} ExecutionTotals(c: Config, b: Book, m: Command)
    requires ValidConfig(c) && Sized(c, b) && (m.orderType.Market? || ValidPrice(c, m.price))
    ensures var es := Execute(c, b, m).events;
            var queue := Reachable(c, b, m);
            var fills := Take(queue, m.quantity);
            && (forall k | 0 <= k < |fills| :: fills[k].index < PriceCount(c))
            && (if Sum(queue) >= m.quantity then
                  es == Trades(c, m, fills) && Traded(es) == m.quantity
                else
                  && |es| == |fills| + 1 && es[..|fills|] == Trades(c, m, fills)
                  && es[|fills|].kind == (if m.orderType.Limit? then Rested else Cancelled)
                  && Traded(es) + es[|fills|].quantity == m.quantity)
  {
    var opp := Opposite(m.side);
    var w := Sweep(Levels(b, opp), opp, 0, Reach(c, m), m.quantity);
    PriceTimePriority(Levels(b, opp), opp, Reach(c, m), m.quantity);
    QueueSum(Levels(b, opp), opp, 0, Reach(c, m));
    TradedFills(c, m, w.fills);
    var es, trades := Execute(c, b, m).events, Trades(c, m, w.fills);
    if w.left > 0 {
      var e := es[|trades|];
      TradedConcat(trades, [e]);
      assert Traded([e]) == 0 by { assert [e][1..] == []; }
      assert es == trades + [e] && es[..|trades|] == trades;
    }
  }

  /**
   Fill-or-kill, and a limit order on a full book: either turned away with the book untouched, or
   filled whole with nothing left to rest or to cancel. Level totals may have wrapped.
   */
  lemma {:induction false} AllOrNothing(c: Config, b: Book, m: Command, replacement: bool)
    requires ValidConfig(c) && Sized(c, b)
    requires m.orderType.FillOrKill? || (m.orderType.Limit? && Resting(b) == c.maximumOrders)
    ensures var x := Submit(c, b, m, replacement);
            var trades := if replacement || x.events == [] then x.events else x.events[1..];
            || (x.book == b && |x.events| == 1 && x.events[0].kind == Rejected)
            || (AllTrades(trades) && Traded(trades) == m.quantity > 0)
  {
    hide Resident, Resting, Reach, Traded, Sweep;
    if Admission(c, b, m, replacement) == NoReason {
      var opp := Opposite(m.side);
      var x, es := Submit(c, b, m, replacement), Execute(c, b, m).events;
      ReachFits(c, b, m);
      Preflight(Levels(b, opp), opp, Reach(c, m), m.quantity);
      FilledWhole(c, b, m);
      assert [Emit(Accepted, m, 0, 0, 0, NoReason)] + es != []
             && ([Emit(Accepted, m, 0, 0, 0, NoReason)] + es)[1..] == es;
      assert [] + es == es;
    }
  }

  lemma {:induction false} ReachFits(c: Config, b: Book, m: Command)
    requires ValidConfig(c) && Sized(c, b) && (m.orderType.Market? || ValidPrice(c, m.price))
    ensures Reach(c, m) <= |Levels(b, Opposite(m.side))|
  {}

  lemma {:induction false} FilledWhole(c: Config, b: Book, m: Command)
    requires ValidConfig(c) && Sized(c, b) && (m.orderType.Market? || ValidPrice(c, m.price)) && m.quantity > 0
    requires var opp := Opposite(m.side); Sweep(Levels(b, opp), opp, 0, Reach(c, m), m.quantity).left == 0
    ensures var x := Execute(c, b, m);
            AllTrades(x.events) && Traded(x.events) == m.quantity
  {
    hide Reach, IndexPrice;
    var opp := Opposite(m.side);
    ReachFits(c, b, m);
    var w := Sweep(Levels(b, opp), opp, 0, Reach(c, m), m.quantity);
    PriceTimePriority(Levels(b, opp), opp, Reach(c, m), m.quantity);
    TradedFills(c, m, w.fills);
  }

  /**
   An execution's report: its trades are the front of the opposite side's price-then-FIFO queue, at
   the resting prices, none beyond the limit and never at a better price than an earlier one, all
   but the last consuming the resting order whole; trades and remainder add up to the submitted
   quantity, and there is a remainder exactly when the queue falls short.
   */
  predicate Reports(c: Config, b: Book, m: Command, es: seq<Event>)
    requires ValidConfig(c) && Sized(c, b) && (m.orderType.Market? || ValidPrice(c, m.price))
  {
    var queue := Reachable(c, b, m);
    var n := |Take(queue, m.quantity)|;
    && n <= |es| <= n + 1 && n <= |queue|
    && (forall k | 0 <= k < n ::
          && es[k].kind == Trade && es[k].contra == queue[k].id && queue[k].index < PriceCount(c)
          && es[k].price == IndexPrice(c, queue[k].index) && Within(m, es[k].price)
          && es[k].quantity <= queue[k].qty && (k < n - 1 ==> es[k].quantity == queue[k].qty))
    && (forall j, k | 0 <= j < k < n :: NoBetterThan(m.side, es[k].price, es[j].price))
    && Traded(es) + (if |es| == n then 0 else es[n].quantity) == m.quantity
    && (|es| == n + 1 <==> Sum(queue) < m.quantity)
    && (|es| == n + 1 ==> es[n].kind == if m.orderType.Limit? then Rested else Cancelled)
  }

  lemma {:induction false} ExecutionReport(c: Config, b: Book, m: Command)
    requires ValidConfig(c) && Sized(c, b) && (m.orderType.Market? || ValidPrice(c, m.price))
    ensures Reports(c, b, m, Execute(c, b, m).events)
  {
    var queue := Reachable(c, b, m);
    var fills := Take(queue, m.quantity);
    ExecutionTotals(c, b, m);
    ReachableRanked(c, b, m);
    TradesReport(c, m, queue, fills);
    TakeIsPrefix(queue, m.quantity);
    var es, trades := Execute(c, b, m).events, Trades(c, m, fills);
    assert forall k | 0 <= k < |fills| :: es[k] == trades[k];
  }

  /** A report is about the levels; the last sequence has no part in it. */
  lemma {:induction false} ReportsLevels(c: Config, b: Book, last: u64, m: Command, es: seq<Event>)
    requires ValidConfig(c) && Sized(c, b) && (m.orderType.Market? || ValidPrice(c, m.price))
    ensures Sized(c, b.(last := last)) && (Reports(c, b.(last := last), m, es) <==> Reports(c, b, m, es))
  {
    assert Reachable(c, b.(last := last), m) == Reachable(c, b, m);
  }

  lemma {:induction false} LocateKept(b: Book, last: u64, id: u64)
    requires UniqueIds(b) && Resident(b, id)
    ensures Resident(b.(last := last), id) && Locate(b.(last := last), id) == Locate(b, id)
  {
    var t := b.(last := last);
    assert Holds(t, Locate(b, id)) && OrderAt(t, Locate(b, id)).id == id;
    assert Holds(b, Locate(t, id)) && OrderAt(b, Locate(t, id)).id == id;
  }

  /**
   Every command that trades: what follows the leading Accepted reports the execution of the order
   on the book as it was, and what follows Replaced that of the replacement on the book without the
   original order.
   */
  lemma {:induction false} ProcessReport(c: Config, b: Book, m: Command)
    requires Sound(c, b)
    ensures var es := Process(c, b, m).events;
            && es != []
            && (es[0].kind == Accepted ==>
                  && m.kind.New? && (m.orderType.Market? || ValidPrice(c, m.price))
                  && Reports(c, b, m, es[1..]))
            && (es[0].kind == Replaced ==>
                  && m.kind.Replace? && Resident(b, m.orderId) && ValidPrice(c, m.price)
                  && es[0].price == m.price && es[0].quantity == m.quantity && es[0].side == Locate(b, m.orderId).side
                  && Reports(c, Remove(b, Locate(b, m.orderId)),
                             m.(side := Locate(b, m.orderId).side, orderType := Limit), es[1..]))
  {
    hide Reports, Execute, Resting, Reach, ShownDepth;
    if m.sequence == Next(b.last) {
      AdvanceKeeps(c, b, m.sequence);
      match m.kind
      case New => NewReport(c, b, m);
      case Cancel =>
      case Replace => ReplaceReport(c, b, m);
    }
  }

  lemma {:induction false} NewReport(c: Config, b: Book, m: Command)
    requires Sound(c, b) && m.kind.New?
    ensures var t := b.(last := m.sequence);
            var es := Submit(c, t, m, false).events;
            es != [] && es[0].kind != Replaced
            && (es[0].kind == Accepted ==> (m.orderType.Market? || ValidPrice(c, m.price)) && Reports(c, b, m, es[1..]))
  {
    hide Reports, Execute, Resting, Reach, ShownDepth, Resident;
    var t := b.(last := m.sequence);
    if Admission(c, t, m, false) == NoReason {
      ExecutionReport(c, t, m);
      var es := Execute(c, t, m).events;
      ReportsLevels(c, b, m.sequence, m, es);
      assert ([Emit(Accepted, m, 0, 0, 0, NoReason)] + es)[1..] == es;
    }
  }

  lemma {:induction false} ReplaceReport(c: Config, b: Book, m: Command)
    requires Sound(c, b) && m.kind.Replace?
    ensures var t := b.(last := m.sequence);
            var es := ReplaceOrder(c, t, m).events;
            && es != [] && es[0].kind != Accepted
            && (es[0].kind == Replaced ==>
                  && Resident(b, m.orderId) && ValidPrice(c, m.price)
                  && es[0].price == m.price && es[0].quantity == m.quantity && es[0].side == Locate(b, m.orderId).side
                  && Reports(c, Remove(b, Locate(b, m.orderId)),
                             m.(side := Locate(b, m.orderId).side, orderType := Limit), es[1..]))
  {
    hide Reports, Execute, Reach, ShownDepth, Positive, UniqueIds, Resident, Resting;
    var t := b.(last := m.sequence);
    AdvanceKeeps(c, b, m.sequence);
    if Resident(t, m.orderId) && m.quantity > 0 && ValidPrice(c, m.price) {
      LocateKept(b, m.sequence, m.orderId);
      var p := Locate(b, m.orderId);
      var r := Replacement(m, p.side);
      ReplacementAdmitted(c, t, p, m);
      ExecutionReport(c, Remove(t, p), r);
      var es := Execute(c, Remove(t, p), r).events;
      ReportsLevels(c, Remove(b, p), m.sequence, r, es);
      assert Remove(t, p) == Remove(b, p).(last := m.sequence);
      assert [] + es == es;
      assert ([Emit(Replaced, r, 0, r.price, r.quantity, NoReason)] + es)[1..] == es;
    }
  }

  // ---- whole runs ----------------------------------------------------------------------------

  function CountKind(es: seq<Event>, kind: EventType): nat {
    if es == [] then 0 else CountKind(es[..|es| - 1], kind) + (if es[|es| - 1].kind == kind then 1 else 0)
  }

  lemma {:induction false} CountKindConcat(a: seq<Event>, b: seq<Event>, kind: EventType)
    ensures CountKind(a + b, kind) == CountKind(a, kind) + CountKind(b, kind)
  {
    if b == [] { assert a + b == a; } else {
      assert (a + b)[..|a + b| - 1] == a + b[..|b| - 1];
      CountKindConcat(a, b[..|b| - 1], kind);
    }
  }

  lemma {:induction false} CountAllTrades(es: seq<Event>)
    requires AllTrades(es)
    ensures CountKind(es, Trade) == |es|
  {
    if es != [] { CountAllTrades(es[..|es| - 1]); }
  }

  lemma {:induction false} CountOneMore(es: seq<Event>, e: Event)
    ensures CountKind(es + [e], Trade) == CountKind(es, Trade) + (if e.kind == Trade then 1 else 0)
  {
    assert (es + [e])[..|es|] == es;
  }

  /** How many of the commands came with the next sequence: the engine's `commands` counter. */
  ghost function Sequenced(c: Config, b: Book, ms: seq<Command>): (n: nat)
    requires ValidConfig(c) && Sized(c, b)
    ensures n <= |ms|
  {
    if ms == [] then 0
    else
      var front := ms[..|ms| - 1];
      Sequenced(c, b, front) + (if ms[|ms| - 1].sequence == Next(Run(c, b, front).book.last) then 1 else 0)
  }

  lemma {:induction false} ExecuteAmortised(c: Config, b: Book, m: Command)
    requires Sound(c, b) && (m.orderType.Market? || ValidPrice(c, m.price))
    ensures CountKind(Execute(c, b, m).events, Trade) + Resting(Execute(c, b, m).book) <= Resting(b) + 1
  {
    hide UniqueIds, Positive, Sweep, Reach, ValidPrice, PriceIndex, IndexPrice, CountTo, CountKind, Append, Extends;
    var opp := Opposite(m.side);
    var w := Sweep(Levels(b, opp), opp, 0, Reach(c, m), m.quantity);
    var trades := Trades(c, m, w.fills);
    PositiveLevels(b, opp);
    SweepCount(Levels(b, opp), opp, 0, Reach(c, m), m.quantity);
    CountAllTrades(trades);
    if w.left > 0 {
      if m.orderType.Limit? {
        CountOneMore(trades, Emit(Rested, m, 0, m.price, w.left, NoReason));
        IndexOfPrice(c, m.price);
        AppendExtends(WithLevels(b, opp, w.levels), m.side, PriceIndex(c, m.price),
                      Order(m.orderId, w.left, m.sequence));
      } else {
        CountOneMore(trades, Emit(Cancelled, m, 0, m.price, w.left, NoReason));
      }
    }
  }

  lemma {:induction false} SubmitAmortised(c: Config, b: Book, m: Command, replacement: bool)
    requires Sound(c, b)
    ensures var x := Submit(c, b, m, replacement);
            CountKind(x.events, Trade) + Resting(x.book) <= Resting(b) + 1
  {
    if Admission(c, b, m, replacement) == NoReason {
      ExecuteAmortised(c, b, m);
      var es := Execute(c, b, m).events;
      assert [] + es == es;
      CountKindConcat([Emit(Accepted, m, 0, 0, 0, NoReason)], es, Trade);
      assert CountKind([Emit(Accepted, m, 0, 0, 0, NoReason)], Trade) == 0;
    } else {
      assert CountKind([Reject(m, Admission(c, b, m, replacement))], Trade) == 0;
    }
  }

  /** One command adds at most one to trades plus resting orders. */
  lemma {:induction false} DispatchAmortised(c: Config, b: Book, m: Command)
    requires Sound(c, b)
    ensures var x := Dispatch(c, b, m);
            CountKind(x.events, Trade) + Resting(x.book) <= Resting(b) + 1
  {
    match m.kind
    case New => SubmitAmortised(c, b, m, false);
    case Cancel =>
      if Resident(b, m.orderId) { RemoveCount(b, Locate(b, m.orderId)); }
      assert CountKind([CancelOrder(c, b, m).events[0]], Trade) == 0;
    case Replace =>
      if Resident(b, m.orderId) && m.quantity > 0 && ValidPrice(c, m.price) {
        var p := Locate(b, m.orderId);
        var r := Replacement(m, p.side);
        CancelKeeps(c, b, p);
        RemoveCount(b, p);
        SubmitAmortised(c, Remove(b, p), r, true);
        var e := Emit(Replaced, r, 0, r.price, r.quantity, NoReason);
        CountKindConcat([e], Submit(c, Remove(b, p), r, true).events, Trade);
        assert CountKind([e], Trade) == 0;
      } else {
        assert CountKind([ReplaceOrder(c, b, m).events[0]], Trade) == 0;
      }
  }

  lemma {:induction false} ProcessAmortised(c: Config, b: Book, m: Command)
    requires Sound(c, b)
    ensures var x := Process(c, b, m);
            CountKind(x.events, Trade) + Resting(x.book)
            <= Resting(b) + (if m.sequence == Next(b.last) then 1 else 0)
  {
    hide Dispatch, Sound;
    if m.sequence == Next(b.last) {
      AdvanceKeeps(c, b, m.sequence);
      DispatchAmortised(c, b.(last := m.sequence), m);
    } else {
      assert CountKind([Reject(m, SequenceGap)], Trade) == 0;
    }
  }

  /**
   Every run keeps the book sound, and uncrossed if it was; it never trades or holds more than the
   commands it was given plus what it started with.
   */
  lemma {:induction false} RunTheorem(c: Config, b: Book, ms: seq<Command>)
    requires Sound(c, b)
    ensures var o := Run(c, b, ms);
            && Sound(c, o.book) && (Uncrossed(b) ==> Uncrossed(o.book))
            && CountKind(o.events, Trade) + Resting(o.book) <= Sequenced(c, b, ms) + Resting(b)
  {
    if ms == [] {
      assert CountKind([], Trade) == 0 by { NoneOfKind(Trade); }
    } else {
      var front, m := ms[..|ms| - 1], ms[|ms| - 1];
      RunTheorem(c, b, front);
      var f := Run(c, b, front);
      ProcessKeeps(c, f.book, m);
      ProcessAmortised(c, f.book, m);
      CountKindConcat(f.events, Process(c, f.book, m).events, Trade);
    }
  }

  lemma {:induction false} ProcessLast(c: Config, b: Book, m: Command)
    requires Sound(c, b)
    ensures Process(c, b, m).book.last == if m.sequence == Next(b.last) then Next(b.last) else b.last
  {
    hide Process, ResponseShape, AboutCommand, Sound, ValidPrice, Resident;
    ResponseTheorem(c, b, m);
  }

  lemma {:induction false} SequencedStep(c: Config, b: Book, ms: seq<Command>)
    requires ValidConfig(c) && Sized(c, b) && ms != []
    ensures var front := ms[..|ms| - 1];
            var f := Run(c, b, front).book;
            && Run(c, b, ms).book == Process(c, f, ms[|ms| - 1]).book
            && Sequenced(c, b, ms) == Sequenced(c, b, front) + (if ms[|ms| - 1].sequence == Next(f.last) then 1 else 0)
  {
    hide Process, PriceCount, Sized;
  }

  /** The last sequence counts the sequenced commands, modulo 2^64 (AdvanceWraps). */
  lemma {:induction false} RunSequence(c: Config, b: Book, ms: seq<Command>)
    requires Sound(c, b) && ValidConfig(c) && Sized(c, b)
    ensures Run(c, b, ms).book.last == Advance(b.last, Sequenced(c, b, ms))
  {
    hide Sound, Process, Sized, ValidConfig, Next;
    if ms != [] {
      var front, m := ms[..|ms| - 1], ms[|ms| - 1];
      RunSequence(c, b, front);
      RunTheorem(c, b, front);
      ProcessLast(c, Run(c, b, front).book, m);
      SequencedStep(c, b, ms);
    }
  }

  /** Short of a sequence wrap, every FIFO stays in admission order. */
  lemma {:induction false} RunTimely(c: Config, b: Book, ms: seq<Command>)
    requires Sound(c, b) && ValidConfig(c) && Sized(c, b) && b.last + |ms| < TWO64
    ensures Dated(b) ==> Dated(Run(c, b, ms).book)
    ensures Timely(b) ==> Timely(Run(c, b, ms).book)
    ensures Run(c, b, ms).book.last == b.last + Sequenced(c, b, ms)
  {
    hide Sound, Process, Sized, ValidConfig, Next, Dated, Timely, Uncrossed;
    RunSequence(c, b, ms);
    AdvanceWraps(b.last, Sequenced(c, b, ms));
    if ms != [] {
      var front, m := ms[..|ms| - 1], ms[|ms| - 1];
      RunTimely(c, b, front);
      RunTheorem(c, b, front);
      ProcessKeeps(c, Run(c, b, front).book, m);
    }
  }

  lemma {:induction false} RunSized(c: Config, b: Book, ms: seq<Command>)
    requires ValidConfig(c) && Sized(c, b)
    ensures Sized(c, Run(c, b, ms).book)
  {}

  lemma {:induction false} NoneOfKind(kind: EventType)
    ensures CountKind([], kind) == 0
  {}

  lemma {:induction false} EmptyIsSound(c: Config)
    requires ValidConfig(c)
    ensures Sound(c, Empty(c)) && Uncrossed(Empty(c)) && Timely(Empty(c)) && Resting(Empty(c)) == 0
    ensures forall most :: Capped(Empty(c), most)
    ensures forall id :: !Resident(Empty(c), id)
  {
    CountNone(Empty(c).bids, PriceCount(c));
    assert forall p :: !Holds(Empty(c), p);
  }

  /** From a fresh book: sound, uncrossed, and trades plus resting orders bounded by commands. */
  lemma {:induction false} FreshRun(c: Config, ms: seq<Command>)
    requires ValidConfig(c)
    ensures var o := Run(c, Empty(c), ms);
            && Sound(c, o.book) && Uncrossed(o.book)
            && CountKind(o.events, Trade) + Resting(o.book) <= Sequenced(c, Empty(c), ms)
            && (|ms| < TWO64 ==> Timely(o.book) && o.book.last == Sequenced(c, Empty(c), ms))
  {
    EmptyIsSound(c);
    RunTheorem(c, Empty(c), ms);
    if |ms| < TWO64 { RunTimely(c, Empty(c), ms); }
  }
}
