/**
 What a command is answered and what it leaves behind, in the book's own terms: ticks, prices and
 queues, one trade at a time. Process satisfies this description, and nothing else does.
 */
module Answers {
  import opened Types
  import opened Ladder
  import opened Matching
  import opened Invariants
  import opened Runs

  function PriceAt(c: Config, i: int): int {
    c.minimumPrice + i * c.tickSize
  }

  /** The order may trade at tick i: any tick for a market order, else one no worse than its price. */
  predicate Tolerates(c: Config, o: Command, i: int) {
    o.orderType.Market? || (if o.side.Buy? then PriceAt(c, i) <= o.price else PriceAt(c, i) >= o.price)
  }

  /** The nonempty tick an aggressor on `side` meets first. */
  predicate Foremost(ls: seq<Level>, side: Side, i: int) {
    && 0 <= i < |ls| && ls[i] != []
    && forall j | 0 <= j < |ls| && ls[j] != [] :: if side.Buy? then i <= j else j <= i
  }

  predicate Meets(c: Config, o: Command, ls: seq<Level>, i: int) {
    Foremost(ls, o.side, i) && Tolerates(c, o, i)
  }

  /** The event speaks of the order and gives no reason. */
  predicate Says(e: Event, kind: EventType, o: Command, contra: int, price: int, quantity: int) {
    && e.sequence == o.sequence && e.kind == kind && e.side == o.side && e.reason == NoReason
    && e.orderId == o.orderId && e.contra == contra && e.price == price && e.quantity == quantity
  }

  /** The remainder goes to the back of the queue at the order's own price. */
  predicate Rests(c: Config, o: Command, q: int, own: seq<Level>, i: int, own': seq<Level>) {
    && 0 <= i < |own| && PriceAt(c, i) == o.price && 0 < q < 0x1_0000_0000_0000_0000
    && own' == own[i := own[i] + [Order(o.orderId, q, o.sequence)]]
  }

  ghost predicate Ends(c: Config, o: Command, q: int, own: seq<Level>, es: seq<Event>, own': seq<Level>) {
    && |es| == 1
    && if o.orderType.Limit? then Says(es[0], Rested, o, 0, o.price, q) && exists i :: Rests(c, o, q, own, i, own')
       else Says(es[0], Cancelled, o, 0, o.price, q) && own' == own
  }

  /** One trade: the head of the tick gives what it has or what is wanted. */
  function Give(l: Level, q: nat): (t: nat)
    requires l != []
  {
    if q < l[0].qty then q else l[0].qty
  }

  function Behind(l: Level, q: nat): Level
    requires l != []
  {
    if q < l[0].qty then [Order(l[0].id, l[0].qty - q, l[0].priority)] + l[1..] else l[1..]
  }

  /**
   The order with q to go, against queues `opp`, its own side being `own`: while it meets a queue it
   trades with that queue's head; what is left over rests if it is a limit order, else is cancelled.
   */
  ghost predicate Settles(c: Config, o: Command, own: seq<Level>, opp: seq<Level>, q: nat, es: seq<Event>,
                          own': seq<Level>, opp': seq<Level>)
    decreases |es|
  {
    if q == 0 then es == [] && own' == own && opp' == opp
    else if exists i :: Meets(c, o, opp, i) then
      && es != []
      && exists i :: && Meets(c, o, opp, i)
                     && Says(es[0], Trade, o, opp[i][0].id, PriceAt(c, i), Give(opp[i], q))
                     && Settles(c, o, own, opp[i := Behind(opp[i], q)], q - Give(opp[i], q), es[1..], own', opp')
    else opp' == opp && Ends(c, o, q, own, es, own')
  }

  // ---- the matching loop ---------------------------------------------------------------------

  lemma {:induction false} ReachTolerates(c: Config, m: Command, i: nat)
    requires ValidConfig(c) && (m.orderType.Market? || ValidPrice(c, m.price)) && i < PriceCount(c)
    ensures Slot(Opposite(m.side), i, PriceCount(c)) < Reach(c, m) <==> Tolerates(c, m, i)
  {
    hide Reach;
    WithinReach(c, m, i);
  }

  lemma {:induction false} ForemostExists(ls: seq<Level>, side: Side, k: nat) returns (i: nat)
    requires k < |ls| && ls[k] != []
    ensures Foremost(ls, side, i) && if side.Buy? then i <= k else k <= i
    decreases if side.Buy? then k else |ls| - k
  {
    if j :| 0 <= j < |ls| && ls[j] != [] && (if side.Buy? then j < k else k < j) {
      i := ForemostExists(ls, side, j);
    } else {
      i := k;
    }
  }

  lemma {:induction false} SomethingMet(c: Config, m: Command, ls: seq<Level>, r: nat)
    requires ValidConfig(c) && (m.orderType.Market? || ValidPrice(c, m.price)) && |ls| == PriceCount(c)
    requires r < Reach(c, m) && ls[Slot(Opposite(m.side), r, |ls|)] != []
    ensures exists i :: Meets(c, m, ls, i)
  {
    hide Reach, Tolerates, Foremost;
    var i := ForemostExists(ls, m.side, Slot(Opposite(m.side), r, |ls|));
    ForemostIndex(ls, m.side, i);
    ReachTolerates(c, m, i);
    assert Meets(c, m, ls, i);
  }

  /** Nothing met: every rank within reach is empty. */
  lemma {:induction false} NothingMet(c: Config, m: Command, ls: seq<Level>)
    requires ValidConfig(c) && (m.orderType.Market? || ValidPrice(c, m.price)) && |ls| == PriceCount(c)
    requires !exists i :: Meets(c, m, ls, i)
    ensures EmptyRanks(ls, Opposite(m.side), 0, Reach(c, m))
  {
    hide Reach, Meets;
    forall r | 0 <= r < Reach(c, m) ensures ls[Slot(Opposite(m.side), r, |ls|)] == [] {
      if ls[Slot(Opposite(m.side), r, |ls|)] != [] { SomethingMet(c, m, ls, r); }
    }
  }

  lemma {:induction false} ForemostIndex(ls: seq<Level>, side: Side, i: int)
    requires Foremost(ls, side, i)
    ensures 0 <= i < |ls| && ls[i] != [] && EmptyRanks(ls, Opposite(side), 0, Slot(Opposite(side), i, |ls|))
  {}

  lemma {:induction false} ForemostUnique(ls: seq<Level>, side: Side)
    ensures forall i, j :: Foremost(ls, side, i) && Foremost(ls, side, j) ==> i == j
  {}

  lemma {:induction false} SettlesTrade(c: Config, o: Command, own: seq<Level>, opp: seq<Level>, q: nat, i: int,
                                        e: Event, es: seq<Event>, own': seq<Level>, opp': seq<Level>)
    requires q > 0 && Meets(c, o, opp, i)
    requires Says(e, Trade, o, opp[i][0].id, PriceAt(c, i), Give(opp[i], q))
    requires Settles(c, o, own, opp[i := Behind(opp[i], q)], q - Give(opp[i], q), es, own', opp')
    ensures Settles(c, o, own, opp, q, [e] + es, own', opp')
  {
    hide Says, Tolerates, Ends;
    assert ([e] + es)[1..] == es;
  }

  lemma {:induction false} SettlesEnd(c: Config, o: Command, own: seq<Level>, opp: seq<Level>, q: nat,
                                      end: seq<Event>, own': seq<Level>)
    requires q == 0 || !exists i :: Meets(c, o, opp, i)
    requires if q == 0 then end == [] && own' == own else Ends(c, o, q, own, end, own')
    ensures Settles(c, o, own, opp, q, end, own', opp)
  {
    hide Meets, Ends;
  }

  lemma {:induction false} SweepSettles(c: Config, m: Command, own: seq<Level>, ls: seq<Level>, q: u64,
                                        end: seq<Event>, own': seq<Level>)
    requires ValidConfig(c) && (m.orderType.Market? || ValidPrice(c, m.price)) && |ls| == PriceCount(c)
    requires var left := Sweep(ls, Opposite(m.side), 0, Reach(c, m), q).left;
             if left == 0 then end == [] && own' == own else Ends(c, m, left, own, end, own')
    ensures var w := Sweep(ls, Opposite(m.side), 0, Reach(c, m), q);
            && (forall k | 0 <= k < |w.fills| :: w.fills[k].index < PriceCount(c))
            && Settles(c, m, own, ls, q, Trades(c, m, w.fills) + end, own', w.levels)
    decreases |Sweep(ls, Opposite(m.side), 0, Reach(c, m), q).fills|
  {
    hide Reach, Sweep, Ends, Foremost, Tolerates, Settles;
    var opp, n := Opposite(m.side), Reach(c, m);
    SweepFits(ls, opp, n, q);
    var w := Sweep(ls, opp, 0, n, q);
    var es := Trades(c, m, w.fills) + end;
    if q == 0 || !exists i :: Meets(c, m, ls, i) {
      if q > 0 { NothingMet(c, m, ls); }
      SweepStops(ls, opp, n, q);
      assert es == end;
      SettlesEnd(c, m, own, ls, q, end, own');
    } else {
      var i :| Meets(c, m, ls, i);
      ForemostIndex(ls, m.side, i);
      ReachTolerates(c, m, i);
      SweepStep(ls, opp, Slot(opp, i, |ls|), n, q);
      var ls', t := ls[i := Behind(ls[i], q)], Give(ls[i], q);
      assert TradeHead(ls[i], t) == Behind(ls[i], q);
      var again := Sweep(ls', opp, 0, n, q - t);
      SweepSettles(c, m, own, ls', q - t, end, own');
      TradesCons(c, m, Fill(i, ls[i][0].id, t), again.fills);
      var e, rest := Emit(Trade, m, ls[i][0].id, IndexPrice(c, i), t, NoReason), Trades(c, m, again.fills) + end;
      assert es == [e] + rest;
      SettlesTrade(c, m, own, ls, q, i, e, rest, own', w.levels);
    }
  }

  lemma {:induction false} SweepFits(ls: seq<Level>, s: Side, bound: nat, q: u64)
    requires bound <= |ls|
    ensures var w := Sweep(ls, s, 0, bound, q);
            w.left <= q && |w.levels| == |ls| && forall k | 0 <= k < |w.fills| :: w.fills[k].index < |ls|
  {}

  lemma {:induction false} ExecuteSettles(c: Config, b: Book, m: Command)
    requires ValidConfig(c) && Sized(c, b) && (m.orderType.Market? || ValidPrice(c, m.price))
    ensures var x, opp := Execute(c, b, m), Opposite(m.side);
            && x.book.last == b.last
            && Settles(c, m, Levels(b, m.side), Levels(b, opp), m.quantity, x.events, Levels(x.book, m.side),
                       Levels(x.book, opp))
  {
    hide Reach, Sweep, Settles;
    var opp, own := Opposite(m.side), Levels(b, m.side);
    SweepFits(Levels(b, opp), opp, Reach(c, m), m.quantity);
    var w := Sweep(Levels(b, opp), opp, 0, Reach(c, m), m.quantity);
    var trades := Trades(c, m, w.fills);
    if w.left == 0 {
      SweepSettles(c, m, own, Levels(b, opp), m.quantity, [], own);
      assert trades + [] == trades;
    } else if m.orderType.Limit? {
      IndexOfPrice(c, m.price);
      var i := PriceIndex(c, m.price);
      var own' := own[i := own[i] + [Order(m.orderId, w.left, m.sequence)]];
      assert Rests(c, m, w.left, own, i, own');
      SweepSettles(c, m, own, Levels(b, opp), m.quantity, [Emit(Rested, m, 0, m.price, w.left, NoReason)], own');
    } else {
      SweepSettles(c, m, own, Levels(b, opp), m.quantity, [Emit(Cancelled, m, 0, m.price, w.left, NoReason)], own);
    }
  }

  // ---- when a command is refused -------------------------------------------------------------

  /** Quantity at the first n ticks' tolerable prices; displayed totals wrap at 2^64. */
  function Offered(c: Config, o: Command, ls: seq<Level>, n: nat): nat
    requires n <= |ls|
  {
    if n == 0 then 0
    else
      Offered(c, o, ls, n - 1)
      + if Tolerates(c, o, n - 1) then Total(ls[n - 1]) % 0x1_0000_0000_0000_0000 else 0
  }

  predicate OnLadder(c: Config, p: Price) {
    c.minimumPrice <= p <= c.maximumPrice && c.tickSize > 0 && (p - c.minimumPrice) % c.tickSize == 0
  }

  predicate Names(b: Book, p: Place, id: u64) {
    Holds(b, p) && OrderAt(b, p).id == id
  }

  /** The first check that fails, or NoReason. */
  ghost function Refusal(c: Config, b: Book, m: Command): RejectReason {
    var known := exists p :: Names(b, p, m.orderId);
    var opp := Levels(b, Opposite(m.side));
    var fills := Offered(c, m, opp, |opp|) >= m.quantity;
    if m.sequence != (b.last + 1) % 0x1_0000_0000_0000_0000 then SequenceGap
    else match m.kind
      case New =>
        if m.quantity == 0 then InvalidQuantity
        else if !m.orderType.Market? && !OnLadder(c, m.price) then InvalidPrice
        else if known then DuplicateOrderId
        else if m.orderType.FillOrKill? && !fills then WouldNotFill
        else if m.orderType.Limit? && Resting(b) == c.maximumOrders && !fills then BookCapacity
        else NoReason
      case Cancel => if known then NoReason else UnknownOrderId
      case Replace =>
        if !known then UnknownOrderId
        else if m.quantity == 0 then InvalidQuantity
        else if !OnLadder(c, m.price) then InvalidPrice
        else NoReason
  }

  // ---- the whole answer ----------------------------------------------------------------------

  /** The side without the order at p. */
  function Without(b: Book, p: Place): seq<Level>
    requires Holds(b, p)
  {
    var ls := Levels(b, p.side);
    ls[p.index := ls[p.index][..p.pos] + ls[p.index][p.pos + 1..]]
  }

  ghost predicate Settled(c: Config, o: Command, own: seq<Level>, opp: seq<Level>, es: seq<Event>, after: Book) {
    Settles(c, o, own, opp, o.quantity, es, Levels(after, o.side), Levels(after, Opposite(o.side)))
  }

  /** Everything the book says and does about a command. */
  ghost predicate Answered(c: Config, b: Book, m: Command, x: Outcome) {
    var reason := Refusal(c, b, m);
    if reason != NoReason then
      && x.events == [Event(m.sequence, Rejected, m.side, reason, m.orderId, 0, 0, 0)]
      && x.book == if reason == SequenceGap then b else b.(last := m.sequence)
    else
      && x.book.last == m.sequence && x.events != []
      && match m.kind
         case New =>
           && Says(x.events[0], Accepted, m, 0, 0, 0)
           && Settled(c, m, Levels(b, m.side), Levels(b, Opposite(m.side)), x.events[1..], x.book)
         case Cancel =>
           exists p ::
             && Names(b, p, m.orderId) && |x.events| == 1
             && Says(x.events[0], Cancelled, m, 0, PriceAt(c, p.index), OrderAt(b, p).qty)
             && Levels(x.book, p.side) == Without(b, p)
             && Levels(x.book, Opposite(p.side)) == Levels(b, Opposite(p.side))
         case Replace =>
           exists p ::
             && Names(b, p, m.orderId)
             && var o := m.(side := p.side, orderType := Limit);
                && Says(x.events[0], Replaced, o, 0, m.price, m.quantity)
                && Settled(c, o, Without(b, p), Levels(b, Opposite(p.side)), x.events[1..], x.book)
  }

  /** Ticks add up as ranks do. */
  lemma {:induction false} OfferedAsks(c: Config, m: Command, ls: seq<Level>, n: nat)
    requires ValidConfig(c) && (m.orderType.Market? || ValidPrice(c, m.price)) && |ls| == PriceCount(c)
    requires m.side.Buy? && n <= |ls|
    ensures Offered(c, m, ls, n) == ShownDepth(ls, Sell, if n <= Reach(c, m) then n else Reach(c, m))
  {
    hide Reach, Tolerates;
    if n > 0 {
      OfferedAsks(c, m, ls, n - 1);
      ReachTolerates(c, m, n - 1);
    }
  }

  lemma {:induction false} OfferedBids(c: Config, m: Command, ls: seq<Level>, n: nat)
    requires ValidConfig(c) && (m.orderType.Market? || ValidPrice(c, m.price)) && |ls| == PriceCount(c)
    requires m.side.Sell? && n <= |ls|
    ensures var k := |ls| - n;
            Offered(c, m, ls, n) + ShownDepth(ls, Buy, if k <= Reach(c, m) then k else Reach(c, m))
            == ShownDepth(ls, Buy, Reach(c, m))
  {
    hide Reach, Tolerates;
    if n > 0 {
      OfferedBids(c, m, ls, n - 1);
      ReachTolerates(c, m, n - 1);
    } else {
      ReachFitsLevels(c, m, ls);
    }
  }

  lemma {:induction false} ReachFitsLevels(c: Config, m: Command, ls: seq<Level>)
    requires ValidConfig(c) && (m.orderType.Market? || ValidPrice(c, m.price)) && |ls| == PriceCount(c)
    ensures Reach(c, m) <= |ls|
  {}

  lemma {:induction false} OfferedIsShown(c: Config, m: Command, ls: seq<Level>)
    requires ValidConfig(c) && (m.orderType.Market? || ValidPrice(c, m.price)) && |ls| == PriceCount(c)
    ensures Reach(c, m) <= |ls| && Offered(c, m, ls, |ls|) == ShownDepth(ls, Opposite(m.side), Reach(c, m))
  {
    hide Reach, Tolerates;
    ReachFitsLevels(c, m, ls);
    if m.side.Buy? { OfferedAsks(c, m, ls, |ls|); } else { OfferedBids(c, m, ls, |ls|); }
  }

  lemma {:induction false} KnownIsResident(b: Book, last: u64, id: u64)
    ensures (exists p :: Names(b, p, id)) <==> Resident(b.(last := last), id)
  {
    var t := b.(last := last);
    if Resident(t, id) { assert Names(b, Locate(t, id), id); }
    if p :| Names(b, p, id) { assert Holds(t, p) && OrderAt(t, p).id == id; }
  }

  lemma {:induction false} RefusalIsAdmission(c: Config, b: Book, m: Command)
    requires Sound(c, b) && m.kind.New? && m.sequence == Next(b.last)
    ensures Refusal(c, b, m) == Admission(c, b.(last := m.sequence), m, false)
  {
    hide Reach, Offered, ShownDepth, Resident, Names;
    KnownIsResident(b, m.sequence, m.orderId);
    if m.orderType.Market? || ValidPrice(c, m.price) { OfferedIsShown(c, m, Levels(b, Opposite(m.side))); }
  }

  lemma {:induction false} NewAnswered(c: Config, b: Book, m: Command)
    requires Sound(c, b) && m.kind.New? && m.sequence == Next(b.last)
    ensures Answered(c, b, m, Process(c, b, m))
  {
    hide Settles, Execute, Admission, Refusal, Positive, UniqueIds, Resting;
    RefusalIsAdmission(c, b, m);
    AdmittedPrice(c, b.(last := m.sequence), m);
    if Refusal(c, b, m) == NoReason {
      ExecuteSettles(c, b.(last := m.sequence), m);
      var es := Execute(c, b.(last := m.sequence), m).events;
      assert ([Emit(Accepted, m, 0, 0, 0, NoReason)] + es)[1..] == es;
    }
  }

  lemma {:induction false} AdmittedPrice(c: Config, b: Book, m: Command)
    requires ValidConfig(c) && Sized(c, b)
    ensures Admission(c, b, m, false) == NoReason ==> m.orderType.Market? || ValidPrice(c, m.price)
    ensures Admission(c, b, m, false) != SequenceGap
  {}

  lemma {:induction false} CancelAnswered(c: Config, b: Book, m: Command)
    requires Sound(c, b) && m.kind.Cancel? && m.sequence == Next(b.last)
    ensures Answered(c, b, m, Process(c, b, m))
  {
    hide Positive, UniqueIds, Resting, Resident, Settles, Offered;
    var t := b.(last := m.sequence);
    KnownIsResident(b, m.sequence, m.orderId);
    if Resident(t, m.orderId) {
      var p := Locate(t, m.orderId);
      assert Names(b, p, m.orderId) && Levels(Remove(t, p), p.side) == Without(b, p);
    }
  }

  lemma {:induction false} ReplaceAnswered(c: Config, b: Book, m: Command)
    requires Sound(c, b) && m.kind.Replace? && m.sequence == Next(b.last)
    ensures Answered(c, b, m, Process(c, b, m))
  {
    hide Positive, UniqueIds, Resting, Resident, Settles, Offered, Execute, Admission;
    var t := b.(last := m.sequence);
    KnownIsResident(b, m.sequence, m.orderId);
    if Resident(t, m.orderId) && m.quantity > 0 && ValidPrice(c, m.price) {
      AdvanceKeeps(c, b, m.sequence);
      var p := Locate(t, m.orderId);
      var r := Replacement(m, p.side);
      ReplacementAdmitted(c, t, p, m);
      ExecuteSettles(c, Remove(t, p), r);
      var es := Execute(c, Remove(t, p), r).events;
      assert [] + es == es && ([Emit(Replaced, r, 0, r.price, r.quantity, NoReason)] + es)[1..] == es;
      assert Names(b, p, m.orderId) && Levels(Remove(t, p), p.side) == Without(b, p);
    }
  }

  /** Every command on every sound book. */
  lemma {:induction false} AnswerTheorem(c: Config, b: Book, m: Command)
    requires Sound(c, b)
    ensures Answered(c, b, m, Process(c, b, m))
  {
    hide Sound, Dispatch, Settles;
    if m.sequence == Next(b.last) {
      match m.kind
      case New => NewAnswered(c, b, m);
      case Cancel => CancelAnswered(c, b, m);
      case Replace => ReplaceAnswered(c, b, m);
    }
  }

  // ---- and nothing else ----------------------------------------------------------------------

  lemma {:induction false} SaysUnique(e: Event, f: Event, kind: EventType, o: Command, contra: int, price: int, q: int)
    requires Says(e, kind, o, contra, price, q) && Says(f, kind, o, contra, price, q)
    ensures e == f
  {}

  lemma {:induction false} PriceAtUnique(c: Config, i: int, j: int)
    requires c.tickSize > 0 && PriceAt(c, i) == PriceAt(c, j)
    ensures i == j
  {
    if i < j { MulMono(i + 1, j, c.tickSize); }
    if j < i { MulMono(j + 1, i, c.tickSize); }
  }

  lemma {:induction false} EndsUnique(c: Config, o: Command, q: int, own: seq<Level>, es: seq<Event>, x: seq<Level>,
                                      fs: seq<Event>, y: seq<Level>)
    requires c.tickSize > 0 && Ends(c, o, q, own, es, x) && Ends(c, o, q, own, fs, y)
    ensures es == fs && x == y
  {
    hide Says;
    if o.orderType.Limit? {
      var i :| Rests(c, o, q, own, i, x);
      var j :| Rests(c, o, q, own, j, y);
      PriceAtUnique(c, i, j);
      SaysUnique(es[0], fs[0], Rested, o, 0, o.price, q);
    } else {
      SaysUnique(es[0], fs[0], Cancelled, o, 0, o.price, q);
    }
  }

  /** Events and queues follow from the order and the queues it finds. */
  lemma {:induction false} SettlesUnique(c: Config, o: Command, own: seq<Level>, opp: seq<Level>, q: nat,
                                         es: seq<Event>, x: seq<Level>, x': seq<Level>,
                                         fs: seq<Event>, y: seq<Level>, y': seq<Level>)
    requires c.tickSize > 0
    requires Settles(c, o, own, opp, q, es, x, x') && Settles(c, o, own, opp, q, fs, y, y')
    ensures es == fs && x == y && x' == y'
    decreases |es|
  {
    hide Says, Ends, Foremost, Tolerates;
    if q > 0 {
      if exists i :: Meets(c, o, opp, i) {
        var i := TradeOf(c, o, own, opp, q, es, x, x');
        var j := TradeOf(c, o, own, opp, q, fs, y, y');
        ForemostUnique(opp, o.side);
        SaysUnique(es[0], fs[0], Trade, o, opp[i][0].id, PriceAt(c, i), Give(opp[i], q));
        SettlesUnique(c, o, own, opp[i := Behind(opp[i], q)], q - Give(opp[i], q), es[1..], x, x', fs[1..], y, y');
        assert es == [es[0]] + es[1..] && fs == [fs[0]] + fs[1..];
      } else {
        EndsUnique(c, o, q, own, es, x, fs, y);
      }
    }
  }

  /** The tick of the first trade. */
  lemma {:induction false} TradeOf(c: Config, o: Command, own: seq<Level>, opp: seq<Level>, q: nat, es: seq<Event>,
                                   x: seq<Level>, x': seq<Level>)
    returns (i: int)
    requires Settles(c, o, own, opp, q, es, x, x') && q > 0 && exists i :: Meets(c, o, opp, i)
    ensures es != [] && Meets(c, o, opp, i) && 0 <= i < |opp| && opp[i] != []
    ensures Says(es[0], Trade, o, opp[i][0].id, PriceAt(c, i), Give(opp[i], q))
    ensures Settles(c, o, own, opp[i := Behind(opp[i], q)], q - Give(opp[i], q), es[1..], x, x')
  {
    hide Says, Tolerates;
    i :| && Meets(c, o, opp, i)
         && Says(es[0], Trade, o, opp[i][0].id, PriceAt(c, i), Give(opp[i], q))
         && Settles(c, o, own, opp[i := Behind(opp[i], q)], q - Give(opp[i], q), es[1..], x, x');
  }

  lemma {:induction false} SettledUnique(c: Config, o: Command, own: seq<Level>, opp: seq<Level>, x: Outcome,
                                         y: Outcome)
    requires c.tickSize > 0 && x.events != [] && y.events != [] && x.book.last == y.book.last
    requires x.events[0] == y.events[0]
    requires Settled(c, o, own, opp, x.events[1..], x.book) && Settled(c, o, own, opp, y.events[1..], y.book)
    ensures x == y
  {
    hide Settles;
    var s, s' := o.side, Opposite(o.side);
    SettlesUnique(c, o, own, opp, o.quantity, x.events[1..], Levels(x.book, s), Levels(x.book, s'),
      y.events[1..], Levels(y.book, s), Levels(y.book, s'));
    assert x.events == [x.events[0]] + x.events[1..] && y.events == [y.events[0]] + y.events[1..];
  }

  /** The description leaves no choice: an outcome that meets it is Process's. */
  lemma {:induction false} AnswerUnique(c: Config, b: Book, m: Command, x: Outcome)
    requires Sound(c, b)
    ensures Answered(c, b, m, x) <==> x == Process(c, b, m)
  {
    hide Settles, Refusal, Process, Positive, Resting, Says;
    AnswerTheorem(c, b, m);
    var y := Process(c, b, m);
    if Answered(c, b, m, x) && Refusal(c, b, m) == NoReason {
      match m.kind
      case New =>
        SaysUnique(x.events[0], y.events[0], Accepted, m, 0, 0, 0);
        SettledUnique(c, m, Levels(b, m.side), Levels(b, Opposite(m.side)), x, y);
      case Cancel =>
        var p :| Names(b, p, m.orderId) && Says(x.events[0], Cancelled, m, 0, PriceAt(c, p.index), OrderAt(b, p).qty);
        SaysUnique(x.events[0], y.events[0], Cancelled, m, 0, PriceAt(c, p.index), OrderAt(b, p).qty);
      case Replace =>
        var p :| Names(b, p, m.orderId);
        var o := m.(side := p.side, orderType := Limit);
        SaysUnique(x.events[0], y.events[0], Replaced, o, 0, m.price, m.quantity);
        SettledUnique(c, o, Without(b, p), Levels(b, Opposite(p.side)), x, y);
    }
  }

  // ---- what a trader relies on ---------------------------------------------------------------

  /** No order that the aggressor could still trade with remains. */
  predicate Exhausted(c: Config, o: Command, opp: seq<Level>) {
    forall i | 0 <= i < |opp| && opp[i] != [] :: !Tolerates(c, o, i)
  }

  /** A better tick than a tolerable one is tolerable. */
  lemma {:induction false} BetterTolerable(c: Config, o: Command, i: int, k: int)
    requires c.tickSize > 0 && Tolerates(c, o, k) && if o.side.Buy? then i <= k else k <= i
    ensures Tolerates(c, o, i)
  {
    if o.side.Buy? { MulMono(i, k, c.tickSize); } else { MulMono(k, i, c.tickSize); }
  }

  lemma {:induction false} NoneMetExhausted(c: Config, o: Command, opp: seq<Level>)
    requires c.tickSize > 0 && !exists i :: Meets(c, o, opp, i)
    ensures Exhausted(c, o, opp)
  {
    hide Tolerates, Foremost;
    forall k | 0 <= k < |opp| && opp[k] != [] ensures !Tolerates(c, o, k) {
      var i := ForemostExists(opp, o.side, k);
      assert !Meets(c, o, opp, i);
      if Tolerates(c, o, k) { BetterTolerable(c, o, i, k); }
    }
  }

  /** Trades keep to the order's price; a remainder is left only when nothing tolerable is. */
  lemma {:induction false} SettlesMeans(c: Config, o: Command, own: seq<Level>, opp: seq<Level>, q: nat,
                                        es: seq<Event>, own': seq<Level>, opp': seq<Level>)
    requires c.tickSize > 0 && Settles(c, o, own, opp, q, es, own', opp')
    ensures forall k | 0 <= k < |es| :: es[k].side == o.side && (es[k].kind == Trade ==> Within(o, es[k].price))
    ensures Traded(es) <= q
    ensures if Traded(es) == q then AllTrades(es) && own' == own
            else
              && es != [] && AllTrades(es[..|es| - 1])
              && Ends(c, o, q - Traded(es), own, [es[|es| - 1]], own') && Exhausted(c, o, opp')
    decreases |es|
  {
    hide Ends, Foremost, Exhausted;
    if q > 0 {
      if exists i :: Meets(c, o, opp, i) {
        var i := TradeOf(c, o, own, opp, q, es, own', opp');
        SettlesMeans(c, o, own, opp[i := Behind(opp[i], q)], q - Give(opp[i], q), es[1..], own', opp');
        assert forall k | 1 <= k < |es| :: es[k] == es[1..][k - 1];
        if Traded(es) < q {
          assert es[1..][|es[1..]| - 1] == es[|es| - 1] && es[..|es| - 1][1..] == es[1..][..|es[1..]| - 1];
        }
      } else {
        NoneMetExhausted(c, o, opp);
        EndsSays(c, o, q, own, es, own');
        assert es == [es[|es| - 1]];
      }
    }
  }

  lemma {:induction false} EndsSays(c: Config, o: Command, q: int, own: seq<Level>, es: seq<Event>, own': seq<Level>)
    requires Ends(c, o, q, own, es, own')
    ensures |es| == 1 && es[0].side == o.side && es[0].kind == if o.orderType.Limit? then Rested else Cancelled
    ensures Traded(es) == 0
  {
    assert es[1..] == [];
  }

  /**
   Whatever the order type, only a market order trades beyond its price. A remainder, rested or
   cancelled, is left only where no opposite order at such a price is, and a market order's only
   where the opposite side is empty.
   */
  lemma {:induction false} LimitTheorem(c: Config, b: Book, m: Command)
    requires Sound(c, b)
    ensures var x := Process(c, b, m);
            var es := x.events;
            && es != []
            && (forall k | 0 <= k < |es| && es[k].kind == Trade ::
                  && !m.kind.Cancel? && (m.kind.New? ==> es[k].side == m.side)
                  && (|| (m.kind.New? && m.orderType.Market?)
                      || if es[k].side.Buy? then es[k].price <= m.price else es[k].price >= m.price))
            && (es[0].kind in {Accepted, Replaced} && es[|es| - 1].kind in {Rested, Cancelled} ==>
                  forall p | Holds(x.book, p) && p.side != es[|es| - 1].side ::
                    && !(m.kind.New? && m.orderType.Market?)
                    && if p.side.Buy? then PriceAt(c, p.index) < m.price else PriceAt(c, p.index) > m.price)
  {
    hide Settles, Refusal, Process, Positive, UniqueIds, Resting;
    AnswerTheorem(c, b, m);
    var x := Process(c, b, m);
    if Refusal(c, b, m) == NoReason && !m.kind.Cancel? {
      var o, own, opp := Settlement(c, b, m, x);
      var es := x.events[1..];
      SettlesMeans(c, o, own, opp, o.quantity, es, Levels(x.book, o.side), Levels(x.book, Opposite(o.side)));
      assert forall k | 1 <= k < |x.events| :: x.events[k] == es[k - 1];
      if es != [] { assert es[|es| - 1] == x.events[|x.events| - 1]; }
    }
  }

  /** The order that a command not refused puts on the market, and what it finds there. */
  lemma {:induction false} Settlement(c: Config, b: Book, m: Command, x: Outcome)
    returns (o: Command, own: seq<Level>, opp: seq<Level>)
    requires Answered(c, b, m, x) && Refusal(c, b, m) == NoReason && !m.kind.Cancel?
    ensures x.events != [] && x.events[0].kind == if m.kind.New? then Accepted else Replaced
    ensures o.price == m.price && o.quantity == m.quantity && o.sequence == m.sequence && o.orderId == m.orderId
    ensures if m.kind.New? then o == m else o.orderType == Limit
    ensures Settled(c, o, own, opp, x.events[1..], x.book)
  {
    hide Settles, Refusal;
    if m.kind.New? {
      o, own, opp := m, Levels(b, m.side), Levels(b, Opposite(m.side));
    } else {
      var p :| && Names(b, p, m.orderId)
               && var r := m.(side := p.side, orderType := Limit);
                  && Says(x.events[0], Replaced, r, 0, m.price, m.quantity)
                  && Settled(c, r, Without(b, p), Levels(b, Opposite(p.side)), x.events[1..], x.book);
      o, own, opp := m.(side := p.side, orderType := Limit), Without(b, p), Levels(b, Opposite(p.side));
    }
  }

  /**
   Of the order, what did not trade rests: at its price, behind every order there, with its sequence
   as priority. Nothing is cancelled.
   */
  ghost predicate Remains(c: Config, o: Command, own: seq<Level>, es: seq<Event>, own': seq<Level>) {
    && (forall k | 0 <= k < |es| :: es[k].kind != Cancelled && es[k].side == o.side)
    && Traded(es) <= o.quantity
    && var left := o.quantity - Traded(es);
       if left == 0 then own' == own
       else
         && es != [] && es[|es| - 1] == Event(o.sequence, Rested, o.side, NoReason, o.orderId, 0, o.price, left)
         && exists i | 0 <= i < |own| ::
           PriceAt(c, i) == o.price && own' == own[i := own[i] + [Order(o.orderId, left, o.sequence)]]
  }

  lemma {:induction false} SettledRemains(c: Config, o: Command, own: seq<Level>, opp: seq<Level>, es: seq<Event>,
                                          after: Book)
    requires c.tickSize > 0 && o.orderType.Limit? && Settled(c, o, own, opp, es, after)
    ensures Remains(c, o, own, es, Levels(after, o.side))
  {
    hide Settles, Ends, PriceAt, Exhausted;
    SettlesMeans(c, o, own, opp, o.quantity, es, Levels(after, o.side), Levels(after, Opposite(o.side)));
    if Traded(es) < o.quantity {
      RestsLast(c, o, o.quantity - Traded(es), own, [es[|es| - 1]], Levels(after, o.side));
      assert forall k | 0 <= k < |es| - 1 :: es[k] == es[..|es| - 1][k];
    }
  }

  /** A replaced order never disappears: it keeps its side, and what it does not trade rests. */
  lemma {:induction false} ReplacedRests(c: Config, b: Book, m: Command, p: Place)
    requires Sound(c, b) && m.kind.Replace? && Names(b, p, m.orderId)
    ensures var x := Process(c, b, m);
            && x.events != []
            && (x.events[0].kind == Replaced ==>
                  && x.events[0].side == p.side
                  && Remains(c, m.(side := p.side, orderType := Limit), Without(b, p), x.events[1..],
                             Levels(x.book, p.side)))
  {
    hide Settles, Refusal, Process, Positive, Resting, UniqueIds, Without, Remains;
    AnswerTheorem(c, b, m);
    var x := Process(c, b, m);
    if x.events[0].kind == Replaced {
      ReplaceSettles(c, b, m, p, x);
      var o := m.(side := p.side, orderType := Limit);
      SettledRemains(c, o, Without(b, p), Levels(b, Opposite(p.side)), x.events[1..], x.book);
    }
  }

  lemma {:induction false} RestsLast(c: Config, o: Command, q: int, own: seq<Level>, es: seq<Event>, own': seq<Level>)
    requires Ends(c, o, q, own, es, own') && o.orderType.Limit?
    ensures 0 < q < 0x1_0000_0000_0000_0000
    ensures es == [Event(o.sequence, Rested, o.side, NoReason, o.orderId, 0, o.price, q)]
    ensures exists i | 0 <= i < |own| ::
              PriceAt(c, i) == o.price && own' == own[i := own[i] + [Order(o.orderId, q, o.sequence)]]
  {
    var i :| Rests(c, o, q, own, i, own');
  }

  lemma {:induction false} ReplaceSettles(c: Config, b: Book, m: Command, p: Place, x: Outcome)
    requires Sound(c, b) && m.kind.Replace? && Names(b, p, m.orderId) && Answered(c, b, m, x)
    requires x.events != [] && x.events[0].kind == Replaced
    ensures var o := m.(side := p.side, orderType := Limit);
            && x.events[0].side == p.side
            && Settled(c, o, Without(b, p), Levels(b, Opposite(p.side)), x.events[1..], x.book)
  {
    hide Settles, Refusal, Positive, Resting;
    var q :| && Names(b, q, m.orderId)
             && var r := m.(side := q.side, orderType := Limit);
                && Says(x.events[0], Replaced, r, 0, m.price, m.quantity)
                && Settled(c, r, Without(b, q), Levels(b, Opposite(q.side)), x.events[1..], x.book);
    assert q == p;
  }
}
