/** The two ways of parting, on concrete runs: a preflight that is misjudged, a queue out of order. */
module Divergence {
  import opened Types
  import opened Ladder
  import opened Matching
  import opened Invariants
  import opened Runs
  import opened Listing
  import opened Recovery
  import opened Turns
  import opened Reference

  /** A limit order that meets no opposite order rests whole. */
  lemma {:induction false} RestsUncontested(c: Config, b: Book, m: Command)
    requires ValidConfig(c) && Sized(c, b) && m.kind.New? && m.orderType.Limit? && m.sequence == Next(b.last)
    requires m.quantity > 0 && ValidPrice(c, m.price) && !Resident(b, m.orderId) && Resting(b) < c.maximumOrders
    requires forall i | 0 <= i < PriceCount(c) :: Levels(b, Opposite(m.side))[i] == []
    ensures PriceIndex(c, m.price) < PriceCount(c)
    ensures Ladder.Process(c, b, m).book
            == Append(b.(last := m.sequence), m.side, PriceIndex(c, m.price), Order(m.orderId, m.quantity, m.sequence))
  {
    hide PriceCount, ValidPrice, PriceIndex, Resident, Resting;
    var opp := Opposite(m.side);
    IndexOfPrice(c, m.price);
    SweepStops(Levels(b, opp), opp, Reach(c, m), m.quantity);
    SameLevels(b, m.sequence, m.orderId);
  }

  const HALF: u64 := 0x8000_0000_0000_0000

  /** Two sells of 2^63 at one tick, then a fill-or-kill buy of 1. */
  const OVERFLOWING: seq<Command> := [
    Command(1, New, Sell, Limit, 1, 1, HALF),
    Command(2, New, Sell, Limit, 2, 1, HALF),
    Command(3, New, Buy, FillOrKill, 3, 1, 1)]

  const ONE_TICK := Config(1, 1, 1, 4)

  lemma {:induction false} OverflowingBooks()
    ensures ValidConfig(ONE_TICK) && PriceCount(ONE_TICK) == 1
    ensures Run(ONE_TICK, Empty(ONE_TICK), OVERFLOWING[..1]).book == Book([[]], [[Order(1, HALF, 1)]], 1)
    ensures Run(ONE_TICK, Empty(ONE_TICK), OVERFLOWING[..2]).book
            == Book([[]], [[Order(1, HALF, 1), Order(2, HALF, 2)]], 2)
  {
    hide Run, RefRun, Ladder.Process, Resting, Resident;
    var c := ONE_TICK;
    var b0, b1 := Empty(c), Book([[]], [[Order(1, HALF, 1)]], 1);
    EmptyIsSound(c);
    assert b0 == Book([[]], [[]], 0);
    RestsUncontested(c, b0, OVERFLOWING[0]);
    AppendAsk([], Order(1, HALF, 1), 1);
    assert [] + [Order(1, HALF, 1)] == [Order(1, HALF, 1)];
    OneResting(b1);
    RestsUncontested(c, b1, OVERFLOWING[1]);
    AppendAsk([Order(1, HALF, 1)], Order(2, HALF, 2), 2);
    assert [Order(1, HALF, 1)] + [Order(2, HALF, 2)] == [Order(1, HALF, 1), Order(2, HALF, 2)];
    assert OVERFLOWING[..1][..0] == [] && OVERFLOWING[..2][..1] == OVERFLOWING[..1];
    NothingRun(c, b0, Ref([], 0));
    RunsExtend(c, b0, Ref([], 0), OVERFLOWING[..1]);
    RunsExtend(c, b0, Ref([], 0), OVERFLOWING[..2]);
  }

  lemma {:induction false} AppendAsk(l: Level, o: Order, last: u64)
    ensures Append(Book([[]], [l], last), Sell, 0, o) == Book([[]], [l + [o]], last)
  {
    assert [l][0 := l + [o]] == [l + [o]];
  }

  lemma {:induction false} OneResting(b: Book)
    requires b == Book([[]], [[Order(1, HALF, 1)]], 1)
    ensures Resting(b) == 1 && !Resident(b, 2)
  {
    assert CountTo(b.bids, 0) == 0 && CountTo(b.asks, 0) == 0;
  }

  /** The exception is reachable from a new book, by three commands. */
  lemma {:induction false} DivergenceReachable()
    ensures ValidConfig(ONE_TICK)
    ensures Run(ONE_TICK, Empty(ONE_TICK), OVERFLOWING).events != RefRun(ONE_TICK, Ref([], 0), OVERFLOWING).events
  {
    hide Run, RefRun, Sound, Timely;
    var c := ONE_TICK;
    OverflowingBooks();
    var b := Book([[]], [[Order(1, HALF, 1), Order(2, HALF, 2)]], 2);
    WrappedDiverges(b);
    assert Diverges(c, Run(c, Empty(c), OVERFLOWING[..2]).book, OVERFLOWING[2]);
    FreshDifferential(c, OVERFLOWING);
  }

  lemma {:induction false} WrappedDiverges(b: Book)
    requires b == Book([[]], [[Order(1, HALF, 1), Order(2, HALF, 2)]], 2)
    ensures Diverges(ONE_TICK, b, OVERFLOWING[2])
  {
    hide Total, Resting, Depth, ShownDepth, Reach;
    var l := [Order(1, HALF, 1), Order(2, HALF, 2)];
    TwoTotal(l);
    OneLevelDepth(l);
    WholeReach(ONE_TICK, OVERFLOWING[2]);
  }

  lemma {:induction false} OneLevelDepth(l: Level)
    ensures Depth([l], Sell, 1) == Total(l) && ShownDepth([l], Sell, 1) == Shown(l)
  {
    assert Depth([l], Sell, 0) == 0 && ShownDepth([l], Sell, 0) == 0;
  }

  lemma {:induction false} WholeReach(c: Config, m: Command)
    requires ValidConfig(c) && PriceCount(c) == 1 && (m.orderType.Market? || ValidPrice(c, m.price))
    ensures Reach(c, m) == 1
  {
    hide PriceCount;
  }

  lemma {:induction false} TwoTotal(l: Level)
    requires |l| == 2
    ensures Total(l) == l[0].qty + l[1].qty
  {
    var t := l[1..];
    assert Total(t) == t[0].qty + Total(t[1..]) && t[1..] == [];
  }

  // ---- a queue out of order ------------------------------------------------------------------

  const BEFORE_WRAP := Book([[]], [[Order(1, 1, 5)]], 0xFFFF_FFFF_FFFF_FFFF)
  const AFTER_WRAP := Book([[]], [[Order(1, 1, 5), Order(2, 1, 0)]], 0)
  const LATE_SELL := Command(0, New, Sell, Limit, 2, 1, 1)
  const NEXT_BUY := Command(1, New, Buy, Limit, 3, 1, 1)
  const NEXT_CANCEL := Command(1, Cancel, Buy, Limit, 9, 0, 0)

  lemma {:induction false} OneAsk()
    ensures ValidConfig(ONE_TICK) && PriceCount(ONE_TICK) == 1 && Sound(ONE_TICK, BEFORE_WRAP) && Dated(BEFORE_WRAP)
    ensures Resting(BEFORE_WRAP) == 1 && !Resident(BEFORE_WRAP, 2)
  {
    assert CountTo(BEFORE_WRAP.bids, 0) == 0 && CountTo(BEFORE_WRAP.asks, 0) == 0;
  }

  /** The late sell rests behind the earlier one, and its priority is lower. */
  lemma {:induction false} LateSellRests()
    ensures ValidConfig(ONE_TICK) && Ladder.Process(ONE_TICK, BEFORE_WRAP, LATE_SELL).book == AFTER_WRAP
  {
    hide Ladder.Process, Resting, Resident, Sound, Dated;
    OneAsk();
    RestsUncontested(ONE_TICK, BEFORE_WRAP, LATE_SELL);
    AppendAsk([Order(1, 1, 5)], Order(2, 1, 0), 0);
    assert [Order(1, 1, 5)] + [Order(2, 1, 0)] == [Order(1, 1, 5), Order(2, 1, 0)];
  }

  lemma {:induction false} TwoAsks()
    ensures Resting(AFTER_WRAP) == 2 && !Resident(AFTER_WRAP, 3) && Sized(ONE_TICK, AFTER_WRAP) && !Queued(AFTER_WRAP)
  {
    assert CountTo(AFTER_WRAP.bids, 0) == 0 && CountTo(AFTER_WRAP.asks, 0) == 0;
    assert Ahead(AFTER_WRAP, Place(Sell, 0, 0), Place(Sell, 0, 1));
  }

  /** A buy meets the earlier sell at the head and the lower priority behind it; a cancel meets nothing. */
  lemma {:induction false} BuyOutOfTurn()
    ensures ValidConfig(ONE_TICK) && Sized(ONE_TICK, AFTER_WRAP)
    ensures OutOfTurn(ONE_TICK, AFTER_WRAP, NEXT_BUY) && !Parts(ONE_TICK, AFTER_WRAP, NEXT_CANCEL)
  {
    hide Resting, Resident, Reach, ShownDepth;
    OneAsk();
    TwoAsks();
    WholeReach(ONE_TICK, NEXT_BUY);
    var l := AFTER_WRAP.asks[0];
    assert l[1].priority < l[0].priority && !HeadFirst(l);
    InTurnHere([l], Sell, 0, 1, 1);
  }

  /**
   The other exception is reachable too. The book before the wrap is what restoring its own resting
   orders gives. One sell later a FIFO is out of order, and the next buy is answered differently
   from every list that mirrors the start, though no command is misjudged; a cancel in its place is
   answered alike.
   */
  lemma {:induction false} WrapDivergence(r: Ref)
    requires ValidConfig(ONE_TICK) && Mirrors(ONE_TICK, BEFORE_WRAP, r)
    ensures var c, buy, cancel := ONE_TICK, [LATE_SELL, NEXT_BUY], [LATE_SELL, NEXT_CANCEL];
            && Sized(c, BEFORE_WRAP) && Mirrors(c, BEFORE_WRAP, Ref(RestingList(c, BEFORE_WRAP), BEFORE_WRAP.last))
            && Restore(c, BEFORE_WRAP.last, RestingList(c, BEFORE_WRAP)) == Restored(BEFORE_WRAP, true)
            && !Queued(Run(c, BEFORE_WRAP, [LATE_SELL]).book)
            && NeverDiverges(c, BEFORE_WRAP, buy)
            && Run(c, BEFORE_WRAP, buy).events != RefRun(c, r, buy).events
            && Run(c, BEFORE_WRAP, cancel).events == RefRun(c, r, cancel).events
  {
    hide Run, RefRun, Ladder.Process, RefProcess, Resting, Resident, Sound, Dated, Mirrors, Queued, Parts, Diverges,
      OutOfTurn, Restore, RestingList, Misjudged;
    var c, b, buy, cancel := ONE_TICK, BEFORE_WRAP, [LATE_SELL, NEXT_BUY], [LATE_SELL, NEXT_CANCEL];
    OneAsk();
    TwoAsks();
    LateSellRests();
    BuyOutOfTurn();
    SnapshotRoundTrip(c, b);
    ListMirrors(c, b);
    DatedIsQueued(b);
    OneStep(c, b, r, LATE_SELL);
    NothingRun(c, b, r);
    assert buy[..1] == [LATE_SELL] == cancel[..1] && buy[..0] == [] == cancel[..0];
    NoneFull(c, b, LATE_SELL);
    NoneFull(c, AFTER_WRAP, NEXT_BUY);
    QueuedParts(c, b, LATE_SELL);
    OutOfTurnParts(c, AFTER_WRAP, NEXT_BUY);
    assert !Parts(c, Run(c, b, cancel[..0]).book, cancel[0]) && !Parts(c, Run(c, b, cancel[..1]).book, cancel[1]);
    assert Parts(c, Run(c, b, buy[..1]).book, buy[1]);
    DifferentialRun(c, b, r, buy);
    DifferentialRun(c, b, r, cancel);
  }

  /** A book's own listing mirrors it. */
  lemma {:induction false} ListMirrors(c: Config, b: Book)
    requires ValidConfig(c) && Sized(c, b)
    ensures Mirrors(c, b, Ref(RestingList(c, b), b.last))
  {
    hide RestingList, BookOf;
    ListingRoundTrip(c, b);
  }

  lemma {:induction false} OutOfTurnParts(c: Config, b: Book, m: Command)
    requires ValidConfig(c) && Sized(c, b) && OutOfTurn(c, b, m)
    ensures Parts(c, b, m)
  {}

  /** A limit order on a book with room consults no preflight. */
  lemma {:induction false} NoneFull(c: Config, b: Book, m: Command)
    requires ValidConfig(c) && Sized(c, b) && m.orderType.Limit? && Resting(b) < c.maximumOrders
    ensures !Diverges(c, b, m)
  {}

  lemma {:induction false} DatedIsQueued(b: Book)
    requires Dated(b)
    ensures Queued(b)
  {}

  lemma {:induction false} OneStep(c: Config, b: Book, r: Ref, m: Command)
    requires ValidConfig(c) && Sized(c, b)
    ensures Run(c, b, [m]).book == Ladder.Process(c, b, m).book
  {
    hide Run, RefRun, Ladder.Process, RefProcess;
    NothingRun(c, b, r);
    RunsExtend(c, b, r, [m]);
    assert [m][..0] == [];
  }
}
