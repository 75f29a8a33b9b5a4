/** The order book: arrays, links, bitmaps, free stack and id index, changed in place. */
module Engine {
  import opened Types
  import opened Ladder
  import opened Matching
  import opened Invariants
  import opened Runs
  import opened Bitmap
  import opened FixedIndex
  import opened Rep
  import opened RepOps
  import opened Recovery
  import Answers
  import Reference

  /** The bitmap scan finds the best nonempty rank. */
  lemma {:induction false} BestOfSide(c: Config, r: BookRep, last: u64, s: Side, best: Option<nat>)
    requires SidesOk(c, r)
    requires var bits := Part(r, s).bits;
             match best
             case None => forall i: nat | i / WORD < |bits| :: !Active(bits, i)
             case Some(k) =>
               && k / WORD < |bits| && Active(bits, k)
               && forall i: nat | (if s.Sell? then i < k else i > k) && i / WORD < |bits| :: !Active(bits, i)
    ensures var ls := Levels(Abstract(c, r, last), s);
            match best
            case None => EmptyRanks(ls, s, 0, PriceCount(c))
            case Some(k) => k < PriceCount(c) && ls[k] != [] && EmptyRanks(ls, s, 0, Slot(s, k, PriceCount(c)))
  {
    hide Active, Chain;
    PartOk(c, r, s);
    var n := PriceCount(c);
    assert forall i: nat | i < n :: i / WORD < |Part(r, s).bits|;
  }

  lemma {:induction false} Sizes(c: Config, r: BookRep)
    requires RepOk(c, r)
    ensures ValidConfig(c) && |r.nodes| == c.maximumOrders
    ensures |r.bid.levels| == PriceCount(c) && |r.bid.queues| == PriceCount(c)
            && |r.bid.bits| == (PriceCount(c) + 63) / 64
    ensures |r.ask.levels| == PriceCount(c) && |r.ask.queues| == PriceCount(c)
            && |r.ask.bits| == (PriceCount(c) + 63) / 64
    ensures |r.index| + |r.free| == |r.nodes|
  {
    hide FreeOk, IndexOk, Resting;
  }

  /** Everything add_resting relies on, and what it achieves. */
  lemma {:induction false} Addable(c: Config, r: BookRep, n: Node, last: u64)
    requires RepOk(c, r) && r.free != [] && ValidPrice(c, n.price) && n.id !in r.index
    ensures ValidConfig(c) && |r.nodes| == c.maximumOrders && |r.index| < c.maximumOrders
    ensures |r.bid.levels| == |r.ask.levels| && |r.bid.bits| == |r.ask.bits|
    ensures var i := PriceIndex(c, n.price);
            && i < PriceCount(c) && CanAdd(r, n.side, i)
            && LevelAppend(Part(r, n.side).levels[i], Last(r.free), n.remaining).count
              == Part(r, n.side).levels[i].count + 1
            && RepOk(c, Add(r, n.side, i, n)) && |Add(r, n.side, i, n).free| == |r.free| - 1
            && Abstract(c, Add(r, n.side, i, n), last)
               == Append(Abstract(c, r, last), n.side, i, Order(n.id, n.remaining, n.priority))
  {
    hide RepOk, Abstract, Append, Add;
    Sizes(c, r);
    IndexOfPrice(c, n.price);
    AddOk(c, r, n.side, PriceIndex(c, n.price), n, last);
    AddFields(r, n.side, PriceIndex(c, n.price), n);
  }

  /** Everything remove_node relies on, and what it achieves. */
  lemma {:induction false} Removable(c: Config, r: BookRep, p: Place, last: u64)
    requires RepOk(c, r) && Seats(r, p)
    ensures ValidConfig(c) && CanRemove(r, p) && |r.nodes| == c.maximumOrders && Seat(r, p) < |r.nodes|
    ensures |r.bid.levels| == |r.ask.levels| && |r.bid.bits| == |r.ask.bits|
    ensures var n := r.nodes[Seat(r, p)];
            && n.side == p.side && ValidPrice(c, n.price) && PriceIndex(c, n.price) == p.index && n.id in r.index
    ensures RepOk(c, Drop(r, p)) && |Drop(r, p).free| == |r.free| + 1 && Drop(r, p).index.Keys <= r.index.Keys
    ensures Holds(Abstract(c, r, last), p) && Abstract(c, Drop(r, p), last) == Remove(Abstract(c, r, last), p)
  {
    hide SideOk, FreeOk, Abstract, Remove, Drop, Live, Resting;
    Sizes(c, r);
    SeatLinked(c, r, p);
    PriceOfIndex(c, p.index);
    RemoveOk(c, r, p, last);
    DropFields(r, p);
  }

  /** A level's count and total are those of its FIFO. */
  lemma {:induction false} LevelFacts(c: Config, r: BookRep, last: u64, s: Side)
    requires SidesOk(c, r)
    ensures |Part(r, s).levels| == PriceCount(c) == |Levels(Abstract(c, r, last), s)|
    ensures forall i | 0 <= i < PriceCount(c) ::
              && Part(r, s).levels[i].count == |Levels(Abstract(c, r, last), s)[i]|
              && Part(r, s).levels[i].total == Shown(Levels(Abstract(c, r, last), s)[i])
  {
    hide Active, Shown;
    PartOk(c, r, s);
    forall i | 0 <= i < PriceCount(c)
      ensures Part(r, s).levels[i].count == |Levels(Abstract(c, r, last), s)[i]|
      ensures Part(r, s).levels[i].total == Shown(Levels(Abstract(c, r, last), s)[i])
    {
      assert Chain(r.nodes, Part(r, s).levels[i], Part(r, s).queues[i], s, IndexPrice(c, i));
    }
  }

  lemma {:induction false} ShownDepthGrows(ls: seq<Level>, s: Side, a: nat, b: nat)
    requires a <= b <= |ls|
    ensures ShownDepth(ls, s, a) <= ShownDepth(ls, s, b)
    ensures EmptyRanks(ls, s, a, b) ==> ShownDepth(ls, s, a) == ShownDepth(ls, s, b)
  {
    if a < b { ShownDepthGrows(ls, s, a, b - 1); }
  }

  lemma {:induction false} ShownDepthStep(ls: seq<Level>, s: Side, r: nat)
    requires r < |ls|
    ensures ShownDepth(ls, s, r + 1) == ShownDepth(ls, s, r) + Shown(ls[Slot(s, r, |ls|)])
    ensures ShownDepth(ls, s, 0) == 0
  {}

  /** Trading with the head of a level, before and after its removal when nothing is left. */
  lemma {:induction false} Tradable(c: Config, r: BookRep, s: Side, i: nat, last: u64)
    requires RepOk(c, r) && ValidConfig(c) && i < PriceCount(c) && Levels(Abstract(c, r, last), s)[i] != []
    ensures |r.nodes| == c.maximumOrders && i < |Part(r, s).levels| && |r.bid.levels| == |r.ask.levels|
    ensures Seats(r, Place(s, i, 0)) && Part(r, s).levels[i].head == Seat(r, Place(s, i, 0)) < |r.nodes|
    ensures var n, o := r.nodes[Seat(r, Place(s, i, 0))], Levels(Abstract(c, r, last), s)[i][0];
            n.id == o.id && n.remaining == o.qty && n.price == IndexPrice(c, i)
  {
    hide FreeOk, IndexOk, Active, Resting;
    SeatOrder(c, r, last, Place(s, i, 0));
    SeatLinked(c, r, Place(s, i, 0));
  }

  lemma {:induction false} HeadTraded(c: Config, r: BookRep, s: Side, i: nat, last: u64, t: u64)
    requires RepOk(c, r) && CanTrade(r, s, i, t)
    ensures RepOk(c, Trim(r, s, i, t)) && Seats(Trim(r, s, i, t), Place(s, i, 0))
    ensures |Trim(r, s, i, t).free| == |r.free| && Trim(r, s, i, t).index == r.index
    ensures Seat(Trim(r, s, i, t), Place(s, i, 0)) == Seat(r, Place(s, i, 0))
    ensures var b, b' := Abstract(c, r, last), Abstract(c, Trim(r, s, i, t), last);
            && i < |Levels(b, s)| && Levels(b, s)[i] != [] && t <= Levels(b, s)[i][0].qty
            && var l := Levels(b, s)[i];
               && (t < l[0].qty ==> b' == WithLevels(b, s, Levels(b, s)[i := TradeHead(l, t)]))
               && (t == l[0].qty ==> Holds(b', Place(s, i, 0))
                                     && Remove(b', Place(s, i, 0))
                                       == WithLevels(b, s, Levels(b, s)[i := TradeHead(l, t)]))
  {
    hide FreeOk, IndexOk, SideOk, Abstract, Trim, Resting;
    TrimOk(c, r, s, i, t);
    TrimSides(c, r, s, i, t, last);
    TrimFields(r, s, i, t);
    var b := Abstract(c, r, last);
    var ls, l := Levels(b, s), Levels(b, s)[i];
    var l' := l[0 := l[0].(qty := l[0].qty - t)];
    assert RemoveAt(l', 0) == l[1..];
    assert l' == [l[0].(qty := l[0].qty - t)] + l[1..];
    assert ls[i := l'][i := l[1..]] == ls[i := l[1..]];
  }

  /** What is done and what is still to sweep add up to the whole sweep. */
  ghost predicate Progress(c: Config, m: Command, b: Book, w: Swept, cur: Book, remaining: u64, es: seq<Event>) {
    && ValidConfig(c) && Sized(c, b) && Sized(c, cur) && (m.orderType.Market? || ValidPrice(c, m.price))
    && var opp := Opposite(m.side);
       var rest := Sweep(Levels(cur, opp), opp, 0, Reach(c, m), remaining);
       && cur == WithLevels(b, opp, Levels(cur, opp))
       && w.levels == rest.levels && w.left == rest.left
       && (forall k | 0 <= k < |w.fills| :: w.fills[k].index < PriceCount(c))
       && Trades(c, m, w.fills) == es + Trades(c, m, rest.fills)
  }

  lemma {:induction false} MatchFilled(c: Config, m: Command, b: Book, w: Swept, cur: Book, es: seq<Event>)
    requires Progress(c, m, b, w, cur, 0, es)
    ensures w.levels == Levels(cur, Opposite(m.side)) && w.left == 0 && es == Trades(c, m, w.fills) && |es| == |w.fills|
    ensures cur == WithLevels(b, Opposite(m.side), w.levels)
  {
    hide Reach;
    SweepStops(Levels(cur, Opposite(m.side)), Opposite(m.side), Reach(c, m), 0);
  }

  lemma {:induction false} ReachIsRank(c: Config, m: Command, i: nat)
    requires ValidConfig(c) && i < PriceCount(c) && (m.orderType.Market? || ValidPrice(c, m.price))
    ensures Crosses(c, m.side, EffectiveLimit(c, m), i) <==> Slot(Opposite(m.side), i, PriceCount(c)) < Reach(c, m)
  {
    IndexPriceInRange(c, i);
    WithinReach(c, m, i);
  }

  lemma {:induction false} MatchEnds(c: Config, m: Command, b: Book, w: Swept, cur: Book, remaining: u64,
                                     es: seq<Event>,
                                     best: Option<nat>)
    requires Progress(c, m, b, w, cur, remaining, es)
    requires var opp, n := Opposite(m.side), PriceCount(c);
             match best
             case None => EmptyRanks(Levels(cur, opp), opp, 0, n)
             case Some(k) => k < n && EmptyRanks(Levels(cur, opp), opp, 0, Slot(opp, k, n))
                             && !Crosses(c, m.side, EffectiveLimit(c, m), k)
    ensures w.levels == Levels(cur, Opposite(m.side)) && w.left == remaining
    ensures es == Trades(c, m, w.fills) && |es| == |w.fills| && cur == WithLevels(b, Opposite(m.side), w.levels)
  {
    hide Reach, Crosses;
    if best.Some? { ReachIsRank(c, m, best.value); }
    SweepStops(Levels(cur, Opposite(m.side)), Opposite(m.side), Reach(c, m), remaining);
  }

  lemma {:induction false} MatchAdvances(c: Config, m: Command, b: Book, w: Swept, cur: Book, remaining: u64,
                                         es: seq<Event>,
                                         i: nat, t: u64)
    requires Progress(c, m, b, w, cur, remaining, es) && remaining > 0
    requires var opp, n, ls := Opposite(m.side), PriceCount(c), Levels(cur, Opposite(m.side));
             && i < n && ls[i] != [] && EmptyRanks(ls, opp, 0, Slot(opp, i, n))
             && Crosses(c, m.side, EffectiveLimit(c, m), i)
             && t == if remaining < ls[i][0].qty then remaining else ls[i][0].qty
    ensures var opp, ls := Opposite(m.side), Levels(cur, Opposite(m.side));
            var cur' := WithLevels(cur, opp, ls[i := TradeHead(ls[i], t)]);
            && Progress(c, m, b, w, cur', remaining - t, es
              + [Emit(Trade, m, ls[i][0].id, IndexPrice(c, i), t, NoReason)])
            && (CountTo(Levels(cur', opp), |ls|) < CountTo(ls, |ls|)
                || (CountTo(Levels(cur', opp), |ls|) == CountTo(ls, |ls|) && t == remaining))
  {
    hide Reach, Crosses, EffectiveLimit, Sweep, IndexPrice, CountTo;
    var opp, ls := Opposite(m.side), Levels(cur, Opposite(m.side));
    ReachIsRank(c, m, i);
    SweepStep(ls, opp, Slot(opp, i, |ls|), Reach(c, m), remaining);
    CountUpdate(ls, |ls|, i, TradeHead(ls[i], t));
    var again := Sweep(ls[i := TradeHead(ls[i], t)], opp, 0, Reach(c, m), remaining - t);
    var e := Emit(Trade, m, ls[i][0].id, IndexPrice(c, i), t, NoReason);
    TradesCons(c, m, Fill(i, ls[i][0].id, t), again.fills);
    assert es + ([e] + Trades(c, m, again.fills)) == (es + [e]) + Trades(c, m, again.fills);
  }

  lemma {:induction false} FreeIsRoom(c: Config, r: BookRep, last: u64)
    requires RepOk(c, r)
    ensures Resting(Abstract(c, r, last)) + |r.free| == c.maximumOrders
  {
    hide SideOk, FreeOk, IndexOk;
  }

  /** The counters an execution moves: one trade per fill, nothing rejected. */
  lemma {:induction false} ExecuteCounts(c: Config, b: Book, m: Command)
    requires ValidConfig(c) && Sized(c, b) && (m.orderType.Market? || ValidPrice(c, m.price))
    ensures var opp := Opposite(m.side);
            var w := Sweep(Levels(b, opp), opp, 0, Reach(c, m), m.quantity);
            && CountKind(Execute(c, b, m).events, Trade) == |w.fills|
            && CountKind(Execute(c, b, m).events, Rejected) == 0
  {
    hide Sweep, Reach, ValidPrice;
    var opp := Opposite(m.side);
    var w := Sweep(Levels(b, opp), opp, 0, Reach(c, m), m.quantity);
    var trades, es := Trades(c, m, w.fills), Execute(c, b, m).events;
    CountAllTrades(trades);
    NoRejections(trades);
    if w.left > 0 { assert es[..|es| - 1] == trades; }
  }

  lemma {:induction false} NoRejections(es: seq<Event>)
    requires AllTrades(es)
    ensures CountKind(es, Rejected) == 0
  {
    if es != [] { NoRejections(es[..|es| - 1]); }
  }

  /** The sweep an order sets off. */
  function Crossing(c: Config, b: Book, m: Command): (w: Swept)
    requires ValidConfig(c) && Sized(c, b) && (m.orderType.Market? || ValidPrice(c, m.price))
    ensures |w.levels| == PriceCount(c) && forall k | 0 <= k < |w.fills| :: w.fills[k].index < PriceCount(c)
  {
    var opp := Opposite(m.side);
    Sweep(Levels(b, opp), opp, 0, Reach(c, m), m.quantity)
  }

  /** The free stack of a new arena: node 0 on top. */
  method FreeStack(m: u32) returns (stack: seq<u32>)
    ensures |stack| == m && forall k | 0 <= k < m :: stack[k] == m - 1 - k
  {
    stack := [];
    var i: nat := m;
    while i > 0
      invariant 0 <= i <= m && |stack| == m - i
      invariant forall k | 0 <= k < |stack| :: stack[k] == m - 1 - k
    {
      stack := stack + [i - 1];
      i := i - 1;
    }
  }

  /** Levels and activity words of one side, all empty. */
  method NewSide(n: nat) returns (levels: array<PriceLevel>, bits: array<u64>)
    ensures fresh(levels) && fresh(bits) && Blank(n, SideRep(levels[..], bits[..], seq(n, _ => [])))
  {
    levels := new PriceLevel[n](_ => BARE);
    bits := new u64[(n + 63) / 64](_ => 0);
  }

  predicate Blank(n: nat, s: SideRep) {
    && |s.levels| == n && (forall i | 0 <= i < n :: s.levels[i] == BARE)
    && |s.bits| == (n + 63) / 64 && (forall i | 0 <= i < |s.bits| :: s.bits[i] == 0)
    && |s.queues| == n && (forall i | 0 <= i < n :: s.queues[i] == [])
  }

  /** What the constructor lays out, element by element, is the empty representation. */
  lemma {:induction false} NewIsEmpty(c: Config, r: BookRep)
    requires ValidConfig(c) && Blank(PriceCount(c), r.bid) && Blank(PriceCount(c), r.ask) && r.index == map[]
    requires |r.nodes| == c.maximumOrders && forall i | 0 <= i < |r.nodes| :: r.nodes[i] == BLANK
    requires |r.free| == c.maximumOrders && forall k | 0 <= k < |r.free| :: r.free[k] == c.maximumOrders - 1 - k
    ensures r == EmptyRep(c)
  {
    hide PriceCount;
    var n, t := PriceCount(c), EmptyRep(c);
    assert r.bid.levels == t.bid.levels && r.bid.bits == t.bid.bits && r.bid.queues == t.bid.queues;
    assert r.ask.levels == t.ask.levels && r.ask.bits == t.ask.bits && r.ask.queues == t.ask.queues;
    assert r.nodes == t.nodes && r.free == t.free;
  }

  class OrderBook {
    const config: Config
    const bids: array<PriceLevel>
    const asks: array<PriceLevel>
    const bidBits: array<u64>
    const askBits: array<u64>
    const nodes: array<Node>
    const index: FixedOrderIndex
    var free: seq<u32>
    var lastSequence: u64
    var commands: u64
    var trades: u64
    var rejected: u64
    var resting: nat

    /** The node numbers of each FIFO. */
    ghost var bidQueues: seq<seq<u32>>
    ghost var askQueues: seq<seq<u32>>

    ghost function Footprint(): set<object> {
      {this, bids, asks, bidBits, askBits, nodes, index, index.entries}
    }

    ghost function Repr(): BookRep
      reads this, bids, asks, bidBits, askBits, nodes, index, index.entries
      requires index.Linked()
    {
      BookRep(nodes[..], SideRep(bids[..], bidBits[..], bidQueues), SideRep(asks[..], askBits[..], askQueues),
              free, index.Map())
    }

    ghost predicate Valid()
      reads this, bids, asks, bidBits, askBits, nodes, index, index.entries
    {
      && bids != asks && bidBits != askBits
      && index.Valid() && RepOk(config, Repr())
      && resting + |free| == config.maximumOrders
      && index.entries.Length > config.maximumOrders
    }

    /** The ladder the book holds. */
    ghost function Value(): Book
      reads this, bids, asks, bidBits, askBits, nodes, index, index.entries
      requires Valid()
    {
      Abstract(config, Repr(), lastSequence)
    }

    constructor (config: Config, hash: Hash)
      requires ValidConfig(config)
      ensures Valid() && Value() == Empty(config) && this.config == config
      ensures commands == 0 && trades == 0 && rejected == 0 && resting == 0 && lastSequence == 0
      ensures fresh(Footprint())
    {
      hide RepOk, Abstract, Empty, EmptyRep, EmptySide, Indexed, Chained, Contents, PriceCount, Blank;
      var n, m := PriceCount(config), config.maximumOrders;
      var stack := FreeStack(m);
      this.config := config;
      var buys, buyBits := NewSide(n);
      var sells, sellBits := NewSide(n);
      bids, bidBits, asks, askBits := buys, buyBits, sells, sellBits;
      nodes := new Node[m](_ => BLANK);
      index := new FixedOrderIndex(m, hash);
      lastSequence, commands, trades, rejected, resting := 0, 0, 0, 0, 0;
      free := stack;
      bidQueues, askQueues := seq(n, _ => []), seq(n, _ => []);
      new;
      EmptyRepOk(config);
      NewIsEmpty(config, Repr());
    }

    /** The lowest ask or the highest bid. */
    method BestIndex(side: Side) returns (r: Option<nat>)
      requires Valid()
      ensures r.None? ==> EmptyRanks(Levels(Value(), side), side, 0, PriceCount(config))
      ensures r.Some? ==> && r.value < PriceCount(config) && Levels(Value(), side)[r.value] != []
                          && EmptyRanks(Levels(Value(), side), side, 0, Slot(side, r.value, PriceCount(config)))
    {
      hide IndexOk, FreeOk;
      if side.Sell? {
        r := Lowest(askBits);
      } else {
        r := Highest(bidBits);
      }
      BestOfSide(config, Repr(), lastSequence, side, r);
    }

    method SetActive(side: Side, i: nat)
      requires i / WORD < bidBits.Length == askBits.Length && bidBits != askBits
      modifies if side.Buy? then bidBits else askBits
      ensures var bits := if side.Buy? then bidBits else askBits;
              bits[..] == old(bits[..])[i / WORD := SetWord(old(bits[i / WORD]), i % WORD)]
    {
      hide SetWord;
      var bits := if side.Buy? then bidBits else askBits;
      bits[i / WORD] := SetWord(bits[i / WORD], i % WORD);
    }

    method ClearActive(side: Side, i: nat)
      requires i / WORD < bidBits.Length == askBits.Length && bidBits != askBits
      modifies if side.Buy? then bidBits else askBits
      ensures var bits := if side.Buy? then bidBits else askBits;
              bits[..] == old(bits[..])[i / WORD := ClearWord(old(bits[i / WORD]), i % WORD)]
    {
      hide ClearWord;
      var bits := if side.Buy? then bidBits else askBits;
      bits[i / WORD] := ClearWord(bits[i / WORD], i % WORD);
    }

    /** The linking half of add_resting: node x becomes the tail of a level. */
    method LinkAtTail(side: Side, i: nat, x: u32, n: Node)
      requires i < bids.Length == asks.Length && x < nodes.Length
      requires n.previous == INVALID && n.next == INVALID
      requires var level := (if side.Buy? then bids else asks)[i];
               (level.tail != INVALID ==> level.tail < nodes.Length) && level.count + 1 < 0x1_0000_0000
      modifies nodes, if side.Buy? then bids else asks
      ensures var levels := if side.Buy? then bids else asks;
              && nodes[..] == LinkTail(old(nodes[..]), old(levels[i].tail), x, n)
              && levels[..] == old(levels[..])[i := LevelAppend(old(levels[i]), x, n.remaining)]
    {
      hide Wrap;
      var levels := if side.Buy? then bids else asks;
      var level := levels[i];
      nodes[x] := n.(previous := level.tail);
      if level.tail != INVALID {
        nodes[level.tail] := nodes[level.tail].(next := x);
      } else {
        level := level.(head := x);
      }
      levels[i] := PriceLevel(Wrap(level.total + n.remaining), level.head, x, level.count + 1);
    }

    /** Linking and, for a level that was empty, activating it. */
    method LinkLevel(side: Side, i: nat, x: u32, n: Node)
      requires bids != asks && bidBits != askBits && bids.Length == asks.Length && bidBits.Length == askBits.Length
      requires i < bids.Length && i / WORD < bidBits.Length && x < nodes.Length
      requires n.previous == INVALID && n.next == INVALID
      requires var level := (if side.Buy? then bids else asks)[i];
               (level.tail != INVALID ==> level.tail < nodes.Length) && level.count + 1 < 0x1_0000_0000
      modifies nodes, if side.Buy? then bids else asks, if side.Buy? then bidBits else askBits
      ensures var levels, bits := if side.Buy? then bids else asks, if side.Buy? then bidBits else askBits;
              var level := LevelAppend(old(levels[i]), x, n.remaining);
              && nodes[..] == LinkTail(old(nodes[..]), old(levels[i].tail), x, n)
              && levels[..] == old(levels[..])[i := level]
              && bits[..] == if level.count == 1
                             then old(bits[..])[i / WORD := SetWord(old(bits[i / WORD]), i % WORD)]
                             else old(bits[..])
    {
      hide SetWord, LinkTail, Wrap;
      LinkAtTail(side, i, x, n);
      if (if side.Buy? then bids else asks)[i].count == 1 {
        SetActive(side, i);
      }
    }

    /** add_resting's changes, as a change of representation. */
    method Link(side: Side, i: nat, n: Node)
      requires bids != asks && bidBits != askBits && index.Valid() && CanAdd(Repr(), side, i)
      requires bids.Length == asks.Length && bidBits.Length == askBits.Length
      requires n.previous == INVALID && n.next == INVALID
      requires n.id !in index.Map() && |index.Map()| < index.entries.Length
      modifies this`free, this`bidQueues, this`askQueues
      modifies bids, asks, bidBits, askBits, nodes, index.entries, index`slotOf
      ensures index.Valid() && Repr() == Add(old(Repr()), side, i, n)
    {
      hide SetWord, LinkTail, LevelAppend, Indexed, Chained, Contents, Wrap;
      RoomIsVacancy(index.entries[..], index.slotOf);
      var x := free[|free| - 1];
      free := free[..|free| - 1];
      LinkLevel(side, i, x, n);
      if side.Buy? {
        bidQueues := bidQueues[i := bidQueues[i] + [x]];
      } else {
        askQueues := askQueues[i := askQueues[i] + [x]];
      }
      assert index.entries[..] == old(index.entries[..]);
      var ok, at := index.Insert(n.id, x);
      assert ok;
    }

    /** Append a resting order: node from the free stack, linked at the tail, level and bitmap updated, id indexed. */
    method AddResting(id: u64, side: Side, price: Price, quantity: u64, priority: u64) returns (es: seq<Event>)
      requires Valid() && free != [] && ValidPrice(config, price) && id !in index.Map()
      modifies this`free, this`resting, this`bidQueues, this`askQueues
      modifies bids, asks, bidBits, askBits, nodes, index.entries, index`slotOf
      ensures Valid() && PriceIndex(config, price) < PriceCount(config)
      ensures Value() == Append(old(Value()), side, PriceIndex(config, price), Order(id, quantity, priority))
      ensures es == [Event(priority, Rested, side, NoReason, id, 0, price, quantity)] && |free| == old(|free|) - 1
    {
      hide RepOk, Abstract, Append, Add, CanAdd, Indexed, Chained, Contents, PriceIndex, ValidPrice;
      Sizes(config, Repr());
      var n := Node(id, price, quantity, priority, INVALID, INVALID, side);
      Addable(config, Repr(), n, lastSequence);
      Link(side, PriceIndex(config, price), n);
      Sizes(config, Repr());
      resting := resting + 1;
      es := [Event(priority, Rested, side, NoReason, id, 0, price, quantity)];
    }

    /** The unlinking half of remove_node. */
    method UnlinkFromLevel(side: Side, i: nat, x: u32)
      requires i < bids.Length == asks.Length && x < nodes.Length && (if side.Buy? then bids else asks)[i].count > 0
      requires nodes[x].previous != INVALID ==> nodes[x].previous < nodes.Length
      requires nodes[x].next != INVALID ==> nodes[x].next < nodes.Length
      modifies nodes, if side.Buy? then bids else asks
      ensures var levels := if side.Buy? then bids else asks;
              && nodes[..] == Unlink(old(nodes[..]), x)
              && levels[..] == old(levels[..])[i := LevelCut(old(levels[i]), old(nodes[x]))]
    {
      hide Wrap;
      var levels := if side.Buy? then bids else asks;
      var node, level := nodes[x], levels[i];
      if node.previous != INVALID {
        nodes[node.previous] := nodes[node.previous].(next := node.next);
      } else {
        level := level.(head := node.next);
      }
      if node.next != INVALID {
        nodes[node.next] := nodes[node.next].(previous := node.previous);
      } else {
        level := level.(tail := node.previous);
      }
      levels[i] := PriceLevel(Wrap(level.total - node.remaining), level.head, level.tail, level.count - 1);
      nodes[x] := BLANK;
    }

    /** Unlinking and, for a level that becomes empty, deactivating it. */
    method UnlinkLevel(side: Side, i: nat, x: u32)
      requires bids != asks && bidBits != askBits && bids.Length == asks.Length && bidBits.Length == askBits.Length
      requires i < bids.Length && i / WORD < bidBits.Length && x < nodes.Length
      requires (if side.Buy? then bids else asks)[i].count > 0
      requires nodes[x].previous != INVALID ==> nodes[x].previous < nodes.Length
      requires nodes[x].next != INVALID ==> nodes[x].next < nodes.Length
      modifies nodes, if side.Buy? then bids else asks, if side.Buy? then bidBits else askBits
      ensures var levels, bits := if side.Buy? then bids else asks, if side.Buy? then bidBits else askBits;
              var level := LevelCut(old(levels[i]), old(nodes[x]));
              && nodes[..] == Unlink(old(nodes[..]), x)
              && levels[..] == old(levels[..])[i := level]
              && bits[..] == if level.count == 0
                             then old(bits[..])[i / WORD := ClearWord(old(bits[i / WORD]), i % WORD)]
                             else old(bits[..])
    {
      hide ClearWord, Unlink, Wrap;
      UnlinkFromLevel(side, i, x);
      if (if side.Buy? then bids else asks)[i].count == 0 {
        ClearActive(side, i);
      }
    }

    /** remove_node's changes, as a change of representation. */
    method Detach(x: u32, ghost p: Place)
      requires bids != asks && bidBits != askBits && index.Valid() && CanRemove(Repr(), p) && Seat(Repr(), p) == x
      requires bids.Length == asks.Length && bidBits.Length == askBits.Length && ValidConfig(config)
      requires nodes[x].side == p.side && ValidPrice(config, nodes[x].price)
               && PriceIndex(config, nodes[x].price) == p.index
      modifies this`free, this`bidQueues, this`askQueues
      modifies bids, asks, bidBits, askBits, nodes, index.entries, index`slotOf
      ensures index.Valid() && Repr() == Drop(old(Repr()), p)
    {
      hide ClearWord, Unlink, LevelCut, Indexed, Chained, Contents, Wrap, ValidPrice, PriceIndex;
      var node := nodes[x];
      var i := PriceIndex(config, node.price);
      UnlinkLevel(node.side, i, x);
      if node.side.Buy? {
        bidQueues := bidQueues[i := Cut(bidQueues[i], p.pos)];
      } else {
        askQueues := askQueues[i := Cut(askQueues[i], p.pos)];
      }
      assert index.entries[..] == old(index.entries[..]);
      var ok := index.Erase(node.id);
      free := free + [x];
    }

    /** Remove the order at a place of the book. */
    method RemoveNode(x: u32, ghost p: Place)
      requires Valid() && Seats(Repr(), p) && Seat(Repr(), p) == x
      modifies this`free, this`resting, this`bidQueues, this`askQueues
      modifies bids, asks, bidBits, askBits, nodes, index.entries, index`slotOf
      ensures Valid() && Holds(old(Value()), p) && Value() == Remove(old(Value()), p)
      ensures |free| == |old(free)| + 1 && index.Map().Keys <= old(index.Map().Keys)
      ensures CanRemove(old(Repr()), p) && Repr() == Drop(old(Repr()), p)
    {
      hide RepOk, Abstract, Remove, Drop, CanRemove, Indexed, Chained, Contents, PriceIndex, ValidPrice, Holds;
      ghost var r := Repr();
      Removable(config, r, p, lastSequence);
      assert nodes[x] == r.nodes[x];
      Detach(x, p);
      Sizes(config, Repr());
      resting := resting - 1;
    }

    /** Take a traded quantity off the head node and its level. */
    method TrimHead(side: Side, i: nat, x: u32, t: u64)
      requires bids != asks && index.Linked() && CanTrade(Repr(), side, i, t) && x == Seat(Repr(), Place(side, i, 0))
      requires i < bids.Length == asks.Length
      modifies nodes, if side.Buy? then bids else asks
      ensures index.Linked() && Repr() == Trim(old(Repr()), side, i, t)
      ensures nodes[x].remaining == old(nodes[x].remaining) - t
    {
      hide Wrap, Indexed, Contents;
      var levels := if side.Buy? then bids else asks;
      nodes[x] := nodes[x].(remaining := nodes[x].remaining - t);
      levels[i] := levels[i].(total := Wrap(levels[i].total - t));
      assert index.entries[..] == old(index.entries[..]);
    }

    /** One round of the matching loop against level i. */
    method FillHead(side: Side, i: nat, remaining: u64) returns (traded: u64, contra: u64, price: Price)
      requires Valid() && remaining > 0 && i < PriceCount(config) && Levels(Value(), side)[i] != []
      modifies this`free, this`resting, this`bidQueues, this`askQueues, this`trades
      modifies bids, asks, bidBits, askBits, nodes, index.entries, index`slotOf
      ensures Valid() && trades == Next(old(trades))
      ensures |free| >= |old(free)| && index.Map().Keys <= old(index.Map().Keys)
      ensures var o := old(Levels(Value(), side)[i])[0];
              && traded == (if remaining < o.qty then remaining else o.qty) && contra == o.id
                && price == IndexPrice(config, i)
      ensures var ls := old(Levels(Value(), side));
              Value() == WithLevels(old(Value()), side, ls[i := TradeHead(ls[i], traded)])
    {
      hide RepOk, Abstract, Remove, Trim, Indexed, Chained, Contents, Holds, TradeHead;
      ghost var r := Repr();
      Sizes(config, r);
      Tradable(config, r, side, i, lastSequence);
      var levels := if side.Buy? then bids else asks;
      assert levels[i] == Part(r, side).levels[i];
      var x := levels[i].head;
      assert nodes[x] == r.nodes[x];
      traded := if remaining < nodes[x].remaining then remaining else nodes[x].remaining;
      contra, price := nodes[x].id, nodes[x].price;
      HeadTraded(config, r, side, i, lastSequence, traded);
      TrimHead(side, i, x, traded);
      trades := Next(trades);
      if nodes[x].remaining == 0 {
        RemoveNode(x, Place(side, i, 0));
      }
    }

    /** The matching loop: trade with the best opposite head until filled or out of reach. */
    method Match(m: Command, limit: Price) returns (remaining: u64, es: seq<Event>)
      requires Valid() && (m.orderType.Market? || ValidPrice(config, m.price)) && limit == EffectiveLimit(config, m)
      modifies this`free, this`resting, this`bidQueues, this`askQueues, this`trades
      modifies bids, asks, bidBits, askBits, nodes, index.entries, index`slotOf
      ensures Valid() && |free| >= |old(free)| && index.Map().Keys <= old(index.Map().Keys)
      ensures var opp := Opposite(m.side);
              var w := Crossing(config, old(Value()), m);
              && Value() == WithLevels(old(Value()), opp, w.levels) && remaining == w.left
              && es == Trades(config, m, w.fills) && trades == Advance(old(trades), |w.fills|)
    {
      hide RepOk, Abstract, Indexed, Chained, Contents, TradeHead, Reach, Sweep, EffectiveLimit, IndexPrice, Crosses;
      hide ValidPrice, CountTo;
      Sizes(config, Repr());
      var opp := Opposite(m.side);
      ghost var b, n := Value(), Reach(config, m);
      ghost var w := Sweep(Levels(b, opp), opp, 0, n, m.quantity);
      remaining, es := m.quantity, [];
      while remaining > 0
        invariant Valid() && Progress(config, m, b, w, Value(), remaining, es)
        invariant |free| >= |old(free)| && index.Map().Keys <= old(index.Map().Keys)
        invariant trades == Advance(old(trades), |es|)
        decreases CountTo(Levels(Value(), opp), |Levels(Value(), opp)|), remaining
      {
        ghost var cur := Value();
        var best := BestIndex(opp);
        if best.None? || !Crosses(config, m.side, limit, best.value) {
          MatchEnds(config, m, b, w, cur, remaining, es, best);
          break;
        }
        var traded, contra, price := FillHead(opp, best.value, remaining);
        MatchAdvances(config, m, b, w, cur, remaining, es, best.value, traded);
        remaining := remaining - traded;
        es := es + [Emit(Trade, m, contra, price, traded, NoReason)];
      }
      if remaining == 0 { MatchFilled(config, m, b, w, Value(), es); }
    }

    /** The preflight: do the displayed totals within the limit reach the quantity? Any limit, any quantity. */
    method CanFullyFill(side: Side, limit: Price, quantity: u64) returns (r: bool)
      requires Valid()
      ensures ValidConfig(config)
      ensures var opp, k := Opposite(side), RanksWithin(config, side, limit, 0);
              && k <= PriceCount(config)
              && (r <==> if quantity == 0 then !EmptyRanks(Levels(Value(), opp), opp, 0, k)
                         else ShownDepth(Levels(Value(), opp), opp, k) >= quantity)
    {
      hide SideOk, FreeOk, IndexOk, Abstract, ValidPrice, PriceIndex, Shown, ShownDepth, RanksWithin;
      var opp := Opposite(side);
      Sizes(config, Repr());
      LevelFacts(config, Repr(), lastSequence, opp);
      RanksBound(config, side, limit);
      var best := BestIndex(opp);
      var levels := if side.Buy? then asks else bids;
      assert levels[..] == Part(Repr(), opp).levels;
      assert Mirrored(levels[..], Levels(Value(), opp));
      r := ScanDepth(config, side, limit, quantity, levels, best, Levels(Value(), opp));
    }

    /** Matching, then resting or cancelling the remainder. */
    method Execute(m: Command) returns (es: seq<Event>)
      requires Valid() && (m.orderType.Market? || ValidPrice(config, m.price)) && m.orderId !in index.Map()
      requires var opp := Opposite(m.side);
               m.orderType.Limit? && free == [] ==>
                 ShownDepth(Levels(Value(), opp), opp, Reach(config, m)) >= m.quantity
      modifies this`free, this`resting, this`bidQueues, this`askQueues, this`trades
      modifies bids, asks, bidBits, askBits, nodes, index.entries, index`slotOf
      ensures Valid()
      ensures Value() == Ladder.Execute(config, old(Value()), m).book
      ensures es == Ladder.Execute(config, old(Value()), m).events
      ensures trades == Advance(old(trades), CountKind(es, Trade)) && CountKind(es, Rejected) == 0
    {
      hide RepOk, Abstract, Indexed, Chained, Contents, Reach, Sweep, ShownDepth, ValidPrice, EffectiveLimit,
        CountKind, Advance;
      Sizes(config, Repr());
      ghost var b, opp := Value(), Opposite(m.side);
      ExecuteCounts(config, b, m);
      Preflight(Levels(b, opp), opp, Reach(config, m), m.quantity);
      var remaining, traded := Match(m, EffectiveLimit(config, m));
      if remaining == 0 {
        es := traded;
      } else if m.orderType.Limit? {
        var rested := AddResting(m.orderId, m.side, m.price, remaining, m.sequence);
        es := traded + rested;
      } else {
        es := traded + [Emit(Cancelled, m, 0, m.price, remaining, NoReason)];
      }
    }

    /** The checks of a new order, in order; NoReason when it may execute. */
    method Admit(m: Command, replacement: bool) returns (reason: RejectReason)
      requires Valid()
      ensures reason == Admission(config, Value(), m, replacement)
    {
      hide RepOk, Abstract, Indexed, Chained, Contents, ShownDepth, Resting, Resident, PriceIndex, ValidPrice,
        RanksWithin, EmptyRanks;
      Sizes(config, Repr());
      RepResident(config, Repr(), lastSequence, m.orderId);
      FreeIsRoom(config, Repr(), lastSequence);
      if m.quantity == 0 {
        return InvalidQuantity;
      }
      if !m.orderType.Market? && !ValidPrice(config, m.price) {
        return InvalidPrice;
      }
      if !replacement {
        var found := index.Find(m.orderId);
        if found.Some? { return DuplicateOrderId; }
      }
      var limit := EffectiveLimit(config, m);
      ReachIsRanks(config, m);
      if m.orderType.FillOrKill? {
        var fillable := CanFullyFill(m.side, limit, m.quantity);
        if !fillable { return WouldNotFill; }
      }
      if free == [] && m.orderType.Limit? {
        var fillable := CanFullyFill(m.side, limit, m.quantity);
        if !fillable { return BookCapacity; }
      }
      return NoReason;
    }

    method Submit(m: Command, replacement: bool) returns (es: seq<Event>)
      requires Valid() && (replacement ==> m.orderId !in index.Map())
      modifies this`free, this`resting, this`bidQueues, this`askQueues, this`trades, this`rejected
      modifies bids, asks, bidBits, askBits, nodes, index.entries, index`slotOf
      ensures Valid()
      ensures Value() == Ladder.Submit(config, old(Value()), m, replacement).book
      ensures es == Ladder.Submit(config, old(Value()), m, replacement).events
      ensures trades == Advance(old(trades), CountKind(es, Trade))
      ensures rejected == Advance(old(rejected), CountKind(es, Rejected))
    {
      hide RepOk, Abstract, Indexed, Chained, Contents, ShownDepth, Resting, Resident, ValidPrice, Reach,
        Ladder.Execute;
      Sizes(config, Repr());
      var reason := Admit(m, replacement);
      if reason != NoReason {
        rejected := Next(rejected);
        es := [Reject(m, reason)];
        RejectionCounts(m, reason);
        return;
      }
      AdmissionOpens(config, Repr(), lastSequence, m, replacement);
      var executed := Execute(m);
      es := executed;
      assert [] + executed == executed;
      if !replacement {
        AcceptedCounts(m, executed);
        es := [Emit(Accepted, m, 0, 0, 0, NoReason)] + executed;
      }
    }

    /** Look an id up: its node and, for the proof, its place. */
    method Lookup(id: u64) returns (found: Option<u32>)
      requires Valid()
      ensures found.Some? <==> Resident(Value(), id)
      ensures found.None? ==> id !in index.Map()
      ensures found.Some? ==>
                var p := Locate(Value(), id);
                && found.value < nodes.Length && Seats(Repr(), p) && Seat(Repr(), p) == found.value
                && p.index < PriceCount(config)
                && nodes[found.value].side == p.side && nodes[found.value].price == IndexPrice(config, p.index)
                && nodes[found.value].remaining == OrderAt(Value(), p).qty
    {
      hide SideOk, FreeOk, IndexOk, Abstract, Indexed, Chained, Contents, Resident, Holds;
      Sizes(config, Repr());
      RepResident(config, Repr(), lastSequence, id);
      found := index.Find(id);
      if found.Some? {
        ghost var p := Locate(Value(), id);
        SeatOrder(config, Repr(), lastSequence, p);
        SeatLinked(config, Repr(), p);
        assert nodes[found.value] == Repr().nodes[found.value];
      }
    }

    method CancelOrder(m: Command, replacing: bool) returns (es: seq<Event>)
      requires Valid()
      modifies this`free, this`resting, this`bidQueues, this`askQueues, this`rejected
      modifies bids, asks, bidBits, askBits, nodes, index.entries, index`slotOf
      ensures Valid()
      ensures Value() == Ladder.CancelOrder(config, old(Value()), m).book
      ensures replacing && Resident(old(Value()), m.orderId) ==> es == [] && m.orderId !in index.Map()
      ensures !(replacing && Resident(old(Value()), m.orderId))
              ==> es == Ladder.CancelOrder(config, old(Value()), m).events
      ensures rejected == Advance(old(rejected), CountKind(es, Rejected)) && CountKind(es, Trade) == 0
    {
      hide RepOk, Abstract, Indexed, Chained, Contents, Resident, Holds, Remove;
      Sizes(config, Repr());
      var found := Lookup(m.orderId);
      if found.None? {
        rejected := Next(rejected);
        es := [Reject(m, UnknownOrderId)];
        RejectionCounts(m, UnknownOrderId);
        return;
      }
      var node := nodes[found.value];
      ghost var p := Locate(Value(), m.orderId);
      LocateIndexed(config, Repr(), lastSequence, m.orderId);
      RemoveNode(found.value, p);
      es := if replacing then [] else [Emit(Cancelled, m, 0, node.price, node.remaining, NoReason)];
      OtherCounts(Emit(Cancelled, m, 0, node.price, node.remaining, NoReason), []);
      NoneOfKind(Trade);
      NoneOfKind(Rejected);
      assert [Emit(Cancelled, m, 0, node.price, node.remaining, NoReason)] + []
             == [Emit(Cancelled, m, 0, node.price, node.remaining, NoReason)];
    }

    method ReplaceOrder(m: Command) returns (es: seq<Event>)
      requires Valid()
      modifies this`free, this`resting, this`bidQueues, this`askQueues, this`trades, this`rejected
      modifies bids, asks, bidBits, askBits, nodes, index.entries, index`slotOf
      ensures Valid()
      ensures Value() == Ladder.ReplaceOrder(config, old(Value()), m).book
      ensures es == Ladder.ReplaceOrder(config, old(Value()), m).events
      ensures trades == Advance(old(trades), CountKind(es, Trade))
      ensures rejected == Advance(old(rejected), CountKind(es, Rejected))
    {
      hide RepOk, Abstract, Indexed, Chained, Contents, Resident, Holds, Remove, Ladder.Submit, ValidPrice;
      Sizes(config, Repr());
      var found := Lookup(m.orderId);
      if found.None? {
        rejected := Next(rejected);
        es := [Reject(m, UnknownOrderId)];
        RejectionCounts(m, UnknownOrderId);
        return;
      }
      if m.quantity == 0 || !ValidPrice(config, m.price) {
        var reason := if m.quantity == 0 then InvalidQuantity else InvalidPrice;
        rejected := Next(rejected);
        es := [Reject(m, reason)];
        RejectionCounts(m, reason);
        return;
      }
      var originalSide := nodes[found.value].side;
      var cancelled := CancelOrder(m, true);
      NoneOfKind(Rejected);
      var replacement := Replacement(m, originalSide);
      var replaced := Emit(Replaced, replacement, 0, replacement.price, replacement.quantity, NoReason);
      var submitted := Submit(replacement, true);
      OtherCounts(replaced, submitted);
      es := [replaced] + submitted;
    }

    /** One engine command. */
    method Process(m: Command) returns (es: seq<Event>)
      requires Valid()
      modifies this, bids, asks, bidBits, askBits, nodes, index.entries, index`slotOf
      ensures Valid()
      ensures Value() == Ladder.Process(config, old(Value()), m).book
      ensures es == Ladder.Process(config, old(Value()), m).events
      ensures Sound(config, old(Value())) ==>
                Answers.Answered(config, old(Value()), m, Outcome(Value(), es))
      ensures commands == if m.sequence == Next(old(lastSequence)) then Next(old(commands)) else old(commands)
      ensures trades == Advance(old(trades), CountKind(es, Trade))
      ensures rejected == Advance(old(rejected), CountKind(es, Rejected))
    {
      hide RepOk, Indexed, Chained, Contents, Ladder.Submit, Ladder.CancelOrder, Ladder.ReplaceOrder, Views, Sound;
      hide Answers.Answered;
      Sizes(config, Repr());
      if Sound(config, Value()) { Answers.AnswerTheorem(config, Value(), m); }
      if m.sequence != Next(lastSequence) {
        rejected := Next(rejected);
        es := [Reject(m, SequenceGap)];
        RejectionCounts(m, SequenceGap);
        return;
      }
      ghost var b := Value();
      lastSequence := m.sequence;
      commands := Next(commands);
      assert Value() == b.(last := m.sequence);
      match m.kind
      case New => es := Submit(m, false);
      case Cancel => es := CancelOrder(m, false);
      case Replace => es := ReplaceOrder(m);
    }

    /** A stream of commands, as replay feeds them. */
    method ProcessAll(ms: seq<Command>) returns (es: seq<Event>)
      requires Valid()
      modifies this, bids, asks, bidBits, askBits, nodes, index.entries, index`slotOf
      ensures Valid() && (Sound(config, old(Value())) ==> Sound(config, Value()))
      ensures Sound(config, old(Value())) && Uncrossed(old(Value())) ==> Uncrossed(Value())
      ensures Value() == Run(config, old(Value()), ms).book && es == Run(config, old(Value()), ms).events
      ensures commands == Advance(old(commands), Sequenced(config, old(Value()), ms))
      ensures trades == Advance(old(trades), CountKind(es, Trade))
      ensures rejected == Advance(old(rejected), CountKind(es, Rejected))
    {
      hide RepOk, SidesOk, Indexed, Chained, Contents, Sound, Uncrossed, Ladder.Process, Next, Views;
      Sizes(config, Repr());
      ghost var b := Value();
      es := [];
      NoneOfKind(Trade);
      NoneOfKind(Rejected);
      for i := 0 to |ms|
        invariant Valid() && Value() == Run(config, b, ms[..i]).book && es == Run(config, b, ms[..i]).events
        invariant commands == Advance(old(commands), Sequenced(config, b, ms[..i]))
        invariant trades == Advance(old(trades), CountKind(es, Trade))
        invariant rejected == Advance(old(rejected), CountKind(es, Rejected))
      {
        assert ms[..i + 1][..i] == ms[..i] && ms[..i + 1][i] == ms[i];
        SequencedStep(config, b, ms[..i + 1]);
        var more := Process(ms[i]);
        CountsConcat(old(trades), es, more, Trade);
        CountsConcat(old(rejected), es, more, Rejected);
        es := es + more;
      }
      assert ms[..|ms|] == ms;
      if Sound(config, b) { RunTheorem(config, b, ms); }
    }

    /** Walk one FIFO through its next links. */
    method ListQueue(side: Side, i: nat, before: seq<RestingOrder>) returns (os: seq<RestingOrder>)
      requires Valid() && i < PriceCount(config)
      ensures os == before + ListLevel(Levels(Value(), side)[i], side, IndexPrice(config, i))
    {
      hide SidesOk, FreeOk, IndexOk, Abstract, Indexed, Chained, Contents, Resting, IndexPrice;
      ghost var r := Repr();
      QueueHead(config, r, lastSequence, side, i);
      ghost var q := Part(r, side).queues[i];
      ghost var l := ListLevel(Levels(Value(), side)[i], side, IndexPrice(config, i));
      os := before;
      var node := (if side.Buy? then bids else asks)[i].head;
      ghost var k := 0;
      while node != INVALID
        invariant 0 <= k <= |q| && node == (if k < |q| then q[k] else INVALID)
        invariant os == before + l[..k]
        decreases |q| - k
      {
        QueueNode(config, r, lastSequence, Place(side, i, k));
        var order := nodes[node];
        assert order == r.nodes[q[k]];
        os := os + [RestingOrder(order.id, order.side, order.price, order.remaining, order.priority)];
        node := order.next;
        k := k + 1;
      }
    }

    /** Every resting order: ascending price, bids before asks, FIFO within. */
    method RestingOrders() returns (os: seq<RestingOrder>)
      requires Valid()
      ensures os == RestingList(config, Value())
    {
      hide RepOk, Abstract, ListLevel, IndexPrice;
      Sizes(config, Repr());
      os := [];
      for price := 0 to PriceCount(config)
        invariant os == ListTo(config, Value(), price)
      {
        os := ListQueue(Buy, price, os);
        os := ListQueue(Sell, price, os);
      }
    }

    /** Rebuild a newly constructed book from a snapshot; false where the engine throws. */
    method Restore(last: u64, orders: seq<RestingOrder>) returns (ok: bool)
      requires Valid()
      modifies this, bids, asks, bidBits, askBits, nodes, index.entries, index`slotOf
      ensures Valid()
      ensures old(resting) == 0 && old(lastSequence) == 0 && |orders| <= config.maximumOrders ==>
                Restored(Value(), ok) == Recovery.Restore(config, last, orders)
      ensures !(old(resting) == 0 && old(lastSequence) == 0 && |orders| <= config.maximumOrders) ==>
                !ok && Value() == old(Value())
      ensures commands == old(commands) && trades == old(trades) && rejected == old(rejected)
    {
      hide RepOk, Indexed, Chained, Contents, Views, ValidPrice, PriceIndex, Resident, Append, StableSort, Empty;
      Sizes(config, Repr());
      if resting != 0 || lastSequence != 0 || |orders| > config.maximumOrders {
        return false;
      }
      FreeIsRoom(config, Repr(), 0);
      NoneResting(config, Value());
      var sorted := StableSort(orders);
      SortLength(orders);
      ghost var start := Value();
      for k := 0 to |sorted|
        invariant Valid() && lastSequence == 0 && |free| == config.maximumOrders - k
        invariant RestoreLoop(config, Value(), sorted[k..], last) == RestoreLoop(config, start, sorted, last)
        invariant commands == old(commands) && trades == old(trades) && rejected == old(rejected)
      {
        var o := sorted[k];
        assert sorted[k..][0] == o && sorted[k..][1..] == sorted[k + 1..];
        if !ValidPrice(config, o.price) || o.quantity == 0 || o.priority > last {
          return false;
        }
        var found := Lookup(o.orderId);
        if found.Some? {
          return false;
        }
        var ignored := AddResting(o.orderId, o.side, o.price, o.quantity, o.priority);
      }
      assert sorted[|sorted|..] == [];
      ghost var b := Value();
      lastSequence := last;
      assert Value() == b.(last := last);
      return true;
    }
  }

  /** Construct a book, or None where the constructor throws. */
  method Open(config: Config, hash: Hash) returns (r: Option<OrderBook>)
    ensures r.Some? <==>
            && config.tickSize > 0 && config.minimumPrice <= config.maximumPrice
            && 1 <= config.maximumOrders <= 0xFFFF_FFFF
            && config.maximumPrice - config.minimumPrice <= PRICE_MAX
            && (config.maximumPrice - config.minimumPrice) % config.tickSize == 0
    ensures r.Some? ==> && r.value.config == config && ValidConfig(config)
                        && r.value.resting == 0 && r.value.lastSequence == 0
                        && r.value.Valid() && r.value.Value() == Empty(config) && fresh(r.value.Footprint())
  {
    hide RepOk, Abstract, Empty;
    PriceCountAccepts(config);
    if CheckedPriceCount(config).None? {
      return None;
    }
    var book := new OrderBook(config, hash);
    return Some(book);
  }

  lemma {:induction false} CountsConcat(x: u64, es: seq<Event>, fs: seq<Event>, k: EventType)
    ensures Advance(x, CountKind(es + fs, k)) == Advance(Advance(x, CountKind(es, k)), CountKind(fs, k))
  {
    hide Next;
    CountKindConcat(es, fs, k);
    AdvanceSum(x, CountKind(es, k), CountKind(fs, k));
  }

  /**
   A new book fed any command stream. Its counters obey the amortised law, its FIFOs stay in
   admission order until the sequence wraps, and its output is the linear-scan book's exactly when no
   command parts the two.
   */
  method Replay(config: Config, hash: Hash, ms: seq<Command>) returns (book: OrderBook, es: seq<Event>)
    requires ValidConfig(config)
    ensures book.config == config && book.Valid() && fresh(book.Footprint())
    ensures book.Value() == Run(config, Empty(config), ms).book && es == Run(config, Empty(config), ms).events
    ensures Sound(config, book.Value()) && Uncrossed(book.Value())
    ensures |ms| < TWO64 ==> && book.trades + book.resting <= book.commands == book.lastSequence <= |ms|
                             && book.trades == CountKind(es, Trade) && Timely(book.Value())
    ensures es == Reference.RefRun(config, Reference.Ref([], 0), ms).events
            <==> Reference.NeverParts(config, Empty(config), ms)
    ensures |ms| < TWO64 ==>
              (Reference.NeverParts(config, Empty(config), ms) <==> Reference.NeverDiverges(config, Empty(config), ms))
  {
    hide RepOk, SidesOk, Indexed, Chained, Contents, Sound, Uncrossed, Run, Next, Views, Empty, Resting, Timely,
      Reference.RefRun, Reference.NeverParts, Reference.NeverDiverges;
    EmptyIsSound(config);
    book := new OrderBook(config, hash);
    es := book.ProcessAll(ms);
    FreshRun(config, ms);
    FreeIsRoom(config, book.Repr(), book.lastSequence);
    Reference.FreshDifferential(config, ms);
    if |ms| < TWO64 {
      AdvanceWraps(0, Sequenced(config, Empty(config), ms));
      AdvanceWraps(0, CountKind(es, Trade));
    }
  }

  /** Where the walk over a FIFO starts. */
  lemma {:induction false} QueueHead(c: Config, r: BookRep, last: u64, s: Side, i: nat)
    requires SidesOk(c, r) && i < PriceCount(c)
    ensures ValidConfig(c) && |Part(r, s).queues| == |Part(r, s).levels| == PriceCount(c)
            == |Levels(Abstract(c, r, last), s)|
    ensures var q := Part(r, s).queues[i];
            && |Levels(Abstract(c, r, last), s)[i]| == |q| && Part(r, s).levels[i].head == First(q)
            && forall k | 0 <= k < |q| :: q[k] != INVALID
  {
    hide Active, Shown, IndexPrice;
    PartOk(c, r, s);
    assert Chain(r.nodes, Part(r, s).levels[i], Part(r, s).queues[i], s, IndexPrice(c, i));
  }

  /** What it meets at each step. */
  lemma {:induction false} QueueNode(c: Config, r: BookRep, last: u64, p: Place)
    requires SidesOk(c, r) && Seats(r, p)
    ensures p.index < PriceCount(c) == |Levels(Abstract(c, r, last), p.side)| && Holds(Abstract(c, r, last), p)
    ensures Seat(r, p) < |r.nodes|
    ensures var n, q := r.nodes[Seat(r, p)], Part(r, p.side).queues[p.index];
            && n.side == p.side && n.price == IndexPrice(c, p.index)
            && Levels(Abstract(c, r, last), p.side)[p.index][p.pos] == Order(n.id, n.remaining, n.priority)
            && n.next == if p.pos == |q| - 1 then INVALID else q[p.pos + 1]
  {
    hide SideOk, Chain, IndexPrice;
    SeatOrder(c, r, last, p);
    SeatLinked(c, r, p);
  }

  lemma {:induction false} NoneResting(c: Config, b: Book)
    requires ValidConfig(c) && Sized(c, b)
    ensures Resting(b) == 0 && b.last == 0 ==> b == Empty(c)
  {
    if Resting(b) == 0 && b.last == 0 {
      forall i | 0 <= i < PriceCount(c) ensures b.bids[i] == [] && b.asks[i] == [] {
        CountCovers(b.bids, |b.bids|, i);
        CountCovers(b.asks, |b.asks|, i);
      }
    }
  }

  /** Removing the located order takes its id out of the index. */
  lemma {:induction false} LocateIndexed(c: Config, r: BookRep, last: u64, id: u64)
    requires RepOk(c, r) && Resident(Abstract(c, r, last), id)
    ensures var p := Locate(Abstract(c, r, last), id);
            Seats(r, p) && CanRemove(r, p) && id !in Drop(r, p).index
  {
    hide SideOk, FreeOk, Abstract, Drop, Live, Resting;
    var p := Locate(Abstract(c, r, last), id);
    RepResident(c, r, last, id);
    SeatOrder(c, r, last, p);
    RemoveReady(c, r, p);
    DropFields(r, p);
  }

  lemma {:induction false} RejectionCounts(m: Command, reason: RejectReason)
    ensures CountKind([Reject(m, reason)], Trade) == 0 && CountKind([Reject(m, reason)], Rejected) == 1
  {
    assert [Reject(m, reason)][..0] == [];
  }

  lemma {:induction false} OtherCounts(e: Event, es: seq<Event>)
    requires e.kind != Trade && e.kind != Rejected
    ensures CountKind([e] + es, Trade) == CountKind(es, Trade)
            && CountKind([e] + es, Rejected) == CountKind(es, Rejected)
  {
    assert [e][..0] == [];
    CountKindConcat([e], es, Trade);
    CountKindConcat([e], es, Rejected);
  }

  lemma {:induction false} AcceptedCounts(m: Command, es: seq<Event>)
    ensures var all := [Emit(Accepted, m, 0, 0, 0, NoReason)] + es;
            CountKind(all, Trade) == CountKind(es, Trade) && CountKind(all, Rejected) == CountKind(es, Rejected)
  {
    OtherCounts(Emit(Accepted, m, 0, 0, 0, NoReason), es);
  }

  /** What an admitted command may rely on. */
  lemma {:induction false} AdmissionOpens(c: Config, r: BookRep, last: u64, m: Command, replacement: bool)
    requires RepOk(c, r) && Admission(c, Abstract(c, r, last), m, replacement) == NoReason
    ensures m.quantity > 0 && ValidConfig(c) && (m.orderType.Market? || ValidPrice(c, m.price))
    ensures !replacement ==> m.orderId !in r.index
    ensures var b, opp := Abstract(c, r, last), Opposite(m.side);
            m.orderType.Limit? && r.free == [] ==> ShownDepth(Levels(b, opp), opp, Reach(c, m)) >= m.quantity
  {
    hide RepOk, Abstract, ShownDepth, Resting, Resident, Reach;
    Sizes(c, r);
    RepResident(c, r, last, m.orderId);
    FreeIsRoom(c, r, last);
  }

  /** Displayed count and total of every level. */
  ghost predicate Mirrored(levels: seq<PriceLevel>, ls: seq<Level>) {
    |levels| == |ls| && forall i | 0 <= i < |ls| :: levels[i].count == |ls[i]| && levels[i].total == Shown(ls[i])
  }

  /** Whether a level of the opposite side is within the limit. */
  predicate Crosses(c: Config, side: Side, limit: Price, i: nat)
    requires ValidConfig(c) && i < PriceCount(c)
  {
    if side.Buy? then IndexPrice(c, i) <= limit else IndexPrice(c, i) >= limit
  }

  /** The first rank at or after r of the opposite side that the limit does not cross. */
  function RanksWithin(c: Config, side: Side, limit: Price, r: nat): (k: nat)
    requires ValidConfig(c) && r <= PriceCount(c)
    ensures r <= k <= PriceCount(c)
    decreases PriceCount(c) - r
  {
    if r < PriceCount(c) && Crosses(c, side, limit, Slot(Opposite(side), r, PriceCount(c)))
    then RanksWithin(c, side, limit, r + 1) else r
  }

  lemma {:induction false} RanksBound(c: Config, side: Side, limit: Price)
    requires ValidConfig(c)
    ensures RanksWithin(c, side, limit, 0) <= PriceCount(c)
  {}

  /** A worse rank crosses only if a better one does. */
  lemma {:induction false} CrossesMonotone(c: Config, side: Side, limit: Price, q: nat, r: nat)
    requires ValidConfig(c) && q <= r < PriceCount(c) && Crosses(c, side, limit, Slot(Opposite(side), r, PriceCount(c)))
    ensures Crosses(c, side, limit, Slot(Opposite(side), q, PriceCount(c)))
  {
    hide IndexPrice, PriceCount;
    IndexPriceOrder(c, Slot(Opposite(side), q, PriceCount(c)), Slot(Opposite(side), r, PriceCount(c)));
  }

  lemma {:induction false} RanksCross(c: Config, side: Side, limit: Price, r: nat, q: nat)
    requires ValidConfig(c) && r <= q < PriceCount(c)
    ensures Crosses(c, side, limit, Slot(Opposite(side), q, PriceCount(c))) <==> q < RanksWithin(c, side, limit, r)
    decreases PriceCount(c) - r
  {
    hide Crosses;
    if Crosses(c, side, limit, Slot(Opposite(side), q, PriceCount(c))) { CrossesMonotone(c, side, limit, r, q); }
    if q > r { RanksCross(c, side, limit, r + 1, q); }
  }

  lemma {:induction false} CrossesIsRank(c: Config, side: Side, limit: Price, i: nat)
    requires ValidConfig(c) && i < PriceCount(c)
    ensures Crosses(c, side, limit, i) <==> Slot(Opposite(side), i, PriceCount(c)) < RanksWithin(c, side, limit, 0)
  {
    hide Crosses, RanksWithin, PriceCount;
    var n := PriceCount(c);
    assert Slot(Opposite(side), Slot(Opposite(side), i, n), n) == i;
    RanksCross(c, side, limit, 0, Slot(Opposite(side), i, n));
  }

  /** A valid limit crosses just the ranks up to its own. */
  lemma {:induction false} ReachIsRanks(c: Config, m: Command)
    requires ValidConfig(c) && (m.orderType.Market? || ValidPrice(c, m.price))
    ensures RanksWithin(c, m.side, EffectiveLimit(c, m), 0) == Reach(c, m)
  {
    hide RanksWithin, Crosses, Reach, EffectiveLimit, PriceCount;
    var n, limit, opp := PriceCount(c), EffectiveLimit(c, m), Opposite(m.side);
    RanksBound(c, m.side, limit);
    ReachBound(c, m);
    var k, reach := RanksWithin(c, m.side, limit, 0), Reach(c, m);
    var least := if k < reach then k else reach;
    if k != reach {
      assert Slot(opp, Slot(opp, least, n), n) == least;
      CrossesIsRank(c, m.side, limit, Slot(opp, least, n));
      ReachIsRank(c, m, Slot(opp, least, n));
    }
  }

  lemma {:induction false} ReachBound(c: Config, m: Command)
    requires ValidConfig(c) && (m.orderType.Market? || ValidPrice(c, m.price))
    ensures Reach(c, m) <= PriceCount(c)
  {}

  /** The scan of can_fully_fill from the best level on. */
  method ScanDepth(c: Config, side: Side, limit: Price, quantity: u64, levels: array<PriceLevel>, start: Option<nat>,
                   ghost ls: seq<Level>) returns (r: bool)
    requires ValidConfig(c) && levels.Length == PriceCount(c) && Mirrored(levels[..], ls)
    requires var opp, n := Opposite(side), PriceCount(c);
             match start
             case None => EmptyRanks(ls, opp, 0, n)
             case Some(k) => k < n && ls[k] != [] && EmptyRanks(ls, opp, 0, Slot(opp, k, n))
    ensures var opp, k := Opposite(side), RanksWithin(c, side, limit, 0);
            && k <= |ls|
            && (r <==> if quantity == 0 then !EmptyRanks(ls, opp, 0, k) else ShownDepth(ls, opp, k) >= quantity)
  {
    hide Shown, ValidConfig, Crosses, ShownDepth, RanksWithin;
    ShownDepthStep(ls, Opposite(side), 0);
    RanksBound(c, side, limit);
    var opp, n := Opposite(side), PriceCount(c);
    ghost var bound := RanksWithin(c, side, limit, 0);
    var best: Option<nat> := start;
    var available: u64 := 0;
    ghost var done: nat := 0;
    while best.Some? && Crosses(c, side, limit, best.value)
      invariant done <= bound && available == ShownDepth(ls, opp, done)
      invariant if quantity == 0 then done == 0 && best == start else available < quantity
      invariant best.Some? ==> best.value < n && done <= Slot(opp, best.value, n)
                               && EmptyRanks(ls, opp, done, Slot(opp, best.value, n))
      invariant best.None? ==> EmptyRanks(ls, opp, done, n)
      decreases n - done
    {
      var i := best.value;
      ghost var rank := Slot(opp, i, n);
      assert Slot(opp, rank, n) == i;
      CrossesIsRank(c, side, limit, i);
      ShownDepthGrows(ls, opp, done, rank);
      ShownDepthGrows(ls, opp, rank + 1, bound);
      ShownDepthStep(ls, opp, rank);
      assert levels[..][i].total == Shown(ls[i]);
      var atLevel := levels[i].total;
      if atLevel >= quantity - available {
        return true;
      }
      available := available + atLevel;
      done := rank + 1;
      if opp.Sell? {
        best := NextUp(levels, i, ls);
      } else {
        best := NextDown(levels, i, ls);
      }
    }
    if best.Some? { CrossesIsRank(c, side, limit, best.value); }
    ShownDepthGrows(ls, opp, done, bound);
    return false;
  }

  /** The next nonempty ask level above i. */
  method NextUp(levels: array<PriceLevel>, i: nat, ghost ls: seq<Level>) returns (r: Option<nat>)
    requires i < levels.Length && Mirrored(levels[..], ls)
    ensures var n := levels.Length;
            match r
            case None => EmptyRanks(ls, Sell, i + 1, n)
            case Some(k) => i < k < n && EmptyRanks(ls, Sell, i + 1, k)
  {
    hide Shown;
    var k := i + 1;
    while k < levels.Length && levels[k].count == 0
      invariant i < k <= levels.Length && forall j | i < j < k :: ls[j] == []
    {
      assert levels[..][k].count == |ls[k]|;
      k := k + 1;
    }
    r := if k >= levels.Length then None else Some(k);
  }

  /** The next nonempty bid level below i. */
  method NextDown(levels: array<PriceLevel>, i: nat, ghost ls: seq<Level>) returns (r: Option<nat>)
    requires i < levels.Length && Mirrored(levels[..], ls)
    ensures var n := levels.Length;
            match r
            case None => EmptyRanks(ls, Buy, Slot(Buy, i, n) + 1, n)
            case Some(k) => k < i && EmptyRanks(ls, Buy, Slot(Buy, i, n) + 1, Slot(Buy, k, n))
  {
    hide Shown;
    if i == 0 { return None; }
    var k := i - 1;
    while levels[k].count == 0
      invariant 0 <= k < i && forall j | k < j < i :: ls[j] == []
      decreases k
    {
      assert levels[..][k].count == |ls[k]|;
      if k == 0 { return None; }
      k := k - 1;
    }
    return Some(k);
  }
}
