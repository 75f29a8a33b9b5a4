/**
 The price ladder as a value: one FIFO per side and tick, and what each command does to it.
 A level's displayed total wraps at 2^64 exactly as the engine's aggregate does, so this
 specification needs no assumption on sizes; Reference.dfy says when wrapping is invisible.
 */
module Ladder {
  import opened Types

  datatype Order = Order(id: u64, qty: u64, priority: u64)
  type Level = seq<Order>
  datatype Book = Book(bids: seq<Level>, asks: seq<Level>, last: u64)

  function Levels(b: Book, s: Side): seq<Level> {
    if s.Buy? then b.bids else b.asks
  }

  function WithLevels(b: Book, s: Side, ls: seq<Level>): Book {
    if s.Buy? then b.(bids := ls) else b.(asks := ls)
  }

  predicate Sized(c: Config, b: Book)
    requires ValidConfig(c)
  {
    |b.bids| == PriceCount(c) && |b.asks| == PriceCount(c)
  }

  function Empty(c: Config): (b: Book)
    requires ValidConfig(c)
    ensures Sized(c, b)
  {
    var none := seq(PriceCount(c), _ => []);
    Book(none, none, 0)
  }

  /** Rank 0 is the best price of a side: lowest ask, highest bid. Its own inverse. */
  function Slot(s: Side, r: int, n: int): int {
    if s.Sell? then r else n - 1 - r
  }

  // ---- sizes and totals ----------------------------------------------------------------------

  function Total(l: Level): nat {
    if l == [] then 0 else l[0].qty + Total(l[1..])
  }

  /** total_quantity as the engine keeps it. */
  function Shown(l: Level): u64 {
    Wrap(Total(l))
  }

  function CountTo(ls: seq<Level>, n: nat): nat
    requires n <= |ls|
  {
    if n == 0 then 0 else CountTo(ls, n - 1) + |ls[n - 1]|
  }

  function Resting(b: Book): nat {
    CountTo(b.bids, |b.bids|) + CountTo(b.asks, |b.asks|)
  }

  /** Quantity on the best n ranks, and the same sum over displayed totals. */
  function Depth(ls: seq<Level>, s: Side, n: nat): nat
    requires n <= |ls|
  {
    if n == 0 then 0 else Depth(ls, s, n - 1) + Total(ls[Slot(s, n - 1, |ls|)])
  }

  function ShownDepth(ls: seq<Level>, s: Side, n: nat): nat
    requires n <= |ls|
  {
    if n == 0 then 0 else ShownDepth(ls, s, n - 1) + Shown(ls[Slot(s, n - 1, |ls|)])
  }

  // ---- places --------------------------------------------------------------------------------

  datatype Place = Place(side: Side, index: nat, pos: nat)

  predicate Holds(b: Book, p: Place) {
    p.index < |Levels(b, p.side)| && p.pos < |Levels(b, p.side)[p.index]|
  }

  function OrderAt(b: Book, p: Place): Order
    requires Holds(b, p)
  {
    Levels(b, p.side)[p.index][p.pos]
  }

  ghost predicate Resident(b: Book, id: u64) {
    exists p :: Holds(b, p) && OrderAt(b, p).id == id
  }

  ghost function Locate(b: Book, id: u64): (p: Place)
    requires Resident(b, id)
    ensures Holds(b, p) && OrderAt(b, p).id == id
  {
    var p :| Holds(b, p) && OrderAt(b, p).id == id;
    p
  }

  function RemoveAt(l: Level, k: nat): Level
    requires k < |l|
  {
    l[..k] + l[k + 1..]
  }

  function Remove(b: Book, p: Place): Book
    requires Holds(b, p)
  {
    var ls := Levels(b, p.side);
    WithLevels(b, p.side, ls[p.index := RemoveAt(ls[p.index], p.pos)])
  }

  function Append(b: Book, s: Side, i: nat, o: Order): Book
    requires i < |Levels(b, s)|
  {
    WithLevels(b, s, Levels(b, s)[i := Levels(b, s)[i] + [o]])
  }

  // ---- matching ------------------------------------------------------------------------------

  datatype Fill = Fill(index: nat, id: u64, qty: u64)
  datatype Drained = Drained(level: Level, left: nat, fills: seq<Fill>)
  datatype Swept = Swept(levels: seq<Level>, left: nat, fills: seq<Fill>)

  /** Fill up to q from the front of one FIFO. */
  function Drain(l: Level, i: nat, q: u64): (d: Drained)
    ensures d.left <= q
    ensures forall k | 0 <= k < |d.fills| :: d.fills[k].index == i
  {
    if q == 0 || l == [] then Drained(l, q, [])
    else if q < l[0].qty then Drained([l[0].(qty := l[0].qty - q)] + l[1..], 0, [Fill(i, l[0].id, q)])
    else
      var d := Drain(l[1..], i, q - l[0].qty);
      Drained(d.level, d.left, [Fill(i, l[0].id, l[0].qty)] + d.fills)
  }

  /** Fill up to q from ranks r .. bound-1 of a side, best rank first. */
  function Sweep(ls: seq<Level>, s: Side, r: nat, bound: nat, q: u64): (w: Swept)
    requires r <= bound <= |ls|
    ensures w.left <= q && |w.levels| == |ls|
    ensures forall k | 0 <= k < |w.fills| :: w.fills[k].index < |ls|
    decreases bound - r
  {
    if r == bound || q == 0 then Swept(ls, q, [])
    else
      var i := Slot(s, r, |ls|);
      var d := Drain(ls[i], i, q);
      var rest := Sweep(ls[i := d.level], s, r + 1, bound, d.left);
      Swept(rest.levels, rest.left, d.fills + rest.fills)
  }

  /** Level at which the matching loop stops at the latest. */
  function EffectiveLimit(c: Config, m: Command): Price {
    if m.orderType.Market? then (if m.side.Buy? then c.maximumPrice else c.minimumPrice) else m.price
  }

  /** How many ranks of the opposite side the command may reach. */
  function Reach(c: Config, m: Command): (n: nat)
    requires ValidConfig(c) && (m.orderType.Market? || ValidPrice(c, m.price))
    ensures 0 < n <= PriceCount(c)
  {
    LimitIsValid(c, m);
    IndexOfPrice(c, EffectiveLimit(c, m));
    Slot(Opposite(m.side), PriceIndex(c, EffectiveLimit(c, m)), PriceCount(c)) + 1
  }

  lemma {:induction false} LimitIsValid(c: Config, m: Command)
    requires ValidConfig(c) && (m.orderType.Market? || ValidPrice(c, m.price))
    ensures ValidPrice(c, EffectiveLimit(c, m))
  {
    ZeroMod(c.tickSize);
  }

  lemma {:induction false} ZeroMod(t: int)
    requires t > 0
    ensures 0 % t == 0
  {}

  // ---- events --------------------------------------------------------------------------------

  function Emit(kind: EventType, m: Command, contra: u64, price: Price, qty: u64, reason: RejectReason): Event {
    Event(m.sequence, kind, m.side, reason, m.orderId, contra, price, qty)
  }

  function Reject(m: Command, reason: RejectReason): Event {
    Emit(Rejected, m, 0, 0, 0, reason)
  }

  function Trades(c: Config, m: Command, fills: seq<Fill>): (es: seq<Event>)
    requires ValidConfig(c) && forall k | 0 <= k < |fills| :: fills[k].index < PriceCount(c)
    ensures |es| == |fills|
  {
    seq(|fills|, k requires 0 <= k < |fills| =>
      Emit(Trade, m, fills[k].id, IndexPrice(c, fills[k].index), fills[k].qty, NoReason))
  }

  // ---- commands ------------------------------------------------------------------------------

  datatype Outcome = Outcome(book: Book, events: seq<Event>)

  /** Where a New command is turned away, and why; NoReason when it is admitted. */
  ghost function Admission(c: Config, b: Book, m: Command, replacement: bool): RejectReason
    requires ValidConfig(c) && Sized(c, b)
  {
    if m.quantity == 0 then InvalidQuantity
    else if !m.orderType.Market? && !ValidPrice(c, m.price) then InvalidPrice
    else if !replacement && Resident(b, m.orderId) then DuplicateOrderId
    else
      var opp := Opposite(m.side);
      var fillable := ShownDepth(Levels(b, opp), opp, Reach(c, m)) >= m.quantity;
      if m.orderType.FillOrKill? && !fillable then WouldNotFill
      else if Resting(b) == c.maximumOrders && m.orderType.Limit? && !fillable then BookCapacity
      else NoReason
  }

  /** The matching loop and what becomes of the remainder. */
  function Execute(c: Config, b: Book, m: Command): Outcome
    requires ValidConfig(c) && Sized(c, b) && (m.orderType.Market? || ValidPrice(c, m.price))
  {
    var opp := Opposite(m.side);
    var w := Sweep(Levels(b, opp), opp, 0, Reach(c, m), m.quantity);
    var b1 := WithLevels(b, opp, w.levels);
    var trades := Trades(c, m, w.fills);
    if w.left == 0 then Outcome(b1, trades)
    else if m.orderType.Limit? then
      IndexOfPrice(c, m.price);
      Outcome(Append(b1, m.side, PriceIndex(c, m.price), Order(m.orderId, w.left, m.sequence)),
              trades + [Emit(Rested, m, 0, m.price, w.left, NoReason)])
    else Outcome(b1, trades + [Emit(Cancelled, m, 0, m.price, w.left, NoReason)])
  }

  ghost function Submit(c: Config, b: Book, m: Command, replacement: bool): Outcome
    requires ValidConfig(c) && Sized(c, b)
  {
    var reason := Admission(c, b, m, replacement);
    if reason != NoReason then Outcome(b, [Reject(m, reason)])
    else
      var x := Execute(c, b, m);
      Outcome(x.book, (if replacement then [] else [Emit(Accepted, m, 0, 0, 0, NoReason)]) + x.events)
  }

  ghost function CancelOrder(c: Config, b: Book, m: Command): Outcome
    requires ValidConfig(c) && Sized(c, b)
  {
    if !Resident(b, m.orderId) then Outcome(b, [Reject(m, UnknownOrderId)])
    else
      var p := Locate(b, m.orderId);
      Outcome(Remove(b, p), [Emit(Cancelled, m, 0, IndexPrice(c, p.index), OrderAt(b, p).qty, NoReason)])
  }

  /** The limit order that takes the replaced order's place: its side is the original's. */
  function Replacement(m: Command, original: Side): Command {
    m.(side := original, orderType := Limit)
  }

  ghost function ReplaceOrder(c: Config, b: Book, m: Command): Outcome
    requires ValidConfig(c) && Sized(c, b)
  {
    if !Resident(b, m.orderId) then Outcome(b, [Reject(m, UnknownOrderId)])
    else if m.quantity == 0 then Outcome(b, [Reject(m, InvalidQuantity)])
    else if !ValidPrice(c, m.price) then Outcome(b, [Reject(m, InvalidPrice)])
    else
      var p := Locate(b, m.orderId);
      var r := Replacement(m, p.side);
      var x := Submit(c, Remove(b, p), r, true);
      Outcome(x.book, [Emit(Replaced, r, 0, r.price, r.quantity, NoReason)] + x.events)
  }

  ghost function Dispatch(c: Config, b: Book, m: Command): Outcome
    requires ValidConfig(c) && Sized(c, b)
  {
    match m.kind
    case New => Submit(c, b, m, false)
    case Cancel => CancelOrder(c, b, m)
    case Replace => ReplaceOrder(c, b, m)
  }

  /** One engine command; a sequence that is not the next one touches nothing. */
  ghost function Process(c: Config, b: Book, m: Command): Outcome
    requires ValidConfig(c) && Sized(c, b)
  {
    if m.sequence != Next(b.last) then Outcome(b, [Reject(m, SequenceGap)])
    else Dispatch(c, b.(last := m.sequence), m)
  }

  lemma {:induction false} ProcessSized(c: Config, b: Book, m: Command)
    requires ValidConfig(c) && Sized(c, b)
    ensures Sized(c, Process(c, b, m).book)
  {
    hide Trades, IndexPrice, Resident, ShownDepth, Resting;
  }

  /** A whole run: the book after the commands and every event in order. */
  ghost function Run(c: Config, b: Book, ms: seq<Command>): (o: Outcome)
    requires ValidConfig(c) && Sized(c, b)
    ensures Sized(c, o.book)
  {
    if ms == [] then Outcome(b, [])
    else
      var front := Run(c, b, ms[..|ms| - 1]);
      var x := Process(c, front.book, ms[|ms| - 1]);
      ProcessSized(c, front.book, ms[|ms| - 1]);
      Outcome(x.book, front.events + x.events)
  }
}
