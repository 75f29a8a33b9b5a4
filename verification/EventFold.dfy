/** The published events alone determine the book: folding them rebuilds every FIFO. */
module EventFold {
  import opened Types
  import opened Ladder
  import opened Matching
  import opened Invariants
  import opened Runs

  // ---- the subscriber's view -----------------------------------------------------------------

  /** Take q off the first order with this id, dropping it when nothing is left. */
  function Reduce(l: Level, id: u64, q: u64): Level {
    if l == [] then []
    else if l[0].id != id then [l[0]] + Reduce(l[1..], id, q)
    else if l[0].qty <= q then l[1..]
    else [l[0].(qty := l[0].qty - q)] + l[1..]
  }

  function Without(l: Level, id: u64): Level {
    if l == [] then [] else (if l[0].id == id then [] else [l[0]]) + Without(l[1..], id)
  }

  function WithoutAll(ls: seq<Level>, id: u64): seq<Level> {
    seq(|ls|, i requires 0 <= i < |ls| => Without(ls[i], id))
  }

  function Drop(b: Book, id: u64): Book {
    Book(WithoutAll(b.bids, id), WithoutAll(b.asks, id), b.last)
  }

  function Apply(c: Config, b: Book, e: Event): (b': Book)
    requires ValidConfig(c) && Sized(c, b)
    ensures Sized(c, b')
  {
    var t := if e.kind == Rejected && e.reason == SequenceGap then b else b.(last := e.sequence);
    match e.kind
    case Accepted => t
    case Rejected => t
    case Cancelled => Drop(t, e.orderId)
    case Replaced => Drop(t, e.orderId)
    case Trade =>
      if !ValidPrice(c, e.price) then t
      else
        IndexOfPrice(c, e.price);
        var s, i := Opposite(e.side), PriceIndex(c, e.price);
        WithLevels(t, s, Levels(t, s)[i := Reduce(Levels(t, s)[i], e.contra, e.quantity)])
    case Rested =>
      if !ValidPrice(c, e.price) then t
      else
        IndexOfPrice(c, e.price);
        Append(t, e.side, PriceIndex(c, e.price), Order(e.orderId, e.quantity, e.sequence))
  }

  function Fold(c: Config, b: Book, es: seq<Event>): (b': Book)
    requires ValidConfig(c) && Sized(c, b)
    ensures Sized(c, b')
    decreases |es|
  {
    if es == [] then b else Fold(c, Apply(c, b, es[0]), es[1..])
  }

  lemma {:induction false} FoldConcat(c: Config, b: Book, x: seq<Event>, y: seq<Event>)
    requires ValidConfig(c) && Sized(c, b)
    ensures Fold(c, b, x + y) == Fold(c, Fold(c, b, x), y)
    decreases |x|
  {
    hide Apply;
    if x == [] { assert x + y == y; } else {
      assert (x + y)[1..] == x[1..] + y;
      assert (x + y)[0] == x[0];
      FoldConcat(c, Apply(c, b, x[0]), x[1..], y);
    }
  }

  lemma {:induction false} FoldOne(c: Config, b: Book, e: Event)
    requires ValidConfig(c) && Sized(c, b)
    ensures Fold(c, b, [e]) == Apply(c, b, e)
  {
    hide Apply;
    assert [e][1..] == [];
  }

  // ---- trades --------------------------------------------------------------------------------

  lemma {:induction false} ApplyTrade(c: Config, b: Book, m: Command, f: Fill)
    requires ValidConfig(c) && Sized(c, b) && b.last == m.sequence && f.index < PriceCount(c)
    ensures var s := Opposite(m.side);
            var e := Emit(Trade, m, f.id, IndexPrice(c, f.index), f.qty, NoReason);
            Apply(c, b, e) == WithLevels(b, s, Levels(b, s)[f.index := Reduce(Levels(b, s)[f.index], f.id, f.qty)])
  {
    PriceOfIndex(c, f.index);
  }

  lemma {:induction false} FoldDrain(c: Config, b: Book, m: Command, i: nat, q: u64)
    requires ValidConfig(c) && Sized(c, b) && b.last == m.sequence && i < PriceCount(c)
    ensures var s := Opposite(m.side);
            var d := Drain(Levels(b, s)[i], i, q);
            Fold(c, b, Trades(c, m, d.fills)) == WithLevels(b, s, Levels(b, s)[i := d.level])
    decreases |Levels(b, Opposite(m.side))[i]|
  {
    hide Apply;
    var s := Opposite(m.side);
    var ls := Levels(b, s);
    var l := ls[i];
    var d := Drain(l, i, q);
    if q == 0 || l == [] {
      assert ls[i := l] == ls;
    } else {
      var f := d.fills[0];
      var b' := WithLevels(b, s, ls[i := Reduce(l, f.id, f.qty)]);
      ApplyTrade(c, b, m, f);
      assert Trades(c, m, d.fills)[0] == Emit(Trade, m, f.id, IndexPrice(c, i), f.qty, NoReason);
      assert Trades(c, m, d.fills)[1..] == Trades(c, m, d.fills[1..]);
      if q >= l[0].qty {
        FoldDrain(c, b', m, i, q - l[0].qty);
        assert Levels(b', s)[i] == l[1..];
        assert d.fills[1..] == Drain(l[1..], i, q - l[0].qty).fills;
        assert Levels(b', s)[i := d.level] == ls[i := d.level];
      }
    }
  }

  lemma {:induction false} TradesConcat(c: Config, m: Command, x: seq<Fill>, y: seq<Fill>)
    requires ValidConfig(c) && forall k | 0 <= k < |x + y| :: (x + y)[k].index < PriceCount(c)
    requires forall k | 0 <= k < |x| :: x[k].index < PriceCount(c)
    requires forall k | 0 <= k < |y| :: y[k].index < PriceCount(c)
    ensures Trades(c, m, x + y) == Trades(c, m, x) + Trades(c, m, y)
  {}

  lemma {:induction false} FoldSweep(c: Config, b: Book, m: Command, r: nat, bound: nat, q: u64)
    requires ValidConfig(c) && Sized(c, b) && b.last == m.sequence && r <= bound <= PriceCount(c)
    ensures var s := Opposite(m.side);
            var w := Sweep(Levels(b, s), s, r, bound, q);
            Fold(c, b, Trades(c, m, w.fills)) == WithLevels(b, s, w.levels)
    decreases bound - r
  {
    hide Apply, Drain, PriceCount;
    var s := Opposite(m.side);
    var ls := Levels(b, s);
    if r == bound {
      assert Sweep(ls, s, r, bound, q) == Swept(ls, q, []);
    } else {
      var i := Slot(s, r, |ls|);
      var d := Drain(ls[i], i, q);
      var b' := WithLevels(b, s, ls[i := d.level]);
      var rest := Sweep(ls[i := d.level], s, r + 1, bound, d.left);
      SweepUnfold(ls, s, r, bound, q);
      FoldDrain(c, b, m, i, q);
      FoldSweep(c, b', m, r + 1, bound, d.left);
      TradesConcat(c, m, d.fills, rest.fills);
      FoldConcat(c, b, Trades(c, m, d.fills), Trades(c, m, rest.fills));
    }
  }

  // ---- removals ------------------------------------------------------------------------------

  lemma {:induction false} WithoutAbsent(l: Level, id: u64)
    requires forall k | 0 <= k < |l| :: l[k].id != id
    ensures Without(l, id) == l
  {
    if l != [] { WithoutAbsent(l[1..], id); }
  }

  lemma {:induction false} WithoutOne(l: Level, k: nat)
    requires k < |l| && forall j | 0 <= j < |l| && j != k :: l[j].id != l[k].id
    ensures Without(l, l[k].id) == RemoveAt(l, k)
  {
    if k == 0 {
      WithoutAbsent(l[1..], l[0].id);
    } else {
      WithoutOne(l[1..], k - 1);
    }
  }

  lemma {:induction false} DropAbsentSide(b: Book, s: Side, id: u64)
    requires !Resident(b, id)
    ensures WithoutAll(Levels(b, s), id) == Levels(b, s)
  {
    var ls := Levels(b, s);
    forall i | 0 <= i < |ls| ensures Without(ls[i], id) == ls[i] {
      forall k | 0 <= k < |ls[i]| ensures ls[i][k].id != id {
        assert Holds(b, Place(s, i, k)) && OrderAt(b, Place(s, i, k)) == ls[i][k];
      }
      WithoutAbsent(ls[i], id);
    }
  }

  lemma {:induction false} DropAbsent(b: Book, id: u64)
    requires !Resident(b, id)
    ensures Drop(b, id) == b
  {
    DropAbsentSide(b, Buy, id);
    DropAbsentSide(b, Sell, id);
  }

  lemma {:induction false} DropSide(b: Book, p: Place, s: Side)
    requires Holds(b, p) && UniqueIds(b)
    ensures WithoutAll(Levels(b, s), OrderAt(b, p).id) == Levels(Remove(b, p), s)
  {
    var ls, id := Levels(b, s), OrderAt(b, p).id;
    forall i | 0 <= i < |ls| ensures Without(ls[i], id) == Levels(Remove(b, p), s)[i] {
      forall k | 0 <= k < |ls[i]| && Place(s, i, k) != p ensures ls[i][k].id != id {
        assert Holds(b, Place(s, i, k)) && OrderAt(b, Place(s, i, k)) == ls[i][k];
      }
      if s == p.side && i == p.index { WithoutOne(ls[i], p.pos); } else { WithoutAbsent(ls[i], id); }
    }
  }

  lemma {:induction false} DropPresent(b: Book, p: Place)
    requires Holds(b, p) && UniqueIds(b)
    ensures Drop(b, OrderAt(b, p).id) == Remove(b, p)
  {
    DropSide(b, p, Buy);
    DropSide(b, p, Sell);
  }

  // ---- commands ------------------------------------------------------------------------------

  /** The event of an unfilled remainder: it rests, or it is gone without a trace. */
  lemma {:induction false} FoldRemainder(c: Config, b: Book, m: Command, q: u64)
    requires ValidConfig(c) && Sized(c, b) && b.last == m.sequence && !Resident(b, m.orderId)
    ensures Fold(c, b, [Emit(Cancelled, m, 0, m.price, q, NoReason)]) == b
    ensures ValidPrice(c, m.price) ==>
              PriceIndex(c, m.price) < PriceCount(c) &&
              Fold(c, b, [Emit(Rested, m, 0, m.price, q, NoReason)])
              == Append(b, m.side, PriceIndex(c, m.price), Order(m.orderId, q, m.sequence))
  {
    FoldOne(c, b, Emit(Cancelled, m, 0, m.price, q, NoReason));
    FoldOne(c, b, Emit(Rested, m, 0, m.price, q, NoReason));
    DropAbsent(b, m.orderId);
    if ValidPrice(c, m.price) { IndexOfPrice(c, m.price); }
  }

  lemma {:induction false} FoldExecute(c: Config, b: Book, m: Command)
    requires Sound(c, b) && b.last == m.sequence && !Resident(b, m.orderId)
    requires m.orderType.Market? || ValidPrice(c, m.price)
    ensures Fold(c, b, Execute(c, b, m).events) == Execute(c, b, m).book
  {
    var opp := Opposite(m.side);
    var w := Sweep(Levels(b, opp), opp, 0, Reach(c, m), m.quantity);
    var t := WithLevels(b, opp, w.levels);
    var trades := Trades(c, m, w.fills);
    FoldSweep(c, b, m, 0, Reach(c, m), m.quantity);
    assert !Resident(t, m.orderId) by {
      SweepThins(b, opp, Reach(c, m), m.quantity);
      ThinsKeeps(t, b);
    }
    if w.left > 0 {
      FoldRemainder(c, t, m, w.left);
      FoldConcat(c, b, trades, [Emit(Cancelled, m, 0, m.price, w.left, NoReason)]);
      FoldConcat(c, b, trades, [Emit(Rested, m, 0, m.price, w.left, NoReason)]);
    }
  }

  lemma {:induction false} FoldSubmit(c: Config, b: Book, m: Command, replacement: bool)
    requires Sound(c, b) && b.last == m.sequence && (replacement ==> !Resident(b, m.orderId))
    requires Admission(c, b, m, replacement) != SequenceGap
    ensures Fold(c, b, Submit(c, b, m, replacement).events) == Submit(c, b, m, replacement).book
  {
    hide Fold, Execute;
    var reason := Admission(c, b, m, replacement);
    if reason != NoReason {
      FoldOne(c, b, Reject(m, reason));
    } else {
      FoldExecute(c, b, m);
      var e, es := Emit(Accepted, m, 0, 0, 0, NoReason), Execute(c, b, m).events;
      assert [] + es == es;
      FoldConcat(c, b, [e], es);
      FoldOne(c, b, e);
    }
  }

  lemma {:induction false} FoldReplace(c: Config, b: Book, m: Command)
    requires Sound(c, b) && b.last == m.sequence
    ensures Fold(c, b, ReplaceOrder(c, b, m).events) == ReplaceOrder(c, b, m).book
  {
    hide Fold, Submit;
    if Resident(b, m.orderId) && m.quantity > 0 && ValidPrice(c, m.price) {
      var p := Locate(b, m.orderId);
      var r := Replacement(m, p.side);
      var e := Emit(Replaced, r, 0, r.price, r.quantity, NoReason);
      CancelKeeps(c, b, p);
      ReplacementAdmitted(c, b, p, m);
      FoldConcat(c, b, [e], Submit(c, Remove(b, p), r, true).events);
      FoldOne(c, b, e);
      DropPresent(b, p);
      FoldSubmit(c, Remove(b, p), r, true);
    } else {
      FoldOne(c, b, ReplaceOrder(c, b, m).events[0]);
    }
  }

  lemma {:induction false} FoldCancel(c: Config, b: Book, m: Command)
    requires Sound(c, b) && b.last == m.sequence
    ensures Fold(c, b, CancelOrder(c, b, m).events) == CancelOrder(c, b, m).book
  {
    hide Fold;
    FoldOne(c, b, CancelOrder(c, b, m).events[0]);
    if Resident(b, m.orderId) { DropPresent(b, Locate(b, m.orderId)); }
  }

  lemma {:induction false} FoldFirst(c: Config, b: Book, es: seq<Event>, last: u64)
    requires ValidConfig(c) && Sized(c, b) && es != [] && es[0].sequence == last
    requires !(es[0].kind == Rejected && es[0].reason == SequenceGap)
    ensures Fold(c, b, es) == Fold(c, b.(last := last), es)
  {
    assert Apply(c, b, es[0]) == Apply(c, b.(last := last), es[0]);
  }

  lemma {:induction false} FoldDispatch(c: Config, b: Book, m: Command)
    requires Sound(c, b) && b.last == m.sequence
    ensures Fold(c, b, Dispatch(c, b, m).events) == Dispatch(c, b, m).book
  {
    hide Fold, Submit, CancelOrder, ReplaceOrder;
    match m.kind
    case New =>
      assert Admission(c, b, m, false) != SequenceGap;
      FoldSubmit(c, b, m, false);
    case Cancel => FoldCancel(c, b, m);
    case Replace => FoldReplace(c, b, m);
  }

  lemma {:induction false} FoldProcess(c: Config, b: Book, m: Command)
    requires Sound(c, b)
    ensures Fold(c, b, Process(c, b, m).events) == Process(c, b, m).book
  {
    hide Fold, Dispatch, ResponseShape;
    var x := Process(c, b, m);
    if m.sequence == Next(b.last) {
      var t := b.(last := m.sequence);
      AdvanceKeeps(c, b, m.sequence);
      FoldDispatch(c, t, m);
      DispatchShape(c, t, m);
      ShapeNonEmpty(x.events);
      FoldFirst(c, b, x.events, m.sequence);
    } else {
      FoldOne(c, b, x.events[0]);
    }
  }

  lemma {:induction false} ShapeNonEmpty(es: seq<Event>)
    requires ResponseShape(es)
    ensures es != []
  {}

  /** Folding a run's events over the starting book gives the final book, FIFO by FIFO. */
  lemma {:induction false} EventsDetermineBook(c: Config, b: Book, ms: seq<Command>)
    requires Sound(c, b)
    ensures Fold(c, b, Run(c, b, ms).events) == Run(c, b, ms).book
  {
    if ms != [] {
      var front, m := ms[..|ms| - 1], ms[|ms| - 1];
      var f := Run(c, b, front);
      EventsDetermineBook(c, b, front);
      RunTheorem(c, b, front);
      FoldProcess(c, f.book, m);
      FoldConcat(c, b, f.events, Process(c, f.book, m).events);
    }
  }
}
