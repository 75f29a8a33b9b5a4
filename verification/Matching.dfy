/** What a sweep of one side does: price-time order, conservation, and single-step unfolding. */
module Matching {
  import opened Types
  import opened Ladder

  // ---- one fill at a time: the form in which the engine's loop runs --------------------------

  predicate EmptyRanks(ls: seq<Level>, s: Side, lo: nat, hi: nat)
    requires hi <= |ls|
  {
    forall r | lo <= r < hi :: ls[Slot(s, r, |ls|)] == []
  }

  lemma {:induction false} SweepSkip(ls: seq<Level>, s: Side, r: nat, hi: nat, bound: nat, q: u64)
    requires r <= hi <= bound <= |ls| && EmptyRanks(ls, s, r, hi)
    ensures Sweep(ls, s, r, bound, q) == Sweep(ls, s, hi, bound, q)
    decreases hi - r
  {
    if r < hi && q > 0 {
      var i := Slot(s, r, |ls|);
      assert ls[i := []] == ls;
      SweepSkip(ls, s, r + 1, hi, bound, q);
    }
  }

  /** Nothing within reach: the sweep is over. */
  lemma {:induction false} SweepStops(ls: seq<Level>, s: Side, bound: nat, q: u64)
    requires bound <= |ls| && (q == 0 || EmptyRanks(ls, s, 0, bound))
    ensures Sweep(ls, s, 0, bound, q) == Swept(ls, q, [])
  {
    if q > 0 { SweepSkip(ls, s, 0, bound, bound, q); }
  }

  function TradeHead(l: Level, t: u64): Level
    requires l != [] && t <= l[0].qty
  {
    if t == l[0].qty then l[1..] else [l[0].(qty := l[0].qty - t)] + l[1..]
  }

  lemma {:induction false} DrainStep(l: Level, i: nat, q: u64)
    requires q > 0 && l != []
    ensures
      var t := if q < l[0].qty then q else l[0].qty;
      var again := Drain(TradeHead(l, t), i, q - t);
      Drain(l, i, q) == Drained(again.level, again.left, [Fill(i, l[0].id, t)] + again.fills)
  {}

  /** One rank of the sweep, whatever is left to fill. */
  lemma {:induction false} SweepUnfold(ls: seq<Level>, s: Side, r: nat, bound: nat, q: u64)
    requires r < bound <= |ls|
    ensures
      var i := Slot(s, r, |ls|);
      var d := Drain(ls[i], i, q);
      var rest := Sweep(ls[i := d.level], s, r + 1, bound, d.left);
      Sweep(ls, s, r, bound, q) == Swept(rest.levels, rest.left, d.fills + rest.fills)
  {
    var i := Slot(s, r, |ls|);
    if q == 0 { assert ls[i := ls[i]] == ls; }
  }

  lemma {:induction false} SweepStepHere(ls: seq<Level>, s: Side, r: nat, bound: nat, q: u64, i: nat, t: u64,
                                         ls': seq<Level>)
    requires r < bound <= |ls| && q > 0 && i == Slot(s, r, |ls|) && ls[i] != []
    requires t == if q < ls[i][0].qty then q else ls[i][0].qty
    requires ls' == ls[i := TradeHead(ls[i], t)]
    ensures
      var again := Sweep(ls', s, r, bound, q - t);
      Sweep(ls, s, r, bound, q) == Swept(again.levels, again.left, [Fill(i, ls[i][0].id, t)] + again.fills)
  {
    hide Drain, Sweep;
    var f := [Fill(i, ls[i][0].id, t)];
    var d, d' := Drain(ls[i], i, q), Drain(ls'[i], i, q - t);
    DrainStep(ls[i], i, q);
    assert ls'[i := d'.level] == ls[i := d.level];
    var rest := Sweep(ls[i := d.level], s, r + 1, bound, d.left);
    SweepUnfold(ls, s, r, bound, q);
    SweepUnfold(ls', s, r, bound, q - t);
    assert (f + d'.fills) + rest.fills == f + (d'.fills + rest.fills);
  }

  /** The sweep equals: trade with the head of the best nonempty level, then sweep again. */
  lemma {:induction false} SweepStep(ls: seq<Level>, s: Side, r: nat, bound: nat, q: u64)
    requires r < bound <= |ls| && q > 0
    requires EmptyRanks(ls, s, 0, r) && ls[Slot(s, r, |ls|)] != []
    ensures
      var i := Slot(s, r, |ls|);
      var o := ls[i][0];
      var t := if q < o.qty then q else o.qty;
      var again := Sweep(ls[i := TradeHead(ls[i], t)], s, 0, bound, q - t);
      Sweep(ls, s, 0, bound, q) == Swept(again.levels, again.left, [Fill(i, o.id, t)] + again.fills)
  {
    var i := Slot(s, r, |ls|);
    var t := if q < ls[i][0].qty then q else ls[i][0].qty;
    var ls' := ls[i := TradeHead(ls[i], t)];
    SweepSkip(ls, s, 0, r, bound, q);
    SweepSkip(ls', s, 0, r, bound, q - t);
    SweepStepHere(ls, s, r, bound, q, i, t, ls');
  }

  // ---- price-time priority -------------------------------------------------------------------

  /** One FIFO as offers, front first. */
  function Offers(l: Level, i: nat): seq<Fill> {
    seq(|l|, k requires 0 <= k < |l| => Fill(i, l[k].id, l[k].qty))
  }

  /** Ranks r .. bound-1 in priority order: better price first, then FIFO. */
  function Queue(ls: seq<Level>, s: Side, r: nat, bound: nat): seq<Fill>
    requires r <= bound <= |ls|
    decreases bound - r
  {
    if r == bound then [] else
      var i := Slot(s, r, |ls|);
      Offers(ls[i], i) + Queue(ls, s, r + 1, bound)
  }

  function Sum(fs: seq<Fill>): nat {
    if fs == [] then 0 else fs[0].qty + Sum(fs[1..])
  }

  /** Consume q from the front of a queue of offers: what is taken and what is left. */
  function Take(fs: seq<Fill>, q: nat): seq<Fill> {
    if q == 0 || fs == [] then []
    else if q < fs[0].qty then [fs[0].(qty := q)]
    else [fs[0]] + Take(fs[1..], q - fs[0].qty)
  }

  function Leave(fs: seq<Fill>, q: nat): seq<Fill> {
    if q == 0 || fs == [] then fs
    else if q < fs[0].qty then [fs[0].(qty := fs[0].qty - q)] + fs[1..]
    else Leave(fs[1..], q - fs[0].qty)
  }

  function Excess(q: nat, available: nat): nat {
    if q < available then 0 else q - available
  }

  lemma {:induction false} SumConcat(a: seq<Fill>, b: seq<Fill>)
    ensures Sum(a + b) == Sum(a) + Sum(b)
  {
    if a == [] { assert a + b == b; } else {
      assert (a + b)[1..] == a[1..] + b;
      SumConcat(a[1..], b);
    }
  }

  lemma {:induction false} TakeConcat(a: seq<Fill>, b: seq<Fill>, q: nat)
    ensures Take(a + b, q) == Take(a, q) + Take(b, Excess(q, Sum(a)))
    ensures Leave(a + b, q) == Leave(a, q) + Leave(b, Excess(q, Sum(a)))
  {
    if a == [] {
      assert a + b == b;
    } else if q == 0 {
    } else if q < a[0].qty {
      assert (a + b)[1..] == a[1..] + b;
    } else {
      assert (a + b)[1..] == a[1..] + b;
      TakeConcat(a[1..], b, q - a[0].qty);
      assert Excess(q, Sum(a)) == Excess(q - a[0].qty, Sum(a[1..]));
    }
  }

  lemma {:induction false} OffersTotal(l: Level, i: nat)
    ensures Sum(Offers(l, i)) == Total(l)
  {
    if l != [] {
      assert Offers(l, i)[1..] == Offers(l[1..], i);
      OffersTotal(l[1..], i);
    }
  }

  /** Filling q from `before` yields `fills`, leaves `after` and lacks `left`. */
  predicate Took(before: seq<Fill>, q: nat, fills: seq<Fill>, after: seq<Fill>, left: nat) {
    fills == Take(before, q) && after == Leave(before, q) && left == Excess(q, Sum(before))
  }

  lemma {:induction false} DrainTakes(l: Level, i: nat, q: u64)
    ensures var d := Drain(l, i, q);
            Took(Offers(l, i), q, d.fills, Offers(d.level, i), d.left)
  {
    OffersTotal(l, i);
    if q > 0 && l != [] {
      assert Offers(l, i)[1..] == Offers(l[1..], i);
      if q >= l[0].qty { DrainTakes(l[1..], i, q - l[0].qty); }
    }
  }

  lemma {:induction false} QueueUntouched(ls: seq<Level>, s: Side, r: nat, bound: nat, i: nat, l: Level)
    requires r <= bound <= |ls| && i < |ls| && Slot(s, i, |ls|) < r
    ensures Queue(ls[i := l], s, r, bound) == Queue(ls, s, r, bound)
    decreases bound - r
  {
    if r < bound { QueueUntouched(ls, s, r + 1, bound, i, l); }
  }

  lemma {:induction false} SweepOutside(ls: seq<Level>, s: Side, r: nat, bound: nat, q: u64, i: nat)
    requires r <= bound <= |ls| && i < |ls| && !(r <= Slot(s, i, |ls|) < bound)
    ensures Sweep(ls, s, r, bound, q).levels[i] == ls[i]
    decreases bound - r
  {
    if r < bound && q > 0 {
      var k := Slot(s, r, |ls|);
      var d := Drain(ls[k], k, q);
      SweepOutside(ls[k := d.level], s, r + 1, bound, d.left, i);
    }
  }

  lemma {:induction false} QueueSum(ls: seq<Level>, s: Side, r: nat, bound: nat)
    requires r <= bound <= |ls|
    ensures Sum(Queue(ls, s, r, bound)) == Depth(ls, s, bound) - Depth(ls, s, r)
    decreases bound - r
  {
    hide Offers, Total;
    if r < bound {
      var i := Slot(s, r, |ls|);
      OffersTotal(ls[i], i);
      SumConcat(Offers(ls[i], i), Queue(ls, s, r + 1, bound));
      QueueSum(ls, s, r + 1, bound);
    }
  }

  lemma {:induction false} TookBoth(b1: seq<Fill>, b2: seq<Fill>, q: nat, f1: seq<Fill>, f2: seq<Fill>,
                 a1: seq<Fill>, a2: seq<Fill>, l1: nat, l2: nat)
    requires Took(b1, q, f1, a1, l1) && Took(b2, l1, f2, a2, l2)
    ensures Took(b1 + b2, q, f1 + f2, a1 + a2, l2)
  {
    TakeConcat(b1, b2, q);
    SumConcat(b1, b2);
  }

  lemma {:induction false} SweepTakes(ls: seq<Level>, s: Side, r: nat, bound: nat, q: u64)
    requires r <= bound <= |ls|
    ensures var w := Sweep(ls, s, r, bound, q);
            Took(Queue(ls, s, r, bound), q, w.fills, Queue(w.levels, s, r, bound), w.left)
    decreases bound - r
  {
    hide Took;
    if r == bound {
      TookNothing(q);
    } else {
      var i := Slot(s, r, |ls|);
      var d := Drain(ls[i], i, q);
      var ls' := ls[i := d.level];
      var rest := Sweep(ls', s, r + 1, bound, d.left);
      DrainTakes(ls[i], i, q);
      SweepTakes(ls', s, r + 1, bound, d.left);
      QueueUntouched(ls, s, r + 1, bound, i, d.level);
      SweepOutside(ls', s, r + 1, bound, d.left, i);
      TookBoth(Offers(ls[i], i), Queue(ls, s, r + 1, bound), q, d.fills, rest.fills,
               Offers(d.level, i), Queue(rest.levels, s, r + 1, bound), d.left, rest.left);
      SweepUnfold(ls, s, r, bound, q);
    }
  }

  lemma {:induction false} TookNothing(q: nat)
    ensures Took([], q, [], [], q)
  {}

  /**
   Price-time priority. The fills are a prefix of the opposite side's offers in price-then-FIFO
   order, cut at the submitted quantity; what stays is the rest of that queue; levels out of
   reach keep their FIFO; and the unfilled remainder is exactly what the queue lacks.
   */
  lemma {:induction false} PriceTimePriority(ls: seq<Level>, s: Side, bound: nat, q: u64)
    requires bound <= |ls|
    ensures var w := Sweep(ls, s, 0, bound, q);
            var queue := Queue(ls, s, 0, bound);
            && w.fills == Take(queue, q)
            && Queue(w.levels, s, 0, bound) == Leave(queue, q)
            && (forall r | bound <= r < |ls| :: w.levels[Slot(s, r, |ls|)] == ls[Slot(s, r, |ls|)])
            && w.left == Excess(q, Depth(ls, s, bound))
            && Sum(w.fills) + w.left == q
  {
    SweepTakes(ls, s, 0, bound, q);
    QueueSum(ls, s, 0, bound);
    TakeSum(Queue(ls, s, 0, bound), q);
    forall r | bound <= r < |ls| ensures Sweep(ls, s, 0, bound, q).levels[Slot(s, r, |ls|)] == ls[Slot(s, r, |ls|)] {
      SweepOutside(ls, s, 0, bound, q, Slot(s, r, |ls|));
    }
  }

  lemma {:induction false} TakeSum(fs: seq<Fill>, q: nat)
    ensures Sum(Take(fs, q)) == q - Excess(q, Sum(fs))
  {
    if q > 0 && fs != [] && q >= fs[0].qty {
      TakeSum(fs[1..], q - fs[0].qty);
      assert Take(fs, q)[1..] == Take(fs[1..], q - fs[0].qty);
    }
  }

  /** Every fill but the last consumes its offer whole, and the last takes no more than is there. */
  lemma {:induction false} TakeIsPrefix(fs: seq<Fill>, q: nat)
    ensures var t := Take(fs, q);
            && |t| <= |fs|
            && (forall k | 0 <= k < |t| :: t[k].index == fs[k].index && t[k].id == fs[k].id && t[k].qty <= fs[k].qty)
            && (forall k | 0 <= k < |t| - 1 :: t[k] == fs[k])
  {
    if q > 0 && fs != [] && q >= fs[0].qty {
      TakeIsPrefix(fs[1..], q - fs[0].qty);
    }
  }

  predicate RankedWithin(fs: seq<Fill>, s: Side, n: nat, lo: nat, hi: nat) {
    && (forall k | 0 <= k < |fs| :: fs[k].index < n && lo <= Slot(s, fs[k].index, n) < hi)
    && (forall j, k | 0 <= j < k < |fs| :: Slot(s, fs[j].index, n) <= Slot(s, fs[k].index, n))
  }

  /** The queue stays within reach and never steps back to a better price. */
  lemma {:induction false} QueueRanks(ls: seq<Level>, s: Side, r: nat, bound: nat)
    requires r <= bound <= |ls|
    ensures RankedWithin(Queue(ls, s, r, bound), s, |ls|, r, bound)
    decreases bound - r
  {
    hide RankedWithin, Offers;
    if r < bound {
      var i := Slot(s, r, |ls|);
      QueueRanks(ls, s, r + 1, bound);
      OffersRanked(ls[i], i, s, |ls|);
      RankedConcat(Offers(ls[i], i), Queue(ls, s, r + 1, bound), s, |ls|, r, r + 1, bound);
    } else {
      NothingRanked(s, |ls|, r, bound);
    }
  }

  lemma {:induction false} NothingRanked(s: Side, n: nat, lo: nat, hi: nat)
    ensures RankedWithin([], s, n, lo, hi)
  {}

  lemma {:induction false} OffersRanked(l: Level, i: nat, s: Side, n: nat)
    requires i < n
    ensures RankedWithin(Offers(l, i), s, n, Slot(s, i, n), Slot(s, i, n) + 1)
  {}

  lemma {:induction false} RankedConcat(x: seq<Fill>, y: seq<Fill>, s: Side, n: nat, lo: nat, mid: nat, hi: nat)
    requires lo <= mid <= hi && RankedWithin(x, s, n, lo, mid) && RankedWithin(y, s, n, mid, hi)
    ensures RankedWithin(x + y, s, n, lo, hi)
  {
    var z := x + y;
    assert forall k | 0 <= k < |z| :: z[k] == if k < |x| then x[k] else y[k - |x|];
  }

  // ---- fill-or-kill preflight ----------------------------------------------------------------

  lemma {:induction false} ShownAtMostTrue(ls: seq<Level>, s: Side, n: nat)
    requires n <= |ls|
    ensures ShownDepth(ls, s, n) <= Depth(ls, s, n)
  {
    if n > 0 { ShownAtMostTrue(ls, s, n - 1); }
  }

  predicate NoWrap(ls: seq<Level>) {
    forall i | 0 <= i < |ls| :: Total(ls[i]) < TWO64
  }

  lemma {:induction false} ShownIsTrue(ls: seq<Level>, s: Side, n: nat)
    requires n <= |ls| && NoWrap(ls)
    ensures ShownDepth(ls, s, n) == Depth(ls, s, n)
  {
    if n > 0 { ShownIsTrue(ls, s, n - 1); }
  }

  /**
   A preflight that says yes is always right, wrapped totals or not; it says no wrongly exactly
   when the displayed depth falls short of a quantity the true depth covers, and never when no
   level has wrapped.
   */
  lemma {:induction false} Preflight(ls: seq<Level>, s: Side, bound: nat, q: u64)
    requires bound <= |ls|
    ensures ShownDepth(ls, s, bound) >= q ==> Sweep(ls, s, 0, bound, q).left == 0
    ensures (ShownDepth(ls, s, bound) >= q <==> Sweep(ls, s, 0, bound, q).left == 0)
            <==> !(ShownDepth(ls, s, bound) < q <= Depth(ls, s, bound))
    ensures NoWrap(ls) ==> (ShownDepth(ls, s, bound) >= q <==> Sweep(ls, s, 0, bound, q).left == 0)
  {
    ShownAtMostTrue(ls, s, bound);
    PriceTimePriority(ls, s, bound, q);
    if NoWrap(ls) { ShownIsTrue(ls, s, bound); }
  }

  /** Two orders of 2^63 at one tick display a total of zero: a one-lot preflight is refused. */
  lemma {:induction false} PreflightRefusesWrappedLevel()
    ensures var big := 0x8000_0000_0000_0000;
            var ls := [[Order(1, big, 1), Order(2, big, 2)]];
            ShownDepth(ls, Sell, 1) < 1 && Sweep(ls, Sell, 0, 1, 1).left == 0
  {
    var big: u64 := 0x8000_0000_0000_0000;
    var l := [Order(1, big, 1), Order(2, big, 2)];
    assert Total(l) == TWO64 by {
      assert l[1..] == [Order(2, big, 2)];
      assert Total(l[1..]) == big + Total([]) by { assert l[1..][1..] == []; }
    }
    PriceTimePriority([l], Sell, 1, 1);
    assert Depth([l], Sell, 1) == TWO64 by { assert Depth([l], Sell, 0) == 0; }
    assert ShownDepth([l], Sell, 1) == 0 by { assert ShownDepth([l], Sell, 0) == 0; }
  }
}
