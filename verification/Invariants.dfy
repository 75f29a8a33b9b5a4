/** What every command keeps, and so what holds of every reachable book. */
module Invariants {
  import opened Types
  import opened Ladder
  import opened Matching

  // ---- the invariants ------------------------------------------------------------------------

  ghost predicate Positive(b: Book) {
    forall p :: Holds(b, p) ==> OrderAt(b, p).qty > 0
  }

  ghost predicate UniqueIds(b: Book) {
    forall p, q :: Holds(b, p) && Holds(b, q) && OrderAt(b, p).id == OrderAt(b, q).id ==> p == q
  }

  /** Every resting bid is strictly below every resting ask. */
  ghost predicate Uncrossed(b: Book) {
    forall i, j :: 0 <= i < |b.bids| && 0 <= j < |b.asks| && b.bids[i] != [] && b.asks[j] != [] ==> i < j
  }

  /** What every operation relies on. Crossed prices are not excluded: a restored book may have them. */
  ghost predicate Sound(c: Config, b: Book) {
    && ValidConfig(c) && Sized(c, b)
    && Positive(b) && UniqueIds(b)
    && Resting(b) <= c.maximumOrders
  }

  /** p is ahead of q in the same FIFO. */
  predicate Ahead(b: Book, p: Place, q: Place) {
    Holds(b, p) && Holds(b, q) && p.side == q.side && p.index == q.index && p.pos < q.pos
  }

  /** No FIFO has a later order ahead of an earlier one. */
  ghost predicate Queued(b: Book) {
    forall p, q :: Ahead(b, p, q) ==> OrderAt(b, p).priority <= OrderAt(b, q).priority
  }

  /** Queued, and every order was admitted by the last sequence. */
  ghost predicate Dated(b: Book) {
    && Queued(b)
    && forall p :: Holds(b, p) ==> OrderAt(b, p).priority <= b.last
  }

  /** Each FIFO is in strictly increasing admission order, all of it admitted already. */
  ghost predicate Timely(b: Book) {
    && Dated(b)
    && (forall p, q :: Ahead(b, p, q) ==> OrderAt(b, p).priority < OrderAt(b, q).priority)
  }

  ghost predicate Capped(b: Book, most: u64) {
    forall p :: Holds(b, p) ==> OrderAt(b, p).qty <= most
  }

  // ---- thinning: orders leave or shrink, none moves ------------------------------------------

  /** The order at p in t is the one at q in b, perhaps with less quantity. */
  predicate Kept(t: Book, p: Place, b: Book, q: Place) {
    && Holds(t, p) && Holds(b, q) && p.side == q.side && p.index == q.index
    && OrderAt(t, p).id == OrderAt(b, q).id
    && OrderAt(t, p).priority == OrderAt(b, q).priority
    && 0 < OrderAt(t, p).qty <= OrderAt(b, q).qty
  }

  ghost predicate Embeds(t: Book, b: Book, f: Place -> Place) {
    && |t.bids| == |b.bids| && |t.asks| == |b.asks| && t.last == b.last
    && (forall p :: Holds(t, p) ==> Kept(t, p, b, f(p)))
    && (forall p, q :: Ahead(t, p, q) ==> f(p).pos < f(q).pos)
  }

  ghost predicate Thins(t: Book, b: Book) {
    exists f: Place -> Place :: Embeds(t, b, f)
  }

  lemma {:induction false} ThinsUnique(t: Book, b: Book, f: Place -> Place)
    requires Embeds(t, b, f) && UniqueIds(b)
    ensures UniqueIds(t)
  {
    forall p, q | Holds(t, p) && Holds(t, q) && OrderAt(t, p).id == OrderAt(t, q).id ensures p == q {
      assert Kept(t, p, b, f(p)) && Kept(t, q, b, f(q));
      assert f(p) == f(q);
    }
  }

  lemma {:induction false} ThinsUncrossed(t: Book, b: Book, f: Place -> Place)
    requires Embeds(t, b, f) && Uncrossed(b)
    ensures Uncrossed(t)
  {
    forall i, j | 0 <= i < |t.bids| && 0 <= j < |t.asks| && t.bids[i] != [] && t.asks[j] != [] ensures i < j {
      assert Kept(t, Place(Buy, i, 0), b, f(Place(Buy, i, 0)));
      assert Kept(t, Place(Sell, j, 0), b, f(Place(Sell, j, 0)));
    }
  }

  lemma {:induction false} ThinsQueued(t: Book, b: Book)
    requires Thins(t, b) && Queued(b)
    ensures Queued(t)
  {
    var f: Place -> Place :| Embeds(t, b, f);
    forall p, q | Ahead(t, p, q) ensures OrderAt(t, p).priority <= OrderAt(t, q).priority {
      assert Kept(t, p, b, f(p)) && Kept(t, q, b, f(q)) && Ahead(b, f(p), f(q));
    }
  }

  lemma {:induction false} ThinsDated(t: Book, b: Book, f: Place -> Place)
    requires Embeds(t, b, f) && Dated(b)
    ensures Dated(t) && (Timely(b) ==> Timely(t))
  {
    forall p | Holds(t, p) ensures OrderAt(t, p).priority <= t.last { assert Kept(t, p, b, f(p)); }
    forall p, q | Ahead(t, p, q)
      ensures OrderAt(t, p).priority <= OrderAt(t, q).priority
      ensures Timely(b) ==> OrderAt(t, p).priority < OrderAt(t, q).priority
    {
      assert Kept(t, p, b, f(p)) && Kept(t, q, b, f(q)) && Ahead(b, f(p), f(q));
    }
  }

  lemma {:induction false} ThinsKeeps(t: Book, b: Book)
    requires Thins(t, b)
    ensures Positive(t)
    ensures UniqueIds(b) ==> UniqueIds(t)
    ensures Uncrossed(b) ==> Uncrossed(t)
    ensures Dated(b) ==> Dated(t)
    ensures Timely(b) ==> Timely(t)
    ensures forall most | Capped(b, most) :: Capped(t, most)
    ensures forall id | Resident(t, id) :: Resident(b, id)
  {
    var f: Place -> Place :| Embeds(t, b, f);
    if UniqueIds(b) { ThinsUnique(t, b, f); }
    if Uncrossed(b) { ThinsUncrossed(t, b, f); }
    if Dated(b) { ThinsDated(t, b, f); }
    forall most | Capped(b, most) ensures Capped(t, most) {
      forall p | Holds(t, p) ensures OrderAt(t, p).qty <= most { assert Kept(t, p, b, f(p)); }
    }
    forall id | Resident(t, id) ensures Resident(b, id) {
      assert Kept(t, Locate(t, id), b, f(Locate(t, id)));
    }
  }

  /** A drained FIFO is a suffix of the old one whose front may have shrunk. */
  predicate AfterDrain(l': Level, l: Level) {
    && |l'| <= |l|
    && forall j | 0 <= j < |l'| ::
         var o := l[j + |l| - |l'|];
         l'[j].id == o.id && l'[j].priority == o.priority && 0 < l'[j].qty <= o.qty
  }

  predicate PositiveLevel(l: Level) {
    forall j | 0 <= j < |l| :: l[j].qty > 0
  }

  lemma {:induction false} AfterDrainTail(l': Level, l: Level)
    requires l != [] && AfterDrain(l', l[1..])
    ensures AfterDrain(l', l)
  {
    assert l[|l| - |l'|..] == l[1..][|l[1..]| - |l'|..];
  }

  lemma {:induction false} DrainShape(l: Level, i: nat, q: u64)
    requires PositiveLevel(l)
    ensures var d := Drain(l, i, q);
            && AfterDrain(d.level, l)
            && (d.left > 0 ==> d.level == [])
            && |d.level| + |d.fills| <= |l| + (if d.left == 0 then 1 else 0)
  {
    if q > 0 && l != [] && q >= l[0].qty {
      DrainShape(l[1..], i, q - l[0].qty);
      AfterDrainTail(Drain(l, i, q).level, l);
    }
  }

  predicate PositiveAll(ls: seq<Level>) {
    forall i | 0 <= i < |ls| :: PositiveLevel(ls[i])
  }

  lemma {:induction false} UntouchedShape(ls: seq<Level>)
    requires PositiveAll(ls)
    ensures forall i | 0 <= i < |ls| :: AfterDrain(ls[i], ls[i])
  {}

  lemma {:induction false} DrainPositive(l: Level, i: nat, q: u64)
    requires PositiveLevel(l)
    ensures PositiveLevel(Drain(l, i, q).level)
  {
    DrainShape(l, i, q);
  }

  lemma {:induction false} SweepShape(ls: seq<Level>, s: Side, r: nat, bound: nat, q: u64)
    requires r <= bound <= |ls| && PositiveAll(ls)
    ensures forall i | 0 <= i < |ls| :: AfterDrain(Sweep(ls, s, r, bound, q).levels[i], ls[i])
    decreases bound - r
  {
    hide AfterDrain, Drain;
    UntouchedShape(ls);
    if r < bound && q > 0 {
      var k := Slot(s, r, |ls|);
      var d := Drain(ls[k], k, q);
      var ls' := ls[k := d.level];
      DrainShape(ls[k], k, q);
      DrainPositive(ls[k], k, q);
      SweepShape(ls', s, r + 1, bound, d.left);
      SweepOutside(ls', s, r + 1, bound, d.left, k);
      forall i | 0 <= i < |ls| ensures AfterDrain(Sweep(ls', s, r + 1, bound, d.left).levels[i], ls[i]) {
        if i != k { assert ls'[i] == ls[i]; }
      }
    }
  }

  lemma {:induction false} SweepExhausts(ls: seq<Level>, s: Side, r: nat, bound: nat, q: u64, at: nat)
    requires r <= at < bound <= |ls| && PositiveAll(ls) && Sweep(ls, s, r, bound, q).left > 0
    ensures Sweep(ls, s, r, bound, q).levels[Slot(s, at, |ls|)] == []
    decreases bound - r
  {
    hide Drain;
    var k := Slot(s, r, |ls|);
    var d := Drain(ls[k], k, q);
    DrainShape(ls[k], k, q);
    if at == r {
      SweepOutside(ls[k := d.level], s, r + 1, bound, d.left, k);
    } else {
      SweepExhausts(ls[k := d.level], s, r + 1, bound, d.left, at);
    }
  }

  /** Every fill but one removes an order, and none is spared when quantity is left over. */
  lemma {:induction false} SweepCount(ls: seq<Level>, s: Side, r: nat, bound: nat, q: u64)
    requires r <= bound <= |ls| && PositiveAll(ls)
    ensures var w := Sweep(ls, s, r, bound, q);
            && CountTo(w.levels, |ls|) <= CountTo(ls, |ls|)
            && CountTo(w.levels, |ls|) + |w.fills| <= CountTo(ls, |ls|) + (if w.left == 0 then 1 else 0)
            && (q == 0 ==> w.fills == [])
    decreases bound - r
  {
    if r < bound && q > 0 {
      var k := Slot(s, r, |ls|);
      var d := Drain(ls[k], k, q);
      DrainShape(ls[k], k, q);
      SweepCount(ls[k := d.level], s, r + 1, bound, d.left);
      CountUpdate(ls, |ls|, k, d.level);
    }
  }

  lemma {:induction false} CountUpdate(ls: seq<Level>, n: nat, i: nat, l: Level)
    requires n <= |ls| && i < |ls|
    ensures CountTo(ls[i := l], n) == CountTo(ls, n) + (if i < n then |l| - |ls[i]| else 0)
  {
    if n > 0 { CountUpdate(ls, n - 1, i, l); }
  }

  lemma {:induction false} CountNone(ls: seq<Level>, n: nat)
    requires n <= |ls| && forall i | 0 <= i < |ls| :: ls[i] == []
    ensures CountTo(ls, n) == 0
  {
    if n > 0 { CountNone(ls, n - 1); }
  }

  lemma {:induction false} CountCovers(ls: seq<Level>, n: nat, i: nat)
    requires i < n <= |ls|
    ensures CountTo(ls, n) >= |ls[i]|
  {
    if i < n - 1 { CountCovers(ls, n - 1, i); }
  }

  lemma {:induction false} PositiveLevels(b: Book, s: Side)
    requires Positive(b)
    ensures PositiveAll(Levels(b, s))
  {
    forall i, j | 0 <= i < |Levels(b, s)| && 0 <= j < |Levels(b, s)[i]| ensures Levels(b, s)[i][j].qty > 0 {
      assert Holds(b, Place(s, i, j));
    }
  }

  /** Where an order sat before the front of its FIFO was consumed. */
  function Upstream(s: Side, before: seq<Level>, after: seq<Level>, p: Place): Place {
    if p.side == s && p.index < |before| == |after| && |after[p.index]| <= |before[p.index]|
    then p.(pos := p.pos + |before[p.index]| - |after[p.index]|) else p
  }

  lemma {:induction false} DrainedAt(b: Book, s: Side, ls: seq<Level>, p: Place)
    requires Positive(b) && |ls| == |Levels(b, s)|
    requires forall i | 0 <= i < |ls| :: AfterDrain(ls[i], Levels(b, s)[i])
    requires Holds(WithLevels(b, s, ls), p)
    ensures Kept(WithLevels(b, s, ls), p, b, Upstream(s, Levels(b, s), ls, p))
  {
    if p.side == s {
      assert AfterDrain(ls[p.index], Levels(b, s)[p.index]);
    } else {
      assert Holds(b, p);
    }
  }

  lemma {:induction false} DrainedThins(b: Book, s: Side, ls: seq<Level>)
    requires Positive(b) && |ls| == |Levels(b, s)|
    requires forall i | 0 <= i < |ls| :: AfterDrain(ls[i], Levels(b, s)[i])
    ensures Thins(WithLevels(b, s, ls), b)
  {
    var t := WithLevels(b, s, ls);
    var f := (p: Place) => Upstream(s, Levels(b, s), ls, p);
    forall p | Holds(t, p) ensures Kept(t, p, b, f(p)) { DrainedAt(b, s, ls, p); }
    assert Embeds(t, b, f) by { hide AfterDrain, Kept, Positive; }
  }

  lemma {:induction false} SweepThins(b: Book, s: Side, bound: nat, q: u64)
    requires Positive(b) && bound <= |Levels(b, s)|
    ensures Thins(WithLevels(b, s, Sweep(Levels(b, s), s, 0, bound, q).levels), b)
  {
    hide AfterDrain, Thins, Sweep;
    PositiveLevels(b, s);
    SweepShape(Levels(b, s), s, 0, bound, q);
    DrainedThins(b, s, Sweep(Levels(b, s), s, 0, bound, q).levels);
  }

  /** Where an order sat before the one at p was removed. */
  function Before(p: Place, q: Place): Place {
    if q.side == p.side && q.index == p.index && q.pos >= p.pos then q.(pos := q.pos + 1) else q
  }

  lemma {:induction false} RemovedAt(b: Book, p: Place, q: Place)
    requires Holds(b, p) && Holds(Remove(b, p), q)
    ensures Holds(b, Before(p, q)) && OrderAt(Remove(b, p), q) == OrderAt(b, Before(p, q)) && Before(p, q) != p
  {}

  lemma {:induction false} RemoveThins(b: Book, p: Place)
    requires Positive(b) && Holds(b, p)
    ensures Thins(Remove(b, p), b)
    ensures UniqueIds(b) ==> !Resident(Remove(b, p), OrderAt(b, p).id)
  {
    var t := Remove(b, p);
    var f := (q: Place) => Before(p, q);
    forall q | Holds(t, q)
      ensures Kept(t, q, b, f(q)) && (UniqueIds(b) ==> OrderAt(t, q).id != OrderAt(b, p).id)
    {
      RemovedAt(b, p, q);
    }
    assert Embeds(t, b, f);
  }

  lemma {:induction false} RemoveCount(b: Book, p: Place)
    requires Holds(b, p)
    ensures Resting(Remove(b, p)) == Resting(b) - 1
  {
    var ls := Levels(b, p.side);
    CountUpdate(ls, |ls|, p.index, RemoveAt(ls[p.index], p.pos));
  }

  lemma {:induction false} CancelKeeps(c: Config, b: Book, p: Place)
    requires Sound(c, b) && Holds(b, p)
    ensures Sound(c, Remove(b, p)) && Resting(Remove(b, p)) < c.maximumOrders
    ensures !Resident(Remove(b, p), OrderAt(b, p).id)
    ensures Uncrossed(b) ==> Uncrossed(Remove(b, p))
    ensures Dated(b) ==> Dated(Remove(b, p))
    ensures Timely(b) ==> Timely(Remove(b, p))
    ensures forall most | Capped(b, most) :: Capped(Remove(b, p), most)
  {
    RemoveThins(b, p);
    RemoveCount(b, p);
    ThinsKeeps(Remove(b, p), b);
  }

  // ---- executing a command -------------------------------------------------------------------

  /** The command passed the admission checks on this book. */
  ghost predicate Admitted(c: Config, b: Book, m: Command)
    requires ValidConfig(c) && Sized(c, b)
  {
    && m.quantity > 0 && (m.orderType.Market? || ValidPrice(c, m.price))
    && !Resident(b, m.orderId)
    && var opp := Opposite(m.side);
       (m.orderType.Limit? && Resting(b) == c.maximumOrders
        ==> ShownDepth(Levels(b, opp), opp, Reach(c, m)) >= m.quantity)
  }

  ghost predicate Extends(t: Book, b: Book, at: Place, o: Order) {
    && |t.bids| == |b.bids| && |t.asks| == |b.asks| && t.last == b.last
    && Holds(t, at) && OrderAt(t, at) == o && !Holds(b, at)
    && (forall p :: Holds(t, p) && p != at ==> Holds(b, p) && OrderAt(t, p) == OrderAt(b, p))
    && (forall p :: Holds(b, p) && p.side == at.side && p.index == at.index ==> p.pos < at.pos)
  }

  lemma {:induction false} AppendExtends(b: Book, s: Side, i: nat, o: Order)
    requires i < |Levels(b, s)|
    ensures Extends(Append(b, s, i, o), b, Place(s, i, |Levels(b, s)[i]|), o)
    ensures Resting(Append(b, s, i, o)) == Resting(b) + 1
  {
    var ls := Levels(b, s);
    CountUpdate(ls, |ls|, i, ls[i] + [o]);
  }

  lemma {:induction false} ExtendsUnique(t: Book, b: Book, at: Place, o: Order)
    requires Extends(t, b, at, o) && UniqueIds(b) && !Resident(b, o.id)
    ensures UniqueIds(t)
  {
    forall p, q | Holds(t, p) && Holds(t, q) && OrderAt(t, p).id == OrderAt(t, q).id ensures p == q {
      if p != at && q != at { assert Holds(b, p) && Holds(b, q); }
    }
  }

  lemma {:induction false} ExtendsDated(t: Book, b: Book, at: Place, o: Order)
    requires Extends(t, b, at, o) && Dated(b) && o.priority <= b.last
    requires forall p | Holds(b, p) :: OrderAt(b, p).priority < o.priority
    ensures Dated(t) && (Timely(b) ==> Timely(t))
  {
    forall p, q | Ahead(t, p, q)
      ensures OrderAt(t, p).priority <= OrderAt(t, q).priority
      ensures Timely(b) ==> OrderAt(t, p).priority < OrderAt(t, q).priority
    {
      if p == at { assert false; }
      if q != at { assert Ahead(b, p, q); }
    }
  }

  lemma {:induction false} ExtendsUncrossed(t: Book, b: Book, at: Place, o: Order)
    requires Extends(t, b, at, o) && Uncrossed(b)
    requires forall j | 0 <= j < |Levels(b, Opposite(at.side))| && Levels(b, Opposite(at.side))[j] != [] ::
               if at.side.Buy? then at.index < j else j < at.index
    ensures Uncrossed(t)
  {
    forall i, j | 0 <= i < |t.bids| && 0 <= j < |t.asks| && t.bids[i] != [] && t.asks[j] != [] ensures i < j {
      var p, q := Place(Buy, i, 0), Place(Sell, j, 0);
      assert Holds(t, p) && Holds(t, q);
      if p == at {
        assert Holds(b, q) && Levels(b, Opposite(at.side))[j] != [];
      } else if q == at {
        assert Holds(b, p) && Levels(b, Opposite(at.side))[i] != [];
      } else {
        assert Holds(b, p) && Holds(b, q) && b.bids[i] != [] && b.asks[j] != [];
      }
    }
  }

  lemma {:induction false} ReachCrosses(c: Config, m: Command, i: nat)
    requires ValidConfig(c) && m.orderType.Limit? && ValidPrice(c, m.price) && i < PriceCount(c)
    ensures Slot(Opposite(m.side), i, PriceCount(c)) < Reach(c, m)
            <==> if m.side.Buy? then i <= PriceIndex(c, m.price) else PriceIndex(c, m.price) <= i
  {}

  /** Prices that a limit order's remainder leaves on the other side are all out of its reach. */
  lemma {:induction false} RemainderIsUncrossed(c: Config, m: Command, ls: seq<Level>)
    requires ValidConfig(c) && m.orderType.Limit? && ValidPrice(c, m.price) && |ls| == PriceCount(c)
    requires EmptyRanks(ls, Opposite(m.side), 0, Reach(c, m))
    ensures forall j | 0 <= j < |ls| && ls[j] != [] ::
              if m.side.Buy? then PriceIndex(c, m.price) < j else j < PriceIndex(c, m.price)
  {
    var opp := Opposite(m.side);
    forall j | 0 <= j < |ls| && ls[j] != []
      ensures if m.side.Buy? then PriceIndex(c, m.price) < j else j < PriceIndex(c, m.price)
    {
      ReachCrosses(c, m, j);
      assert ls[Slot(opp, Slot(opp, j, |ls|), |ls|)] != [];
    }
  }

  /** The sequence outranks every resting order. */
  ghost predicate Newest(b: Book, sequence: u64) {
    forall p | Holds(b, p) :: OrderAt(b, p).priority < sequence
  }

  lemma {:induction false} ThinsNewest(t: Book, b: Book, sequence: u64)
    requires Thins(t, b) && Newest(b, sequence)
    ensures Newest(t, sequence)
  {
    var f: Place -> Place :| Embeds(t, b, f);
    forall p | Holds(t, p) ensures OrderAt(t, p).priority < sequence { assert Kept(t, p, b, f(p)); }
  }

  lemma {:induction false} ExecuteKeeps(c: Config, b: Book, m: Command)
    requires Sound(c, b) && Admitted(c, b, m)
    ensures Sound(c, Execute(c, b, m).book)
    ensures Uncrossed(b) ==> Uncrossed(Execute(c, b, m).book)
    ensures Dated(b) && m.sequence <= b.last && Newest(b, m.sequence) ==> Dated(Execute(c, b, m).book)
    ensures Timely(b) && m.sequence <= b.last && Newest(b, m.sequence) ==> Timely(Execute(c, b, m).book)
    ensures forall most | Capped(b, most) && m.quantity <= most :: Capped(Execute(c, b, m).book, most)
  {
    var opp := Opposite(m.side);
    var ls := Levels(b, opp);
    var n := Reach(c, m);
    var w := Sweep(ls, opp, 0, n, m.quantity);
    var t := WithLevels(b, opp, w.levels);
    SweepThins(b, opp, n, m.quantity);
    ThinsKeeps(t, b);
    PositiveLevels(b, opp);
    SweepCount(ls, opp, 0, n, m.quantity);
    if w.left > 0 && m.orderType.Limit? {
      Preflight(ls, opp, n, m.quantity);
      forall r | 0 <= r < n ensures w.levels[Slot(opp, r, |ls|)] == [] { SweepExhausts(ls, opp, 0, n, m.quantity, r); }
      IndexOfPrice(c, m.price);
      RemainderIsUncrossed(c, m, w.levels);
      if Newest(b, m.sequence) { ThinsNewest(t, b, m.sequence); }
      RestKeeps(c, t, m.side, PriceIndex(c, m.price), Order(m.orderId, w.left, m.sequence));
    }
  }

  lemma {:induction false} RestKeeps(c: Config, b: Book, s: Side, i: nat, o: Order)
    requires Sound(c, b) && Resting(b) < c.maximumOrders && i < PriceCount(c)
    requires o.qty > 0 && !Resident(b, o.id)
    requires forall j | 0 <= j < PriceCount(c) && Levels(b, Opposite(s))[j] != [] :: if s.Buy? then i < j else j < i
    ensures Sound(c, Append(b, s, i, o))
    ensures Uncrossed(b) ==> Uncrossed(Append(b, s, i, o))
    ensures Dated(b) && o.priority <= b.last && Newest(b, o.priority) ==> Dated(Append(b, s, i, o))
    ensures Timely(b) && o.priority <= b.last && Newest(b, o.priority) ==> Timely(Append(b, s, i, o))
    ensures forall most | Capped(b, most) && o.qty <= most :: Capped(Append(b, s, i, o), most)
  {
    var t, at := Append(b, s, i, o), Place(s, i, |Levels(b, s)[i]|);
    AppendExtends(b, s, i, o);
    ExtendsUnique(t, b, at, o);
    if Uncrossed(b) { ExtendsUncrossed(t, b, at, o); }
    if Dated(b) && o.priority <= b.last && Newest(b, o.priority) { ExtendsDated(t, b, at, o); }
  }
}
