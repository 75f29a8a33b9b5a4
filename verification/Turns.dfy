/** When the head of every FIFO a sweep takes from is also its earliest order. */
module Turns {
  import opened Types
  import opened Ladder
  import opened Matching
  import opened Invariants

  /** No order of the FIFO was admitted before its head. */
  predicate HeadFirst(l: Level) {
    forall j | 0 < j < |l| :: l[0].priority <= l[j].priority
  }

  /** Each order that a fill of q takes from is the earliest of those still queued. */
  predicate DrainInTurn(l: Level, q: u64) {
    q == 0 || l == [] || (HeadFirst(l) && (q < l[0].qty || DrainInTurn(l[1..], q - l[0].qty)))
  }

  /** The same over ranks r .. bound-1, as the sweep visits them. */
  predicate InTurn(ls: seq<Level>, s: Side, r: nat, bound: nat, q: u64)
    requires r <= bound <= |ls|
    decreases bound - r
  {
    r == bound || q == 0 ||
    var i := Slot(s, r, |ls|);
    DrainInTurn(ls[i], q) && InTurn(ls, s, r + 1, bound, Drain(ls[i], i, q).left)
  }

  // ---- one trade at a time -------------------------------------------------------------------

  lemma {:induction false} DrainInTurnStep(l: Level, q: u64)
    requires q > 0 && l != []
    ensures var t := if q < l[0].qty then q else l[0].qty;
            DrainInTurn(l, q) <==> HeadFirst(l) && DrainInTurn(TradeHead(l, t), q - t)
  {}

  /** Only the ranks still to come matter. */
  lemma {:induction false} InTurnAhead(ls: seq<Level>, ls': seq<Level>, s: Side, r: nat, bound: nat, q: u64)
    requires r <= bound <= |ls| == |ls'|
    requires forall k | r <= k < bound :: ls'[Slot(s, k, |ls|)] == ls[Slot(s, k, |ls|)]
    ensures InTurn(ls', s, r, bound, q) <==> InTurn(ls, s, r, bound, q)
    decreases bound - r
  {
    hide Drain, DrainInTurn;
    if r < bound {
      var i := Slot(s, r, |ls|);
      InTurnAhead(ls, ls', s, r + 1, bound, Drain(ls[i], i, q).left);
    }
  }

  lemma {:induction false} InTurnSkip(ls: seq<Level>, s: Side, r: nat, hi: nat, bound: nat, q: u64)
    requires r <= hi <= bound <= |ls| && EmptyRanks(ls, s, r, hi)
    ensures InTurn(ls, s, r, bound, q) <==> InTurn(ls, s, hi, bound, q)
    decreases hi - r
  {
    if r < hi && q > 0 { InTurnSkip(ls, s, r + 1, hi, bound, q); }
  }

  /** Nothing within reach: nothing out of turn. */
  lemma {:induction false} InTurnStops(ls: seq<Level>, s: Side, bound: nat, q: u64)
    requires bound <= |ls| && (q == 0 || EmptyRanks(ls, s, 0, bound))
    ensures InTurn(ls, s, 0, bound, q)
  {
    if q > 0 { InTurnSkip(ls, s, 0, bound, bound, q); }
  }

  /** The best nonempty level's head is in turn, and so is the rest of the sweep. */
  lemma {:induction false} InTurnStep(ls: seq<Level>, s: Side, r: nat, bound: nat, q: u64)
    requires r < bound <= |ls| && q > 0
    requires EmptyRanks(ls, s, 0, r) && ls[Slot(s, r, |ls|)] != []
    ensures var i := Slot(s, r, |ls|);
            var t := if q < ls[i][0].qty then q else ls[i][0].qty;
            InTurn(ls, s, 0, bound, q)
            <==> HeadFirst(ls[i]) && InTurn(ls[i := TradeHead(ls[i], t)], s, 0, bound, q - t)
  {
    hide DrainInTurn, HeadFirst;
    var i := Slot(s, r, |ls|);
    var t := if q < ls[i][0].qty then q else ls[i][0].qty;
    var ls' := ls[i := TradeHead(ls[i], t)];
    InTurnSkip(ls, s, 0, r, bound, q);
    InTurnSkip(ls', s, 0, r, bound, q - t);
    DrainInTurnStep(ls[i], q);
    DrainStep(ls[i], i, q);
    InTurnAhead(ls, ls', s, r + 1, bound, Drain(ls[i], i, q).left);
    InTurnHere(ls, s, r, bound, q);
    InTurnHere(ls', s, r, bound, q - t);
  }

  lemma {:induction false} InTurnHere(ls: seq<Level>, s: Side, r: nat, bound: nat, q: u64)
    requires r < bound <= |ls|
    ensures var i := Slot(s, r, |ls|);
            InTurn(ls, s, r, bound, q)
            <==> DrainInTurn(ls[i], q) && InTurn(ls, s, r + 1, bound, Drain(ls[i], i, q).left)
  {}

  // ---- admission order suffices --------------------------------------------------------------

  lemma {:induction false} AscendingInTurn(l: Level, q: u64)
    requires forall j, k | 0 <= j < k < |l| :: l[j].priority <= l[k].priority
    ensures DrainInTurn(l, q)
  {
    if q > 0 && l != [] && q >= l[0].qty { AscendingInTurn(l[1..], q - l[0].qty); }
  }

  lemma {:induction false} QueuedInTurn(b: Book, s: Side, r: nat, bound: nat, q: u64)
    requires Queued(b) && r <= bound <= |Levels(b, s)|
    ensures InTurn(Levels(b, s), s, r, bound, q)
    decreases bound - r
  {
    var ls: seq<Level> := Levels(b, s);
    if r < bound {
      var i := Slot(s, r, |ls|);
      forall j, k | 0 <= j < k < |ls[i]| ensures ls[i][j].priority <= ls[i][k].priority {
        assert Ahead(b, Place(s, i, j), Place(s, i, k));
      }
      AscendingInTurn(ls[i], q);
      QueuedInTurn(b, s, r + 1, bound, Drain(ls[i], i, q).left);
    }
  }
}
