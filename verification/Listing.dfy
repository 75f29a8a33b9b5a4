/** A ladder as a list of resting orders: each FIFO is a filtered copy of the list. */
module Listing {
  import opened Types
  import opened Ladder
  import opened Invariants

  function Entry(o: RestingOrder): Order {
    Order(o.orderId, o.quantity, o.priority)
  }

  predicate Listed(c: Config, os: seq<RestingOrder>)
    requires ValidConfig(c)
  {
    forall k | 0 <= k < |os| :: ValidPrice(c, os[k].price)
  }

  predicate Sits(c: Config, o: RestingOrder, s: Side, i: nat)
    requires ValidConfig(c)
  {
    o.side == s && ValidPrice(c, o.price) && PriceIndex(c, o.price) == i
  }

  /** An order as it appears in one FIFO: at most once. */
  function One(c: Config, o: RestingOrder, s: Side, i: nat): Level
    requires ValidConfig(c)
  {
    if Sits(c, o, s, i) then [Entry(o)] else []
  }

  /** The FIFO of side s and tick i, in list order. */
  function Pick(c: Config, os: seq<RestingOrder>, s: Side, i: nat): Level
    requires ValidConfig(c)
  {
    if os == [] then [] else One(c, os[0], s, i) + Pick(c, os[1..], s, i)
  }

  function LevelsOf(c: Config, os: seq<RestingOrder>, s: Side): (ls: seq<Level>)
    requires ValidConfig(c)
    ensures |ls| == PriceCount(c)
  {
    seq(PriceCount(c), i requires 0 <= i < PriceCount(c) => Pick(c, os, s, i))
  }

  function BookOf(c: Config, os: seq<RestingOrder>, last: u64): (b: Book)
    requires ValidConfig(c)
    ensures Sized(c, b)
  {
    Book(LevelsOf(c, os, Buy), LevelsOf(c, os, Sell), last)
  }

  lemma {:induction false} PickCons(c: Config, o: RestingOrder, os: seq<RestingOrder>, s: Side, i: nat)
    requires ValidConfig(c)
    ensures Pick(c, [o] + os, s, i) == One(c, o, s, i) + Pick(c, os, s, i)
  {
    hide One;
    assert ([o] + os)[1..] == os;
  }

  lemma {:induction false} PickConcat(c: Config, x: seq<RestingOrder>, y: seq<RestingOrder>, s: Side, i: nat)
    requires ValidConfig(c)
    ensures Pick(c, x + y, s, i) == Pick(c, x, s, i) + Pick(c, y, s, i)
  {
    hide Sits;
    if x == [] { assert x + y == y; } else {
      assert (x + y)[1..] == x[1..] + y && (x + y)[0] == x[0];
      PickConcat(c, x[1..], y, s, i);
    }
  }

  /** A FIFO split around list entry k. */
  lemma {:induction false} PickAround(c: Config, os: seq<RestingOrder>, k: nat, s: Side, i: nat)
    requires ValidConfig(c) && k < |os|
    ensures Pick(c, os, s, i)
            == Pick(c, os[..k], s, i) + One(c, os[k], s, i) + Pick(c, os[k + 1..], s, i)
  {
    hide Sits;
    assert os == os[..k] + os[k..];
    assert os[k..][0] == os[k] && os[k..][1..] == os[k + 1..];
    PickConcat(c, os[..k], os[k..], s, i);
  }

  /** Every FIFO entry comes from the list. */
  lemma {:induction false} PickOrigin(c: Config, os: seq<RestingOrder>, s: Side, i: nat, pos: nat) returns (k: nat)
    requires ValidConfig(c) && pos < |Pick(c, os, s, i)|
    ensures k < |os| && Sits(c, os[k], s, i) && Pick(c, os, s, i)[pos] == Entry(os[k])
    ensures |Pick(c, os[..k], s, i)| == pos
  {
    hide Sits;
    if Sits(c, os[0], s, i) && pos == 0 {
      k := 0;
    } else {
      var j := PickOrigin(c, os[1..], s, i, if Sits(c, os[0], s, i) then pos - 1 else pos);
      k := j + 1;
      assert os[..k][0] == os[0] && os[..k][1..] == os[1..][..j];
    }
  }

  lemma {:induction false} PlaceOf(c: Config, os: seq<RestingOrder>, last: u64, k: nat) returns (p: Place)
    requires ValidConfig(c) && k < |os| && ValidPrice(c, os[k].price)
    ensures p.side == os[k].side && p.index == PriceIndex(c, os[k].price) < PriceCount(c)
    ensures p.pos == |Pick(c, os[..k], p.side, p.index)|
    ensures Holds(BookOf(c, os, last), p) && OrderAt(BookOf(c, os, last), p) == Entry(os[k])
  {
    IndexOfPrice(c, os[k].price);
    p := Place(os[k].side, PriceIndex(c, os[k].price), |Pick(c, os[..k], os[k].side, PriceIndex(c, os[k].price))|);
    PickAround(c, os, k, p.side, p.index);
  }

  function Splice(os: seq<RestingOrder>, k: nat): seq<RestingOrder>
    requires k < |os|
  {
    os[..k] + os[k + 1..]
  }

  lemma {:induction false} PickSplice(c: Config, os: seq<RestingOrder>, k: nat, s: Side, i: nat)
    requires ValidConfig(c) && k < |os|
    ensures Pick(c, Splice(os, k), s, i) == Pick(c, os[..k], s, i) + Pick(c, os[k + 1..], s, i)
  {
    PickConcat(c, os[..k], os[k + 1..], s, i);
  }

  lemma {:induction false} SpliceRemovesAt(c: Config, os: seq<RestingOrder>, k: nat, s: Side, i: nat)
    requires ValidConfig(c) && k < |os|
    ensures !Sits(c, os[k], s, i) ==> Pick(c, Splice(os, k), s, i) == Pick(c, os, s, i)
    ensures Sits(c, os[k], s, i) ==>
              && |Pick(c, os[..k], s, i)| < |Pick(c, os, s, i)|
              && Pick(c, Splice(os, k), s, i) == RemoveAt(Pick(c, os, s, i), |Pick(c, os[..k], s, i)|)
  {
    hide Pick, Sits;
    PickAround(c, os, k, s, i);
    PickSplice(c, os, k, s, i);
    var a, z, l := Pick(c, os[..k], s, i), Pick(c, os[k + 1..], s, i), Pick(c, os, s, i);
    if Sits(c, os[k], s, i) {
      assert l[..|a|] == a && l[|a| + 1..] == z;
    }
  }

  /** Removing a list entry removes one place of the ladder. */
  lemma {:induction false} SpliceRemoves(c: Config, os: seq<RestingOrder>, last: u64, k: nat, p: Place)
    requires ValidConfig(c) && k < |os| && ValidPrice(c, os[k].price)
    requires p.side == os[k].side && p.index == PriceIndex(c, os[k].price)
    requires p.pos == |Pick(c, os[..k], p.side, p.index)|
    requires Holds(BookOf(c, os, last), p)
    ensures BookOf(c, Splice(os, k), last) == Remove(BookOf(c, os, last), p)
  {
    hide Pick, Splice, RemoveAt, ValidPrice, PriceIndex;
    var b, t := BookOf(c, os, last), BookOf(c, Splice(os, k), last);
    forall s: Side, i | 0 <= i < PriceCount(c) ensures Levels(t, s)[i] == Levels(Remove(b, p), s)[i] {
      SpliceRemovesAt(c, os, k, s, i);
    }
    assert Levels(t, Buy) == Levels(Remove(b, p), Buy);
    assert Levels(t, Sell) == Levels(Remove(b, p), Sell);
  }

  /** Appending to the list appends to one FIFO. */
  lemma {:induction false} AppendListed(c: Config, os: seq<RestingOrder>, last: u64, o: RestingOrder)
    requires ValidConfig(c) && ValidPrice(c, o.price)
    ensures PriceIndex(c, o.price) < PriceCount(c)
    ensures BookOf(c, os + [o], last) == Append(BookOf(c, os, last), o.side, PriceIndex(c, o.price), Entry(o))
  {
    IndexOfPrice(c, o.price);
    var b, t := BookOf(c, os, last), BookOf(c, os + [o], last);
    var b' := Append(b, o.side, PriceIndex(c, o.price), Entry(o));
    forall s: Side, i | 0 <= i < PriceCount(c) ensures Levels(t, s)[i] == Levels(b', s)[i] {
      PickConcat(c, os, [o], s, i);
      assert [o][1..] == [];
      assert Pick(c, [o], s, i) == if Sits(c, o, s, i) then [Entry(o)] else [];
    }
    assert Levels(t, Buy) == Levels(b', Buy);
    assert Levels(t, Sell) == Levels(b', Sell);
  }

  lemma {:induction false} EmptyListing(c: Config)
    requires ValidConfig(c)
    ensures BookOf(c, [], 0) == Empty(c)
  {}

  /** The ladder holds as many orders as the list. */
  lemma {:induction false} ListingCount(c: Config, os: seq<RestingOrder>, last: u64)
    requires ValidConfig(c) && Listed(c, os)
    ensures Resting(BookOf(c, os, last)) == |os|
  {
    if os == [] {
      NoneListed(c, last);
    } else {
      var front, o := os[..|os| - 1], os[|os| - 1];
      assert os == front + [o];
      ListingCount(c, front, last);
      AppendListed(c, front, last, o);
      AppendExtends(BookOf(c, front, last), o.side, PriceIndex(c, o.price), Entry(o));
    }
  }

  lemma {:induction false} NoneListed(c: Config, last: u64)
    requires ValidConfig(c)
    ensures Resting(BookOf(c, [], last)) == 0
  {
    CountNone(BookOf(c, [], last).bids, PriceCount(c));
    CountNone(BookOf(c, [], last).asks, PriceCount(c));
  }
}
