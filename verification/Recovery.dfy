/** Snapshots of resting orders, their restoration, and replaying a journal over a snapshot. */
module Recovery {
  import opened Types
  import opened Ladder
  import opened Invariants
  import opened Runs
  import opened Listing

  // ---- enumerating resting orders ------------------------------------------------------------

  function ListLevel(l: Level, s: Side, price: Price): (os: seq<RestingOrder>)
    ensures |os| == |l|
  {
    seq(|l|, k requires 0 <= k < |l| => RestingOrder(l[k].id, s, price, l[k].qty, l[k].priority))
  }

  /** resting_orders over the first n ticks: ascending price, bids before asks, FIFO within. */
  function ListTo(c: Config, b: Book, n: nat): seq<RestingOrder>
    requires ValidConfig(c) && Sized(c, b) && n <= PriceCount(c)
  {
    if n == 0 then []
    else
      var p := IndexPrice(c, n - 1);
      ListTo(c, b, n - 1) + ListLevel(b.bids[n - 1], Buy, p) + ListLevel(b.asks[n - 1], Sell, p)
  }

  function RestingList(c: Config, b: Book): seq<RestingOrder>
    requires ValidConfig(c) && Sized(c, b)
  {
    ListTo(c, b, PriceCount(c))
  }

  lemma {:induction false} PickLevel(c: Config, l: Level, at: Side, n: nat, s: Side, i: nat)
    requires ValidConfig(c) && n < PriceCount(c)
    ensures Pick(c, ListLevel(l, at, IndexPrice(c, n)), s, i) == if s == at && i == n then l else []
  {
    PriceOfIndex(c, n);
    if l != [] {
      var os := ListLevel(l, at, IndexPrice(c, n));
      assert os[1..] == ListLevel(l[1..], at, IndexPrice(c, n));
      PickLevel(c, l[1..], at, n, s, i);
    }
  }

  lemma {:induction false} PickListTo(c: Config, b: Book, n: nat, s: Side, i: nat)
    requires ValidConfig(c) && Sized(c, b) && n <= PriceCount(c) && i < PriceCount(c)
    ensures Pick(c, ListTo(c, b, n), s, i) == if i < n then Levels(b, s)[i] else []
  {
    hide Pick, ListLevel, IndexPrice, ValidConfig;
    if n == 0 {
      PickNothing(c, s, i);
    } else {
      var p := IndexPrice(c, n - 1);
      var x, y, z := ListTo(c, b, n - 1), ListLevel(b.bids[n - 1], Buy, p), ListLevel(b.asks[n - 1], Sell, p);
      PickListTo(c, b, n - 1, s, i);
      PickConcat(c, x + y, z, s, i);
      PickConcat(c, x, y, s, i);
      PickLevel(c, b.bids[n - 1], Buy, n - 1, s, i);
      PickLevel(c, b.asks[n - 1], Sell, n - 1, s, i);
    }
  }

  lemma {:induction false} PickNothing(c: Config, s: Side, i: nat)
    requires ValidConfig(c)
    ensures Pick(c, [], s, i) == []
  {}

  lemma {:induction false} ListToListed(c: Config, b: Book, n: nat)
    requires ValidConfig(c) && Sized(c, b) && n <= PriceCount(c)
    ensures Listed(c, ListTo(c, b, n))
  {
    if n > 0 {
      ListToListed(c, b, n - 1);
      PriceOfIndex(c, n - 1);
    }
  }

  /** Ascending price, and bids before asks at one price. */
  predicate ListedInOrder(os: seq<RestingOrder>) {
    forall j, k | 0 <= j < k < |os| ::
      os[j].price < os[k].price || (os[j].price == os[k].price && !(os[j].side.Sell? && os[k].side.Buy?))
  }

  lemma {:induction false} ListToOrdered(c: Config, b: Book, n: nat)
    requires ValidConfig(c) && Sized(c, b) && n <= PriceCount(c)
    ensures ListedInOrder(ListTo(c, b, n))
    ensures forall k | 0 <= k < |ListTo(c, b, n)| :: n > 0 && ListTo(c, b, n)[k].price <= IndexPrice(c, n - 1)
  {
    hide IndexPrice, PriceCount;
    if n > 0 {
      ListToOrdered(c, b, n - 1);
      if n > 1 { IndexPriceOrder(c, n - 2, n - 1); }
    }
  }

  /** With the FIFOs of the round trip, this fixes the listing. */
  lemma {:induction false} ListingOrdered(c: Config, b: Book)
    requires ValidConfig(c) && Sized(c, b)
    ensures ListedInOrder(RestingList(c, b))
  {
    ListToOrdered(c, b, PriceCount(c));
  }

  /** Filing the enumerated orders gives the book back. */
  lemma {:induction false} ListingRoundTrip(c: Config, b: Book)
    requires ValidConfig(c) && Sized(c, b)
    ensures BookOf(c, RestingList(c, b), b.last) == b && Listed(c, RestingList(c, b))
    ensures |RestingList(c, b)| == Resting(b)
  {
    hide Pick, ListTo, ListLevel;
    forall s: Side, i | 0 <= i < PriceCount(c) ensures Pick(c, RestingList(c, b), s, i) == Levels(b, s)[i] {
      PickListTo(c, b, PriceCount(c), s, i);
    }
    assert LevelsOf(c, RestingList(c, b), Buy) == b.bids;
    assert LevelsOf(c, RestingList(c, b), Sell) == b.asks;
    ListToListed(c, b, PriceCount(c));
    ListingCount(c, RestingList(c, b), b.last);
  }

  // ---- stable sort by priority ---------------------------------------------------------------

  function Insert(o: RestingOrder, os: seq<RestingOrder>): (r: seq<RestingOrder>)
    ensures multiset(r) == multiset{o} + multiset(os)
  {
    if os == [] || o.priority <= os[0].priority then [o] + os
    else
      assert os == [os[0]] + os[1..];
      [os[0]] + Insert(o, os[1..])
  }

  /** std::stable_sort by priority. */
  function StableSort(os: seq<RestingOrder>): (r: seq<RestingOrder>)
    ensures multiset(r) == multiset(os)
  {
    if os == [] then []
    else
      assert os == [os[0]] + os[1..];
      Insert(os[0], StableSort(os[1..]))
  }

  predicate SortedByPriority(os: seq<RestingOrder>) {
    forall j, k | 0 <= j < k < |os| :: os[j].priority <= os[k].priority
  }

  predicate Ascending(l: Level) {
    forall j, k | 0 <= j < k < |l| :: l[j].priority <= l[k].priority
  }

  lemma {:induction false} InsertSorts(o: RestingOrder, os: seq<RestingOrder>)
    requires SortedByPriority(os)
    ensures SortedByPriority(Insert(o, os))
  {
    if os != [] && o.priority > os[0].priority {
      InsertSorts(o, os[1..]);
      forall x | x in Insert(o, os[1..]) ensures os[0].priority <= x.priority {
        assert x in multiset(Insert(o, os[1..]));
        assert x == o || x in os[1..];
      }
      SortedCons(os[0], Insert(o, os[1..]));
    } else {
      SortedCons(o, os);
    }
  }

  lemma {:induction false} SortedCons(o: RestingOrder, os: seq<RestingOrder>)
    requires SortedByPriority(os) && forall x | x in os :: o.priority <= x.priority
    ensures SortedByPriority([o] + os)
  {
    var all := [o] + os;
    assert forall k | 0 < k < |all| :: all[k] == os[k - 1] && all[k] in os;
  }

  lemma {:induction false} SortSorts(os: seq<RestingOrder>)
    ensures SortedByPriority(StableSort(os))
  {
    if os != [] {
      SortSorts(os[1..]);
      InsertSorts(os[0], StableSort(os[1..]));
    }
  }

  predicate NoneEarlier(l: Level, priority: u64) {
    forall k | 0 <= k < |l| :: priority <= l[k].priority
  }

  /** Inserting an order no later than its FIFO puts it at the FIFO's front, and moves no other FIFO. */
  lemma {:induction false} InsertPick(c: Config, o: RestingOrder, os: seq<RestingOrder>, s: Side, i: nat)
    requires ValidConfig(c) && (Sits(c, o, s, i) ==> NoneEarlier(Pick(c, os, s, i), o.priority))
    ensures Pick(c, Insert(o, os), s, i) == One(c, o, s, i) + Pick(c, os, s, i)
  {
    hide Pick, Sits, NoneEarlier, One;
    PickCons(c, o, os, s, i);
    if os != [] && o.priority > os[0].priority {
      var tail := Pick(c, os[1..], s, i);
      PickCons(c, os[0], os[1..], s, i);
      assert [os[0]] + os[1..] == os;
      PickCons(c, os[0], Insert(o, os[1..]), s, i);
      NoneEarlierTail(c, os[0], tail, s, i, o.priority);
      InsertPick(c, o, os[1..], s, i);
      NotSeated(c, o, s, i);
      var first, mine := One(c, os[0], s, i), One(c, o, s, i);
      assert first == [] || mine == [];
      assert first + (mine + tail) == mine + (first + tail);
    }
  }

  lemma {:induction false} NotSeated(c: Config, o: RestingOrder, s: Side, i: nat)
    requires ValidConfig(c)
    ensures !Sits(c, o, s, i) ==> One(c, o, s, i) == []
  {}

  lemma {:induction false} NoneEarlierTail(c: Config, o: RestingOrder, tail: Level, s: Side, i: nat, priority: u64)
    requires ValidConfig(c)
    ensures NoneEarlier(One(c, o, s, i) + tail, priority) ==> NoneEarlier(tail, priority)
    ensures NoneEarlier(One(c, o, s, i) + tail, priority) && o.priority < priority ==> One(c, o, s, i) == []
  {
    hide ValidPrice, PriceIndex;
    var l := One(c, o, s, i) + tail;
    assert forall k | 0 <= k < |tail| :: tail[k] == l[k + |One(c, o, s, i)|];
    if Sits(c, o, s, i) { assert l[0] == Entry(o); }
  }

  /** Stability: every FIFO that is already in admission order, ties or not, stays as it was. */
  lemma {:induction false} SortPick(c: Config, os: seq<RestingOrder>, s: Side, i: nat)
    requires ValidConfig(c) && Ascending(Pick(c, os, s, i))
    ensures Pick(c, StableSort(os), s, i) == Pick(c, os, s, i)
  {
    hide Sits;
    if os != [] {
      var tail := Pick(c, os[1..], s, i);
      AscendingTail(c, os[0], tail, s, i);
      SortPick(c, os[1..], s, i);
      InsertPick(c, os[0], StableSort(os[1..]), s, i);
    }
  }

  lemma {:induction false} AscendingTail(c: Config, o: RestingOrder, tail: Level, s: Side, i: nat)
    requires ValidConfig(c) && Ascending(One(c, o, s, i) + tail)
    ensures Ascending(tail) && (Sits(c, o, s, i) ==> NoneEarlier(tail, o.priority))
  {
    hide Sits;
    var l := One(c, o, s, i) + tail;
    assert forall k | 0 <= k < |tail| :: tail[k] == l[k + |One(c, o, s, i)|];
    if Sits(c, o, s, i) { assert l[0] == Entry(o); }
  }

  // ---- restoring -----------------------------------------------------------------------------

  datatype Restored = Restored(book: Book, ok: bool)

  /** The restore loop: append each order, or stop where the engine throws. */
  ghost function RestoreLoop(c: Config, b: Book, os: seq<RestingOrder>, last: u64): (r: Restored)
    requires ValidConfig(c) && Sized(c, b)
    ensures Sized(c, r.book)
    decreases |os|
  {
    if os == [] then Restored(b, true)
    else
      var o := os[0];
      if !ValidPrice(c, o.price) || o.quantity == 0 || o.priority > last || Resident(b, o.orderId)
      then Restored(b, false)
      else
        IndexOfPrice(c, o.price);
        RestoreLoop(c, Append(b, o.side, PriceIndex(c, o.price), Entry(o)), os[1..], last)
  }

  /** restore into a fresh book. */
  ghost function Restore(c: Config, last: u64, os: seq<RestingOrder>): (r: Restored)
    requires ValidConfig(c)
    ensures Sized(c, r.book)
  {
    if |os| > c.maximumOrders then Restored(Empty(c), false)
    else
      var r := RestoreLoop(c, Empty(c), StableSort(os), last);
      if r.ok then Restored(r.book.(last := last), true) else r
  }

  /** The orders are as restore demands them. */
  predicate Restorable(c: Config, os: seq<RestingOrder>, last: u64)
    requires ValidConfig(c)
  {
    && Listed(c, os)
    && (forall k | 0 <= k < |os| :: os[k].quantity > 0 && os[k].priority <= last)
    && (forall j, k | 0 <= j < k < |os| :: os[j].orderId != os[k].orderId)
  }

  lemma {:induction false} ListingAbsent(c: Config, os: seq<RestingOrder>, last: u64, id: u64)
    requires ValidConfig(c) && forall k | 0 <= k < |os| :: os[k].orderId != id
    ensures !Resident(BookOf(c, os, last), id)
  {
    hide Pick;
    var b := BookOf(c, os, last);
    forall p | Holds(b, p) ensures OrderAt(b, p).id != id {
      var k := PickOrigin(c, os, p.side, p.index, p.pos);
    }
  }

  /** On restorable orders the loop files them all, in list order. */
  lemma {:induction false} RestoreLoopFiles(c: Config, done: seq<RestingOrder>, os: seq<RestingOrder>, last: u64)
    requires ValidConfig(c) && Restorable(c, done + os, last)
    ensures RestoreLoop(c, BookOf(c, done, 0), os, last) == Restored(BookOf(c, done + os, 0), true)
    decreases |os|
  {
    hide ValidPrice, Resident;
    if os == [] {
      assert done + os == done;
    } else {
      var o := os[0];
      assert (done + os)[|done|] == o;
      assert forall k | 0 <= k < |done| :: done[k] == (done + os)[k];
      ListingAbsent(c, done, 0, o.orderId);
      AppendListed(c, done, 0, o);
      assert done + os == (done + [o]) + os[1..];
      RestoreLoopFiles(c, done + [o], os[1..], last);
    }
  }

  /** Orders filed without clash in a sound book, none later than its last sequence, are restorable. */
  lemma {:induction false} FiledAreRestorable(c: Config, os: seq<RestingOrder>, b: Book)
    requires Sound(c, b) && Dated(b) && Listed(c, os) && BookOf(c, os, b.last) == b
    ensures Restorable(c, os, b.last)
  {
    hide Pick, ValidPrice;
    forall k | 0 <= k < |os| ensures os[k].quantity > 0 && os[k].priority <= b.last {
      var p := PlaceOf(c, os, b.last, k);
    }
    forall j, k | 0 <= j < k < |os| ensures os[j].orderId != os[k].orderId {
      var p := PlaceOf(c, os, b.last, j);
      var q := PlaceOf(c, os, b.last, k);
      if p == q { EarlierPlace(c, os, j, k, p.side, p.index); }
    }
  }

  lemma {:induction false} EarlierPlace(c: Config, os: seq<RestingOrder>, j: nat, k: nat, s: Side, i: nat)
    requires ValidConfig(c) && j < k < |os| && Sits(c, os[j], s, i)
    ensures |Pick(c, os[..j], s, i)| < |Pick(c, os[..k], s, i)|
  {
    PickAround(c, os[..k], j, s, i);
    assert os[..k][..j] == os[..j];
  }

  lemma {:induction false} AscendingLevels(b: Book, s: Side, i: nat)
    requires Dated(b) && i < |Levels(b, s)|
    ensures Ascending(Levels(b, s)[i])
  {
    var l := Levels(b, s)[i];
    forall j, k | 0 <= j < k < |l| ensures l[j].priority <= l[k].priority {
      assert Ahead(b, Place(s, i, j), Place(s, i, k));
    }
  }

  lemma {:induction false} SortLength(os: seq<RestingOrder>)
    ensures |StableSort(os)| == |os|
  {
    assert |multiset(StableSort(os))| == |multiset(os)|;
  }

  // ---- exactly what restore accepts ----------------------------------------------------------

  predicate Healthy(c: Config, o: RestingOrder, last: u64)
    requires ValidConfig(c)
  {
    ValidPrice(c, o.price) && o.quantity > 0 && o.priority <= last
  }

  predicate Unlisted(os: seq<RestingOrder>, id: u64) {
    forall k | 0 <= k < |os| :: os[k].orderId != id
  }

  lemma {:induction false} RestorableCons(c: Config, o: RestingOrder, os: seq<RestingOrder>, last: u64)
    requires ValidConfig(c)
    ensures Restorable(c, [o] + os, last) <==> Healthy(c, o, last) && Unlisted(os, o.orderId) && Restorable(c, os, last)
  {
    hide ValidPrice;
    var all := [o] + os;
    assert all[0] == o && forall k | 0 <= k < |os| :: os[k] == all[k + 1];
    if Restorable(c, all, last) {
      forall j, k | 0 <= j < k < |os| ensures os[j].orderId != os[k].orderId {
        assert all[j + 1].orderId != all[k + 1].orderId;
      }
    }
  }

  lemma {:induction false} RestorableSnoc(c: Config, os: seq<RestingOrder>, o: RestingOrder, last: u64)
    requires ValidConfig(c)
    ensures Restorable(c, os + [o], last) <==> Healthy(c, o, last) && Unlisted(os, o.orderId) && Restorable(c, os, last)
  {
    hide ValidPrice;
    var all := os + [o];
    assert all[|os|] == o && forall k | 0 <= k < |os| :: os[k] == all[k];
  }

  lemma {:induction false} RestorablePrefix(c: Config, x: seq<RestingOrder>, y: seq<RestingOrder>, last: u64)
    requires ValidConfig(c) && Restorable(c, x + y, last)
    ensures Restorable(c, x, last)
  {
    hide ValidPrice;
    assert forall k | 0 <= k < |x| :: x[k] == (x + y)[k];
  }

  lemma {:induction false} InsertUnlisted(o: RestingOrder, os: seq<RestingOrder>, id: u64)
    ensures Unlisted(Insert(o, os), id) <==> o.orderId != id && Unlisted(os, id)
  {
    hide Unlisted;
    UnlistedCons(o, os, id);
    if os != [] && o.priority > os[0].priority {
      InsertUnlisted(o, os[1..], id);
      UnlistedCons(os[0], Insert(o, os[1..]), id);
      UnlistedCons(os[0], os[1..], id);
      assert [os[0]] + os[1..] == os;
    }
  }

  lemma {:induction false} InsertRestorable(c: Config, o: RestingOrder, os: seq<RestingOrder>, last: u64)
    requires ValidConfig(c)
    ensures Restorable(c, Insert(o, os), last) <==> Restorable(c, [o] + os, last)
  {
    hide Restorable, Healthy, Unlisted;
    if os != [] && o.priority > os[0].priority {
      var x, tail := os[0], os[1..];
      InsertRestorable(c, o, tail, last);
      RestorableCons(c, x, Insert(o, tail), last);
      InsertUnlisted(o, tail, x.orderId);
      RestorableCons(c, o, os, last);
      RestorableCons(c, o, tail, last);
      RestorableCons(c, x, tail, last);
      assert os == [x] + tail;
      UnlistedCons(x, tail, o.orderId);
    }
  }

  lemma {:induction false} UnlistedCons(o: RestingOrder, os: seq<RestingOrder>, id: u64)
    ensures Unlisted([o] + os, id) <==> o.orderId != id && Unlisted(os, id)
  {
    var all := [o] + os;
    assert all[0] == o && forall k | 0 <= k < |os| :: os[k] == all[k + 1];
  }

  /** Sorting neither makes nor mends a bad list. */
  lemma {:induction false} SortRestorable(c: Config, os: seq<RestingOrder>, last: u64)
    requires ValidConfig(c)
    ensures Restorable(c, StableSort(os), last) <==> Restorable(c, os, last)
  {
    hide Restorable, Healthy;
    if os != [] {
      var o, tail := os[0], os[1..];
      SortRestorable(c, tail, last);
      InsertRestorable(c, o, StableSort(tail), last);
      RestorableCons(c, o, StableSort(tail), last);
      RestorableCons(c, o, tail, last);
      SortUnlisted(tail, o.orderId);
      assert os == [o] + tail;
    }
  }

  lemma {:induction false} SortUnlisted(os: seq<RestingOrder>, id: u64)
    ensures Unlisted(StableSort(os), id) <==> Unlisted(os, id)
  {
    hide Unlisted;
    if os != [] {
      SortUnlisted(os[1..], id);
      InsertUnlisted(os[0], StableSort(os[1..]), id);
      UnlistedCons(os[0], os[1..], id);
      assert os == [os[0]] + os[1..];
    }
  }

  lemma {:induction false} ResidentListed(c: Config, os: seq<RestingOrder>, last: u64, id: u64)
    requires ValidConfig(c) && Listed(c, os)
    ensures Resident(BookOf(c, os, last), id) <==> !Unlisted(os, id)
  {
    hide Pick, ValidPrice, PriceIndex;
    if Unlisted(os, id) {
      ListingAbsent(c, os, last, id);
    } else {
      var k :| 0 <= k < |os| && os[k].orderId == id;
      var p := PlaceOf(c, os, last, k);
    }
  }

  /** The loop gets through exactly the restorable lists. */
  lemma {:induction false} RestoreLoopExact(c: Config, done: seq<RestingOrder>, os: seq<RestingOrder>, last: u64)
    requires ValidConfig(c) && Restorable(c, done, last)
    ensures RestoreLoop(c, BookOf(c, done, 0), os, last).ok <==> Restorable(c, done + os, last)
    decreases |os|
  {
    hide ValidPrice, Resident, Unlisted;
    if os == [] {
      assert done + os == done;
    } else {
      var o := os[0];
      ResidentListed(c, done, 0, o.orderId);
      RestorableSnoc(c, done, o, last);
      assert done + os == (done + [o]) + os[1..];
      if Restorable(c, done + [o], last) {
        AppendListed(c, done, 0, o);
        RestoreLoopExact(c, done + [o], os[1..], last);
      } else if Restorable(c, done + os, last) {
        RestorablePrefix(c, done + [o], os[1..], last);
      }
    }
  }

  /** Every listed bid is below every listed ask. */
  predicate Crossless(os: seq<RestingOrder>) {
    forall x, y | x in os && y in os && x.side.Buy? && y.side.Sell? :: x.price < y.price
  }

  lemma {:induction false} BookCrossless(c: Config, os: seq<RestingOrder>, last: u64)
    requires ValidConfig(c) && Listed(c, os)
    ensures Uncrossed(BookOf(c, os, last)) <==> Crossless(os)
  {
    hide Pick, ValidPrice, PriceIndex;
    var b := BookOf(c, os, last);
    if Crossless(os) {
      forall i, j | 0 <= i < |b.bids| && 0 <= j < |b.asks| && b.bids[i] != [] && b.asks[j] != [] ensures i < j {
        var x := PickOrigin(c, os, Buy, i, 0);
        var y := PickOrigin(c, os, Sell, j, 0);
        IndexOfPrice(c, os[x].price);
        IndexOfPrice(c, os[y].price);
        IndexPriceOrder(c, i, j);
      }
    }
    if Uncrossed(b) {
      forall x, y | x in os && y in os && x.side.Buy? && y.side.Sell? ensures x.price < y.price {
        var j :| 0 <= j < |os| && os[j] == x;
        var k :| 0 <= k < |os| && os[k] == y;
        var p := PlaceOf(c, os, last, j);
        var q := PlaceOf(c, os, last, k);
        IndexOfPrice(c, x.price);
        IndexOfPrice(c, y.price);
        IndexPriceOrder(c, p.index, q.index);
      }
    }
  }

  lemma {:induction false} FiledPositiveUnique(c: Config, os: seq<RestingOrder>, last: u64)
    requires ValidConfig(c) && Restorable(c, os, last)
    ensures Positive(BookOf(c, os, last)) && UniqueIds(BookOf(c, os, last))
  {
    hide Pick, ValidPrice, PriceIndex;
    var b := BookOf(c, os, last);
    forall p | Holds(b, p) ensures OrderAt(b, p).qty > 0 {
      var k := PickOrigin(c, os, p.side, p.index, p.pos);
    }
    forall p, q | Holds(b, p) && Holds(b, q) && OrderAt(b, p).id == OrderAt(b, q).id ensures p == q {
      var j := PickOrigin(c, os, p.side, p.index, p.pos);
      var k := PickOrigin(c, os, q.side, q.index, q.pos);
      assert j == k;
    }
  }

  /**
   Restore accepts exactly the lists that fit, have valid prices, positive quantities, priorities
   up to the last sequence and distinct ids, and what it builds is sound. It does not look for
   crossed prices: the book is uncrossed if and only if every listed bid is below every listed ask.
   */
  lemma {:induction false} RestoreExact(c: Config, last: u64, os: seq<RestingOrder>)
    requires ValidConfig(c)
    ensures Restore(c, last, os).ok <==> |os| <= c.maximumOrders && Restorable(c, os, last)
    ensures Restore(c, last, os).ok ==>
              && Restore(c, last, os).book == BookOf(c, StableSort(os), last)
              && Sound(c, Restore(c, last, os).book)
              && (Uncrossed(Restore(c, last, os).book) <==> Crossless(os))
  {
    hide Pick, StableSort, RestoreLoop, Restorable, ValidPrice, PriceIndex, Positive, UniqueIds, Uncrossed, Crossless;
    var t := StableSort(os);
    if |os| <= c.maximumOrders {
      EmptyListing(c);
      NothingRestorable(c, last);
      assert [] + t == t;
      RestoreLoopExact(c, [], t, last);
      SortRestorable(c, os, last);
      if Restorable(c, t, last) {
        RestoreLoopFiles(c, [], t, last);
        FiledPositiveUnique(c, t, last);
        RestorableListed(c, t, last);
        BookCrossless(c, t, last);
        SortCrossless(os);
        SortLength(os);
        ListingCount(c, t, last);
      }
    }
  }

  lemma {:induction false} NothingRestorable(c: Config, last: u64)
    requires ValidConfig(c)
    ensures Restorable(c, [], last)
  {}

  lemma {:induction false} RestorableListed(c: Config, os: seq<RestingOrder>, last: u64)
    requires ValidConfig(c) && Restorable(c, os, last)
    ensures Listed(c, os)
  {}

  lemma {:induction false} SortCrossless(os: seq<RestingOrder>)
    ensures Crossless(StableSort(os)) <==> Crossless(os)
  {
    var t := StableSort(os);
    assert forall x :: x in t <==> x in multiset(t);
    assert forall x :: x in os <==> x in multiset(os);
  }

  /** A crossed snapshot is accepted as it stands. */
  lemma {:induction false} RestoreMayCross()
    ensures var c := Config(1, 2, 1, 2);
            var os := [RestingOrder(1, Buy, 2, 1, 1), RestingOrder(2, Sell, 1, 1, 2)];
            ValidConfig(c) && Restore(c, 2, os).ok && !Uncrossed(Restore(c, 2, os).book)
  {
    hide Restore, Uncrossed;
    var c := Config(1, 2, 1, 2);
    var os := [RestingOrder(1, Buy, 2, 1, 1), RestingOrder(2, Sell, 1, 1, 2)];
    RestoreExact(c, 2, os);
    assert os[0] in os && os[1] in os;
  }

  // ---- the snapshot round trip ---------------------------------------------------------------

  lemma {:induction false} SortedTail(os: seq<RestingOrder>)
    requires os != [] && SortedByPriority(os)
    ensures SortedByPriority(os[1..]) && (|os| > 1 ==> os[0].priority <= os[1..][0].priority)
  {}

  /** A sorted list files into FIFOs in admission order. */
  lemma {:induction false} SortedPick(c: Config, os: seq<RestingOrder>, s: Side, i: nat)
    requires ValidConfig(c) && SortedByPriority(os)
    ensures Ascending(Pick(c, os, s, i))
    ensures forall k | 0 <= k < |Pick(c, os, s, i)| :: os[0].priority <= Pick(c, os, s, i)[k].priority
  {
    hide Sits;
    if os != [] {
      SortedTail(os);
      SortedPick(c, os[1..], s, i);
    }
  }

  /** A book filed from a sorted, restorable list is dated. */
  lemma {:induction false} SortedIsDated(c: Config, os: seq<RestingOrder>, last: u64)
    requires ValidConfig(c) && SortedByPriority(os) && Restorable(c, os, last)
    ensures Dated(BookOf(c, os, last))
  {
    hide Pick, ValidPrice, PriceIndex;
    var b := BookOf(c, os, last);
    forall p | Holds(b, p) ensures OrderAt(b, p).priority <= b.last {
      var k := PickOrigin(c, os, p.side, p.index, p.pos);
    }
    forall p, q | Ahead(b, p, q) ensures OrderAt(b, p).priority <= OrderAt(b, q).priority {
      SortedPick(c, os, p.side, p.index);
    }
  }

  /**
   Restoring a book's own resting orders rebuilds that very book, same FIFOs and same last
   sequence, if and only if the book is sound and dated. Crossed prices and tied priorities are
   no obstacle; a priority above the last sequence, or a FIFO out of order, is.
   */
  lemma {:induction false} SnapshotRoundTrip(c: Config, b: Book)
    requires ValidConfig(c) && Sized(c, b)
    ensures Restore(c, b.last, RestingList(c, b)) == Restored(b, true) <==> Sound(c, b) && Dated(b)
  {
    hide Pick, RestingList, StableSort, Restore, Restorable, Dated, Positive, UniqueIds, Resting;
    var os := RestingList(c, b);
    ListingRoundTrip(c, b);
    RestoreExact(c, b.last, os);
    if Sound(c, b) && Dated(b) {
      FiledAreRestorable(c, os, b);
      SortKeepsBook(c, os, b);
    }
    if Restore(c, b.last, os) == Restored(b, true) {
      SortSorts(os);
      SortRestorable(c, os, b.last);
      SortedIsDated(c, StableSort(os), b.last);
    }
  }

  lemma {:induction false} SortKeepsBook(c: Config, os: seq<RestingOrder>, b: Book)
    requires ValidConfig(c) && Dated(b) && BookOf(c, os, b.last) == b
    ensures BookOf(c, StableSort(os), b.last) == b
  {
    hide Pick, StableSort, Dated;
    var t := StableSort(os);
    forall s: Side, i | 0 <= i < PriceCount(c) ensures Pick(c, t, s, i) == Pick(c, os, s, i) {
      assert Levels(BookOf(c, os, b.last), s)[i] == Pick(c, os, s, i);
      AscendingLevels(b, s, i);
      SortPick(c, os, s, i);
    }
    assert LevelsOf(c, t, Buy) == LevelsOf(c, os, Buy);
    assert LevelsOf(c, t, Sell) == LevelsOf(c, os, Sell);
  }

  lemma {:induction false} UnknownCancel(c: Config, b: Book, m: Command)
    requires Sound(c, b) && m.sequence == Next(b.last) && m.kind.Cancel? && !Resident(b, m.orderId)
    ensures Sized(c, b) && Process(c, b, m).book == b.(last := m.sequence)
  {
    hide Positive, UniqueIds, Resting;
    AdvanceKeeps(c, b, m.sequence);
  }

  /** A wrapped sequence spoils the snapshot: any sequenced command, here a refused cancel, is enough. */
  lemma {:induction false} WrapSpoilsSnapshot(c: Config, b: Book, m: Command, p: Place)
    requires Sound(c, b) && ValidConfig(c) && Sized(c, b) && b.last == 0xFFFF_FFFF_FFFF_FFFF
    requires m.sequence == 0 && m.kind.Cancel? && !Resident(b, m.orderId)
    requires Holds(b, p) && OrderAt(b, p).priority > 0
    ensures var t := Process(c, b, m).book;
            t == b.(last := 0) && Sound(c, t) && !Restore(c, t.last, RestingList(c, t)).ok
  {
    hide Restore, RestingList, Resident, Sound, Pick, Process;
    UnknownCancel(c, b, m);
    AdvanceKeeps(c, b, 0);
    var t := b.(last := 0);
    ListingRoundTrip(c, t);
    RestoreExact(c, 0, RestingList(c, t));
    assert Holds(t, p) && OrderAt(t, p) == OrderAt(b, p);
    var k := PickOrigin(c, RestingList(c, t), p.side, p.index, p.pos);
  }

  /**
   Three steps reach it: restore one order with the greatest last sequence, cancel an unknown id,
   and the live book's own snapshot is refused.
   */
  lemma {:induction false} SnapshotAfterWrapRefused()
    ensures var c, os := Config(1, 1, 1, 1), [RestingOrder(1, Buy, 1, 1, 1)];
            && ValidConfig(c) && Restore(c, 0xFFFF_FFFF_FFFF_FFFF, os).ok
            && var b := Restore(c, 0xFFFF_FFFF_FFFF_FFFF, os).book;
               var t := Process(c, b, Command(0, Cancel, Buy, Limit, 2, 0, 0));
               Sized(c, t.book) && !Restore(c, t.book.last, RestingList(c, t.book)).ok
  {
    hide Restore, RestingList, Process, Sound, Pick, Resident;
    var c, os, last: u64 := Config(1, 1, 1, 1), [RestingOrder(1, Buy, 1, 1, 1)], 0xFFFF_FFFF_FFFF_FFFF;
    RestoreExact(c, last, os);
    assert StableSort(os) == os by { assert os[1..] == []; assert StableSort([]) == []; }
    var p := PlaceOf(c, os, last, 0);
    ListingAbsent(c, os, last, 2);
    WrapSpoilsSnapshot(c, Restore(c, last, os).book, Command(0, Cancel, Buy, Limit, 2, 0, 0), p);
  }

  // ---- replaying a journal over a snapshot ---------------------------------------------------

  lemma {:induction false} RunConcat(c: Config, b: Book, x: seq<Command>, y: seq<Command>)
    requires ValidConfig(c) && Sized(c, b)
    ensures var mid := Run(c, b, x);
            Run(c, b, x + y) == Outcome(Run(c, mid.book, y).book, mid.events + Run(c, mid.book, y).events)
    decreases |y|
  {
    hide Process, Sized, ValidConfig;
    if y == [] {
      assert x + y == x;
    } else {
      assert (x + y)[..|x + y| - 1] == x + y[..|y| - 1];
      RunConcat(c, b, x, y[..|y| - 1]);
    }
  }

  /** The runner's journal: sequences count up from the one after `last`. */
  predicate Consecutive(ms: seq<Command>, last: u64) {
    last + |ms| < TWO64 && forall k | 0 <= k < |ms| :: ms[k].sequence == last + 1 + k
  }

  lemma {:induction false} ConsecutiveAdvances(c: Config, b: Book, ms: seq<Command>)
    requires Sound(c, b) && ValidConfig(c) && Sized(c, b) && Consecutive(ms, b.last)
    ensures Run(c, b, ms).book.last == b.last + |ms|
  {
    hide Process, Sized, ValidConfig, Sound;
    if ms != [] {
      var front := ms[..|ms| - 1];
      ConsecutiveAdvances(c, b, front);
      RunTheorem(c, b, front);
      ProcessLast(c, Run(c, b, front).book, ms[|ms| - 1]);
    }
  }

  /** Commands the book has already applied are answered with a gap and change nothing. */
  lemma {:induction false} StaleRun(c: Config, b: Book, ms: seq<Command>)
    requires ValidConfig(c) && Sized(c, b)
    requires forall k | 0 <= k < |ms| :: 1 <= ms[k].sequence <= b.last
    ensures Run(c, b, ms).book == b
    ensures |Run(c, b, ms).events| == |ms|
    ensures forall k | 0 <= k < |ms| :: Run(c, b, ms).events[k] == Reject(ms[k], SequenceGap)
  {
    hide Process, Sized, ValidConfig;
    if ms != [] {
      StaleRun(c, b, ms[..|ms| - 1]);
      GapShape(c, b, ms[|ms| - 1]);
    }
  }

  /**
   Crash recovery, of a new or a restored book: a snapshot taken after any prefix of the journal,
   then the rest of the journal or the whole of it, reaches the live book; the whole journal merely
   adds a gap rejection per record already applied.
   */
  lemma {:induction false} RecoveryTheorem(c: Config, b: Book, ms: seq<Command>, k: nat)
    requires Sound(c, b) && ValidConfig(c) && Sized(c, b) && Dated(b) && Consecutive(ms, b.last) && k <= |ms|
    ensures var snapshot := Run(c, b, ms[..k]).book;
            var live := Run(c, b, ms);
            && Restore(c, snapshot.last, RestingList(c, snapshot)) == Restored(snapshot, true)
            && Run(c, snapshot, ms[k..]).book == live.book
            && Run(c, snapshot, ms).book == live.book
            && Run(c, b, ms[..k]).events + Run(c, snapshot, ms[k..]).events == live.events
            && |Run(c, snapshot, ms).events| == k + |Run(c, snapshot, ms[k..]).events|
            && Run(c, snapshot, ms).events[k..] == Run(c, snapshot, ms[k..]).events
  {
    hide Run, Sound, Dated, Timely, Uncrossed, Restore, RestingList;
    var x, y := ms[..k], ms[k..];
    assert ms == x + y;
    var snapshot := Run(c, b, x).book;
    RunTheorem(c, b, x);
    RunTimely(c, b, x);
    RunSized(c, b, x);
    SnapshotRoundTrip(c, snapshot);
    RunConcat(c, b, x, y);
    ConsecutiveAdvances(c, b, x);
    StaleRun(c, snapshot, x);
    RunConcat(c, snapshot, x, y);
  }
}
