/** The whole representation invariant, and the three changes the engine makes to it. */
module RepOps {
  import opened Types
  import opened Ladder
  import opened Invariants
  import opened Bitmap
  import opened Rep

  datatype BookRep = BookRep(nodes: seq<Node>, bid: SideRep, ask: SideRep, free: seq<u32>, index: map<u64, u32>)

  function Part(r: BookRep, s: Side): SideRep {
    if s.Buy? then r.bid else r.ask
  }

  function WithPart(r: BookRep, s: Side, p: SideRep): BookRep {
    if s.Buy? then r.(bid := p) else r.(ask := p)
  }

  // ---- seats: the node at each place of the book ---------------------------------------------

  predicate Seats(r: BookRep, p: Place) {
    p.index < |Part(r, p.side).queues| && p.pos < |Part(r, p.side).queues[p.index]|
  }

  function Seat(r: BookRep, p: Place): u32
    requires Seats(r, p)
  {
    Part(r, p.side).queues[p.index][p.pos]
  }

  ghost predicate Live(r: BookRep, x: u32) {
    exists p :: Seats(r, p) && Seat(r, p) == x
  }

  // ---- the invariant -------------------------------------------------------------------------

  ghost predicate SidesOk(c: Config, r: BookRep) {
    && SideOk(c, r.nodes, r.bid, Buy) && SideOk(c, r.nodes, r.ask, Sell)
    && |r.nodes| == c.maximumOrders
  }

  /** Free stack and live nodes partition the arena. */
  ghost predicate FreeOk(r: BookRep) {
    && Distinct(r.free)
    && (forall k | 0 <= k < |r.free| :: r.free[k] < |r.nodes|)
    && (forall p :: Seats(r, p) ==> Seat(r, p) !in r.free)
    && (forall x: u32 | x < |r.nodes| :: x in r.free || Live(r, x))
  }

  /** The id index is exactly the live nodes. */
  ghost predicate IndexOk(r: BookRep) {
    && (forall p :: Seats(r, p) ==> Seat(r, p) < |r.nodes|
                                    && r.nodes[Seat(r, p)].id in r.index
                                      && r.index[r.nodes[Seat(r, p)].id] == Seat(r, p))
    && (forall id | id in r.index :: Live(r, r.index[id]) && r.index[id] < |r.nodes| && r.nodes[r.index[id]].id == id)
  }

  ghost predicate RepOk(c: Config, r: BookRep) {
    && SidesOk(c, r) && FreeOk(r) && IndexOk(r)
    && |r.free| + |r.index| == |r.nodes|
    && |r.index| == Resting(Abstract(c, r, 0))
  }

  /** The ladder this representation stands for. */
  ghost function Abstract(c: Config, r: BookRep, last: u64): (b: Book)
    requires SidesOk(c, r)
    ensures Sized(c, b)
  {
    SideArena(c, r.nodes, r.bid, Buy);
    SideArena(c, r.nodes, r.ask, Sell);
    Book(Views(r.nodes, r.bid.queues), Views(r.nodes, r.ask.queues), last)
  }

  lemma {:induction false} PartOk(c: Config, r: BookRep, s: Side)
    requires SidesOk(c, r)
    ensures SideOk(c, r.nodes, Part(r, s), s) && AllInArena(r.nodes, Part(r, s).queues)
    ensures |r.nodes| <= INVALID && ValidConfig(c)
  {
    SideArena(c, r.nodes, Part(r, s), s);
  }

  lemma {:induction false} SeatOrder(c: Config, r: BookRep, last: u64, p: Place)
    requires SidesOk(c, r)
    ensures Seats(r, p) <==> Holds(Abstract(c, r, last), p)
    ensures Seats(r, p) ==>
              && Seat(r, p) < |r.nodes|
              && var n := r.nodes[Seat(r, p)];
                 OrderAt(Abstract(c, r, last), p) == Order(n.id, n.remaining, n.priority)
  {
    PartOk(c, r, p.side);
    if Seats(r, p) { assert InArena(r.nodes, Part(r, p.side).queues[p.index]); }
  }

  /** A seated node carries its seat's side and price. */
  lemma {:induction false} SeatLinked(c: Config, r: BookRep, p: Place)
    requires SidesOk(c, r) && Seats(r, p)
    ensures p.index < PriceCount(c) && Seat(r, p) < |r.nodes|
    ensures var q := Part(r, p.side).queues[p.index];
            && Chain(r.nodes, Part(r, p.side).levels[p.index], q, p.side, IndexPrice(c, p.index))
            && Linked(r.nodes, q, p.pos, p.side, IndexPrice(c, p.index))
  {
    assert Chain(r.nodes, Part(r, p.side).levels[p.index], Part(r, p.side).queues[p.index], p.side,
           IndexPrice(c, p.index));
  }

  /** No node has two seats. */
  lemma {:induction false} SeatsApart(c: Config, r: BookRep, p: Place, q: Place)
    requires SidesOk(c, r) && Seats(r, p) && Seats(r, q) && Seat(r, p) == Seat(r, q)
    ensures p == q
  {
    SeatLinked(c, r, p);
    SeatLinked(c, r, q);
    IndexPriceOrder(c, p.index, q.index);
  }

  lemma {:induction false} RepUnique(c: Config, r: BookRep, last: u64)
    requires RepOk(c, r)
    ensures UniqueIds(Abstract(c, r, last))
  {
    hide SideOk;
    var b := Abstract(c, r, last);
    forall p, q | Holds(b, p) && Holds(b, q) && OrderAt(b, p).id == OrderAt(b, q).id ensures p == q {
      SeatOrder(c, r, last, p);
      SeatOrder(c, r, last, q);
      SeatsApart(c, r, p, q);
    }
  }

  /** The index answers exactly the resident ids. */
  lemma {:induction false} RepResident(c: Config, r: BookRep, last: u64, id: u64)
    requires RepOk(c, r)
    ensures Resident(Abstract(c, r, last), id) <==> id in r.index
    ensures id in r.index ==>
              var p := Locate(Abstract(c, r, last), id);
              Seats(r, p) && Seat(r, p) == r.index[id]
  {
    hide SideOk;
    var b := Abstract(c, r, last);
    if Resident(b, id) { SeatOrder(c, r, last, Locate(b, id)); }
    if id in r.index {
      var p :| Seats(r, p) && Seat(r, p) == r.index[id];
      SeatOrder(c, r, last, p);
    }
  }

  // ---- adding a resting order ----------------------------------------------------------------

  /** What add_resting reads is there to be read. */
  predicate CanAdd(r: BookRep, s: Side, i: nat) {
    var p := Part(r, s);
    && r.free != [] && Last(r.free) < |r.nodes|
    && i < |p.levels| && i < |p.queues| && i / WORD < |p.bits|
    && (p.levels[i].tail == INVALID || p.levels[i].tail < |r.nodes|)
    && p.levels[i].count + 1 < 0x1_0000_0000
  }

  function AddPart(p: SideRep, i: nat, x: u32, qty: u64): SideRep
    requires i < |p.levels| && i < |p.queues| && i / WORD < |p.bits| && p.levels[i].count + 1 < 0x1_0000_0000
  {
    var lv := LevelAppend(p.levels[i], x, qty);
    SideRep(p.levels[i := lv],
            if lv.count == 1 then p.bits[i / WORD := SetWord(p.bits[i / WORD], i % WORD)] else p.bits,
            p.queues[i := p.queues[i] + [x]])
  }

  function Add(r: BookRep, s: Side, i: nat, n: Node): BookRep
    requires CanAdd(r, s, i)
  {
    var x, p := Last(r.free), Part(r, s);
    var r1 := WithPart(r, s, AddPart(p, i, x, n.remaining));
    r1.(nodes := LinkTail(r.nodes, p.levels[i].tail, x, n), free := r.free[..|r.free| - 1], index := r.index[n.id := x])
  }

  lemma {:induction false} AddReady(c: Config, r: BookRep, s: Side, i: nat)
    requires RepOk(c, r) && r.free != [] && i < PriceCount(c)
    ensures CanAdd(r, s, i)
    ensures Last(r.free) !in Part(r, s).queues[i]
    ensures Chain(r.nodes, Part(r, s).levels[i], Part(r, s).queues[i], s, IndexPrice(c, i))
  {
    hide IndexOk, Active;
    var p, b := Part(r, s), Abstract(c, r, 0);
    assert Chain(r.nodes, p.levels[i], p.queues[i], s, IndexPrice(c, i));
    CountCovers(Levels(b, s), PriceCount(c), i);
    assert |Levels(b, s)[i]| == |p.queues[i]|;
    forall k | 0 <= k < |p.queues[i]| ensures p.queues[i][k] != Last(r.free) { assert Seats(r, Place(s, i, k)); }
  }

  lemma {:induction false} AddBits(bits: seq<u64>, i: nat, q: seq<u32>, bits': seq<u64>)
    requires i / WORD < |bits| && (Active(bits, i) <==> q != [])
    requires bits' == if |q| == 0 then bits[i / WORD := SetWord(bits[i / WORD], i % WORD)] else bits
    ensures |bits'| == |bits|
    ensures forall j: nat | j / WORD < |bits| :: Active(bits', j) <==> if j == i then true else Active(bits, j)
  {
    hide Active, SetWord;
    forall j: nat | j / WORD < |bits| ensures Active(bits', j) <==> if j == i then true else Active(bits, j) {
      if |q| == 0 { SetActiveMeans(bits, i, j); }
    }
  }

  /** Linking a free node at one tail leaves every other FIFO's nodes alone. */
  lemma {:induction false} AddSame(c: Config, r: BookRep, s: Side, i: nat, n: Node, t: Side)
    requires RepOk(c, r) && r.free != [] && i < PriceCount(c) && CanAdd(r, s, i)
    requires Chain(r.nodes, Part(r, s).levels[i], Part(r, s).queues[i], s, IndexPrice(c, i))
    ensures SameNodes(r.nodes, LinkTail(r.nodes, Part(r, s).levels[i].tail, Last(r.free), n), Part(r, t).queues,
                      if t == s then i else -1)
  {
    hide IndexOk, SideOk;
    var x, q := Last(r.free), Part(r, s).queues[i];
    PartOk(c, r, t);
    forall j, k | 0 <= j < |Part(r, t).queues| && (t != s || j != i) && 0 <= k < |Part(r, t).queues[j]|
      ensures Part(r, t).queues[j][k] != x && (q != [] ==> Part(r, t).queues[j][k] != Last(q))
    {
      var p := Place(t, j, k);
      assert Seats(r, p);
      if q != [] && Seat(r, p) == Last(q) {
        assert Seats(r, Place(s, i, |q| - 1));
        SeatsApart(c, r, p, Place(s, i, |q| - 1));
      }
    }
  }

  lemma {:induction false} AddSides(c: Config, r: BookRep, s: Side, i: nat, n: Node, last: u64)
    requires RepOk(c, r) && r.free != [] && i < PriceCount(c) && CanAdd(r, s, i)
    requires n.side == s && n.price == IndexPrice(c, i)
    ensures SidesOk(c, Add(r, s, i, n))
    ensures Abstract(c, Add(r, s, i, n), last)
            == Append(Abstract(c, r, last), s, i, Order(n.id, n.remaining, n.priority))
  {
    hide IndexOk, FreeOk, Chain, Active, View;
    var p, x, q := Part(r, s), Last(r.free), Part(r, s).queues[i];
    var nodes' := LinkTail(r.nodes, p.levels[i].tail, x, n);
    AddReady(c, r, s, i);
    PartOk(c, r, s);
    PartOk(c, r, Opposite(s));
    ChainCount(r.nodes, p.levels[i], q, s, IndexPrice(c, i));
    ChainAppend(r.nodes, p.levels[i], q, x, n);
    ChainViewAppend(r.nodes, p.levels[i], q, x, n);
    AddSame(c, r, s, i, n, s);
    AddSame(c, r, s, i, n, Opposite(s));
    var p' := AddPart(p, i, x, n.remaining);
    AddBits(p.bits, i, q, p'.bits);
    SideUpdate(c, r.nodes, nodes', p, s, i, p'.levels[i], q + [x], p'.bits);
    SideFrame(c, r.nodes, nodes', Part(r, Opposite(s)), Opposite(s));
  }

  lemma {:induction false} ChainCount(nodes: seq<Node>, lv: PriceLevel, q: seq<u32>, side: Side, price: Price)
    requires Chain(nodes, lv, q, side, price)
    ensures lv.count == |q| && lv.head == First(q) && lv.tail == Last(q)
  {}

  lemma {:induction false} ChainViewAppend(nodes: seq<Node>, lv: PriceLevel, q: seq<u32>, x: u32, n: Node)
    requires Chain(nodes, lv, q, n.side, n.price) && x < |nodes| <= INVALID && x !in q
    requires lv.tail != INVALID ==> lv.tail < |nodes|
    ensures InArena(LinkTail(nodes, lv.tail, x, n), q + [x])
    ensures View(LinkTail(nodes, lv.tail, x, n), q + [x]) == View(nodes, q) + [Order(n.id, n.remaining, n.priority)]
  {
    ViewAppend(nodes, q, x, n);
  }

  /** The seats after an addition: the old ones and one more. */
  lemma {:induction false} AddSeats(r: BookRep, s: Side, i: nat, n: Node, p: Place)
    requires CanAdd(r, s, i)
    ensures var r', at := Add(r, s, i, n), Place(s, i, |Part(r, s).queues[i]|);
            && (Seats(r', p) <==> Seats(r, p) || p == at)
            && (Seats(r, p) ==> p != at && Seat(r', p) == Seat(r, p))
            && (p == at ==> Seat(r', p) == Last(r.free))
  {
    hide LinkTail, SetWord;
  }

  lemma {:induction false} AddLive(r: BookRep, s: Side, i: nat, n: Node, x: u32)
    requires CanAdd(r, s, i)
    ensures Live(Add(r, s, i, n), x) <==> Live(r, x) || x == Last(r.free)
  {
    hide Add;
    var r', at := Add(r, s, i, n), Place(s, i, |Part(r, s).queues[i]|);
    AddSeats(r, s, i, n, at);
    if Live(r, x) {
      var p :| Seats(r, p) && Seat(r, p) == x;
      AddSeats(r, s, i, n, p);
    }
    if Live(r', x) {
      var p :| Seats(r', p) && Seat(r', p) == x;
      AddSeats(r, s, i, n, p);
    }
  }

  lemma {:induction false} AddFields(r: BookRep, s: Side, i: nat, n: Node)
    requires CanAdd(r, s, i)
    ensures var r' := Add(r, s, i, n);
            && r'.nodes == LinkTail(r.nodes, Part(r, s).levels[i].tail, Last(r.free), n) && |r'.nodes| == |r.nodes|
            && r'.free == r.free[..|r.free| - 1] && r'.index == r.index[n.id := Last(r.free)]
  {}

  lemma {:induction false} AddFree(c: Config, r: BookRep, s: Side, i: nat, n: Node)
    requires FreeOk(r) && CanAdd(r, s, i)
    ensures FreeOk(Add(r, s, i, n))
  {
    hide Add, Live, LinkTail;
    var r' := Add(r, s, i, n);
    AddFields(r, s, i, n);
    forall p | Seats(r', p) ensures Seat(r', p) !in r'.free { AddSeats(r, s, i, n, p); }
    forall x: u32 | x < |r'.nodes| ensures x in r'.free || Live(r', x) {
      AddLive(r, s, i, n, x);
      if x in r.free && x != Last(r.free) {
        var k :| 0 <= k < |r.free| && r.free[k] == x;
        assert r'.free[k] == x;
      }
    }
  }

  lemma {:induction false} LinkTailIds(nodes: seq<Node>, tail: u32, x: u32, n: Node, y: u32)
    requires x < |nodes| && (tail != INVALID ==> tail < |nodes|) && y < |nodes| && tail != x
    ensures LinkTail(nodes, tail, x, n)[y].id == if y == x then n.id else nodes[y].id
  {}

  lemma {:induction false} AddIndex(c: Config, r: BookRep, s: Side, i: nat, n: Node)
    requires FreeOk(r) && IndexOk(r) && CanAdd(r, s, i) && n.id !in r.index && Part(r, s).levels[i].tail != Last(r.free)
    ensures IndexOk(Add(r, s, i, n))
  {
    hide Add, Live, LinkTail;
    var r', x, tail := Add(r, s, i, n), Last(r.free), Part(r, s).levels[i].tail;
    AddFields(r, s, i, n);
    forall p | Seats(r', p)
      ensures Seat(r', p) < |r'.nodes| && r'.nodes[Seat(r', p)].id in r'.index
              && r'.index[r'.nodes[Seat(r', p)].id] == Seat(r', p)
    {
      AddSeats(r, s, i, n, p);
      LinkTailIds(r.nodes, tail, x, n, Seat(r', p));
    }
    forall id | id in r'.index
      ensures Live(r', r'.index[id]) && r'.index[id] < |r'.nodes| && r'.nodes[r'.index[id]].id == id
    {
      AddLive(r, s, i, n, r'.index[id]);
      if id != n.id { LiveNotFree(r, r.index[id]); }
      LinkTailIds(r.nodes, tail, x, n, r'.index[id]);
    }
  }

  lemma {:induction false} LiveNotFree(r: BookRep, x: u32)
    requires FreeOk(r) && Live(r, x)
    ensures x !in r.free
  {
    var p :| Seats(r, p) && Seat(r, p) == x;
  }

  /** add_resting keeps the representation and appends one order to one FIFO. */
  lemma {:induction false} AddOk(c: Config, r: BookRep, s: Side, i: nat, n: Node, last: u64)
    requires RepOk(c, r) && r.free != [] && i < PriceCount(c)
    requires n.side == s && n.price == IndexPrice(c, i) && n.id !in r.index
    ensures CanAdd(r, s, i) && RepOk(c, Add(r, s, i, n))
    ensures Abstract(c, Add(r, s, i, n), last)
            == Append(Abstract(c, r, last), s, i, Order(n.id, n.remaining, n.priority))
  {
    hide SidesOk, FreeOk, IndexOk, Add, Append, CanAdd, Chain, Abstract;
    PartOk(c, r, s);
    AddReady(c, r, s, i);
    ReadyTail(c, r, s, i);
    AddSides(c, r, s, i, n, last);
    AddSides(c, r, s, i, n, 0);
    AddFree(c, r, s, i, n);
    AddIndex(c, r, s, i, n);
    AddFields(r, s, i, n);
    AbstractSized(c, r, s);
    AppendExtends(Abstract(c, r, 0), s, i, Order(n.id, n.remaining, n.priority));
  }

  lemma {:induction false} AbstractSized(c: Config, r: BookRep, s: Side)
    requires SidesOk(c, r)
    ensures |Levels(Abstract(c, r, 0), s)| == PriceCount(c)
  {}

  lemma {:induction false} ReadyTail(c: Config, r: BookRep, s: Side, i: nat)
    requires CanAdd(r, s, i) && Last(r.free) !in Part(r, s).queues[i] && |r.nodes| <= INVALID
    requires ValidConfig(c) && i < PriceCount(c)
    requires Chain(r.nodes, Part(r, s).levels[i], Part(r, s).queues[i], s, IndexPrice(c, i))
    ensures Part(r, s).levels[i].tail != Last(r.free)
  {}

  // ---- removing a node -----------------------------------------------------------------------

  /** What remove_node reads is there to be read. */
  predicate CanRemove(r: BookRep, p: Place) {
    && Seats(r, p) && Seat(r, p) < |r.nodes|
    && var n, s := r.nodes[Seat(r, p)], Part(r, p.side);
       && (n.previous != INVALID ==> n.previous < |r.nodes|) && (n.next != INVALID ==> n.next < |r.nodes|)
       && p.index < |s.levels| && p.index / WORD < |s.bits| && s.levels[p.index].count > 0
  }

  function CutPart(s: SideRep, i: nat, k: nat, n: Node): SideRep
    requires i < |s.levels| && i < |s.queues| && i / WORD < |s.bits| && k < |s.queues[i]| && s.levels[i].count > 0
  {
    var lv := LevelCut(s.levels[i], n);
    SideRep(s.levels[i := lv],
            if lv.count == 0 then s.bits[i / WORD := ClearWord(s.bits[i / WORD], i % WORD)] else s.bits,
            s.queues[i := Cut(s.queues[i], k)])
  }

  function Drop(r: BookRep, p: Place): BookRep
    requires CanRemove(r, p)
  {
    var x := Seat(r, p);
    var r1 := WithPart(r, p.side, CutPart(Part(r, p.side), p.index, p.pos, r.nodes[x]));
    r1.(nodes := Unlink(r.nodes, x), free := r.free + [x], index := r.index - {r.nodes[x].id})
  }

  lemma {:induction false} RemoveReady(c: Config, r: BookRep, p: Place)
    requires SidesOk(c, r) && Seats(r, p)
    ensures CanRemove(r, p)
  {
    SeatLinked(c, r, p);
    PartOk(c, r, p.side);
  }

  lemma {:induction false} CutBits(bits: seq<u64>, i: nat, q: seq<u32>, bits': seq<u64>)
    requires i / WORD < |bits| && (q != [] ==> Active(bits, i))
    requires bits' == if |q| == 0 then bits[i / WORD := ClearWord(bits[i / WORD], i % WORD)] else bits
    ensures |bits'| == |bits|
    ensures forall j: nat | j / WORD < |bits| :: Active(bits', j) <==> if j == i then q != [] else Active(bits, j)
  {
    hide Active, ClearWord;
    forall j: nat | j / WORD < |bits| ensures Active(bits', j) <==> if j == i then q != [] else Active(bits, j) {
      if |q| == 0 { ClearActiveMeans(bits, i, j); }
    }
  }

  /** Unlinking touches only the node and its neighbours in the same FIFO. */
  lemma {:induction false} UnlinkFar(nodes: seq<Node>, q: seq<u32>, k: nat, side: Side, price: Price, y: u32)
    requires InArena(nodes, q) && |nodes| <= INVALID && k < |q| && Linked(nodes, q, k, side, price)
    requires y < |nodes| && y !in q
    ensures Unlink(nodes, q[k])[y] == nodes[y]
  {}

  lemma {:induction false} RemoveSame(c: Config, r: BookRep, p: Place, t: Side)
    requires SidesOk(c, r) && Seats(r, p) && CanRemove(r, p)
    ensures SameNodes(r.nodes, Unlink(r.nodes, Seat(r, p)), Part(r, t).queues, if t == p.side then p.index else -1)
  {
    hide SideOk, Unlink, Chain;
    var q := Part(r, p.side).queues[p.index];
    PartOk(c, r, t);
    PartOk(c, r, p.side);
    SeatLinked(c, r, p);
    ChainArena(r.nodes, Part(r, p.side).levels[p.index], q, p.side, IndexPrice(c, p.index));
    UnlinkSize(r.nodes, q, p.pos, p.side, IndexPrice(c, p.index));
    forall j, k | 0 <= j < |Part(r, t).queues| && (t != p.side || j != p.index) && 0 <= k < |Part(r, t).queues[j]|
      ensures Unlink(r.nodes, Seat(r, p))[Part(r, t).queues[j][k]] == r.nodes[Part(r, t).queues[j][k]]
    {
      var y := Place(t, j, k);
      assert Seats(r, y);
      forall l | 0 <= l < |q| ensures q[l] != Seat(r, y) {
        assert Seats(r, Place(p.side, p.index, l));
        if q[l] == Seat(r, y) { SeatsApart(c, r, y, Place(p.side, p.index, l)); }
      }
      UnlinkFar(r.nodes, q, p.pos, p.side, IndexPrice(c, p.index), Seat(r, y));
    }
  }

  lemma {:induction false} RemoveSides(c: Config, r: BookRep, p: Place, last: u64)
    requires SidesOk(c, r) && Seats(r, p) && CanRemove(r, p)
    ensures SidesOk(c, Drop(r, p)) && Holds(Abstract(c, r, last), p)
    ensures Abstract(c, Drop(r, p), last) == Remove(Abstract(c, r, last), p)
  {
    hide Chain, Active, View, Unlink;
    var s, q, x := Part(r, p.side), Part(r, p.side).queues[p.index], Seat(r, p);
    var opp, price := Opposite(p.side), IndexPrice(c, p.index);
    SeatOrder(c, r, last, p);
    SeatLinked(c, r, p);
    PartOk(c, r, p.side);
    PartOk(c, r, opp);
    ChainArena(r.nodes, s.levels[p.index], q, p.side, price);
    ChainCount(r.nodes, s.levels[p.index], q, p.side, price);
    ChainCut(r.nodes, s.levels[p.index], q, p.pos, p.side, price);
    ChainViewCut(r.nodes, s.levels[p.index], q, p.pos, p.side, price);
    RemoveSame(c, r, p, p.side);
    RemoveSame(c, r, p, opp);
    var s' := CutPart(s, p.index, p.pos, r.nodes[x]);
    CutBits(s.bits, p.index, Cut(q, p.pos), s'.bits);
    SideUpdate(c, r.nodes, Unlink(r.nodes, x), s, p.side, p.index, s'.levels[p.index], Cut(q, p.pos), s'.bits);
    SideFrame(c, r.nodes, Unlink(r.nodes, x), Part(r, opp), opp);
  }

  lemma {:induction false} ChainViewCut(nodes: seq<Node>, lv: PriceLevel, q: seq<u32>, k: nat, side: Side, price: Price)
    requires Chain(nodes, lv, q, side, price) && |nodes| <= INVALID && k < |q|
    ensures Linked(nodes, q, k, side, price)
    ensures InArena(Unlink(nodes, q[k]), Cut(q, k))
    ensures View(Unlink(nodes, q[k]), Cut(q, k)) == RemoveAt(View(nodes, q), k)
  {
    assert Linked(nodes, q, k, side, price);
    ViewCut(nodes, q, k, side, price);
  }

  lemma {:induction false} DropFields(r: BookRep, p: Place)
    requires CanRemove(r, p)
    ensures var r', x := Drop(r, p), Seat(r, p);
            && r'.nodes == Unlink(r.nodes, x) && |r'.nodes| == |r.nodes|
            && r'.free == r.free + [x] && r'.index == r.index - {r.nodes[x].id}
  {}

  /** Each seat after a removal was a seat before it. */
  lemma {:induction false} DropSeats(r: BookRep, p: Place, y: Place)
    requires CanRemove(r, p)
    ensures Seats(Drop(r, p), y) <==> Seats(r, Before(p, y))
    ensures Seats(Drop(r, p), y) ==> Before(p, y) != p && Seat(Drop(r, p), y) == Seat(r, Before(p, y))
  {
    hide Unlink, ClearWord;
  }

  /** ... and every other seat survives. */
  lemma {:induction false} DropSeatsBack(r: BookRep, p: Place, y: Place) returns (z: Place)
    requires CanRemove(r, p) && Seats(r, y) && y != p
    ensures Seats(Drop(r, p), z) && Seat(Drop(r, p), z) == Seat(r, y)
  {
    hide Drop;
    z := if y.side == p.side && y.index == p.index && y.pos > p.pos then y.(pos := y.pos - 1) else y;
    DropSeats(r, p, z);
  }

  lemma {:induction false} DropLive(c: Config, r: BookRep, p: Place, x: u32)
    requires SidesOk(c, r) && Seats(r, p) && CanRemove(r, p)
    ensures Live(Drop(r, p), x) <==> Live(r, x) && x != Seat(r, p)
  {
    hide Drop, SideOk;
    if Live(Drop(r, p), x) {
      var y :| Seats(Drop(r, p), y) && Seat(Drop(r, p), y) == x;
      DropSeats(r, p, y);
      if x == Seat(r, p) { SeatsApart(c, r, Before(p, y), p); }
    }
    if Live(r, x) && x != Seat(r, p) {
      var y :| Seats(r, y) && Seat(r, y) == x;
      var z := DropSeatsBack(r, p, y);
    }
  }

  lemma {:induction false} RemoveFree(c: Config, r: BookRep, p: Place)
    requires SidesOk(c, r) && FreeOk(r) && Seats(r, p) && CanRemove(r, p)
    ensures FreeOk(Drop(r, p))
  {
    hide Drop, SidesOk, Live, Unlink;
    var r', x := Drop(r, p), Seat(r, p);
    DropFields(r, p);
    forall y | Seats(r', y) ensures Seat(r', y) !in r'.free {
      DropSeats(r, p, y);
      if Seat(r', y) == x { SeatsApart(c, r, Before(p, y), p); }
    }
    forall y: u32 | y < |r'.nodes| ensures y in r'.free || Live(r', y) { DropLive(c, r, p, y); }
  }

  lemma {:induction false} UnlinkIds(nodes: seq<Node>, x: u32, y: u32)
    requires x < |nodes| && y < |nodes| && y != x
    requires nodes[x].previous != INVALID ==> nodes[x].previous < |nodes|
    requires nodes[x].next != INVALID ==> nodes[x].next < |nodes|
    ensures Unlink(nodes, x)[y].id == nodes[y].id
  {}

  lemma {:induction false} RemoveIndex(c: Config, r: BookRep, p: Place)
    requires SidesOk(c, r) && IndexOk(r) && Seats(r, p) && CanRemove(r, p)
    ensures IndexOk(Drop(r, p))
  {
    hide Drop, SidesOk, Live, Unlink;
    var r', x := Drop(r, p), Seat(r, p);
    DropFields(r, p);
    forall y | Seats(r', y)
      ensures Seat(r', y) < |r'.nodes| && r'.nodes[Seat(r', y)].id in r'.index
              && r'.index[r'.nodes[Seat(r', y)].id] == Seat(r', y)
    {
      DropSeats(r, p, y);
      if Seat(r', y) == x { SeatsApart(c, r, Before(p, y), p); }
      UnlinkIds(r.nodes, x, Seat(r', y));
    }
    forall id | id in r'.index
      ensures Live(r', r'.index[id]) && r'.index[id] < |r'.nodes| && r'.nodes[r'.index[id]].id == id
    {
      DropLive(c, r, p, r.index[id]);
      UnlinkIds(r.nodes, x, r.index[id]);
    }
  }

  /** remove_node keeps the representation and removes one order from one FIFO. */
  lemma {:induction false} RemoveOk(c: Config, r: BookRep, p: Place, last: u64)
    requires RepOk(c, r) && Seats(r, p)
    ensures CanRemove(r, p) && RepOk(c, Drop(r, p)) && Holds(Abstract(c, r, last), p)
    ensures Abstract(c, Drop(r, p), last) == Remove(Abstract(c, r, last), p)
  {
    hide SidesOk, FreeOk, Drop, Remove, CanRemove, Abstract, Live, Holds;
    RemoveReady(c, r, p);
    RemoveSides(c, r, p, last);
    RemoveSides(c, r, p, 0);
    RemoveFree(c, r, p);
    RemoveIndex(c, r, p);
    DropFields(r, p);
    RemoveCount(Abstract(c, r, 0), p);
  }

  // ---- trading with the head of a level ------------------------------------------------------

  predicate CanTrade(r: BookRep, s: Side, i: nat, t: u64) {
    && Seats(r, Place(s, i, 0)) && i < |Part(r, s).levels| && Seat(r, Place(s, i, 0)) < |r.nodes|
    && t <= r.nodes[Seat(r, Place(s, i, 0))].remaining
  }

  /** Take t off the head order and off the level's total. */
  function Trim(r: BookRep, s: Side, i: nat, t: u64): BookRep
    requires CanTrade(r, s, i, t)
  {
    var x, p := Seat(r, Place(s, i, 0)), Part(r, s);
    var r1 := WithPart(r, s, p.(levels := p.levels[i := p.levels[i].(total := Wrap(p.levels[i].total - t))]));
    r1.(nodes := r.nodes[x := r.nodes[x].(remaining := r.nodes[x].remaining - t)])
  }

  lemma {:induction false} TrimSame(c: Config, r: BookRep, s: Side, i: nat, t: u64, side: Side)
    requires SidesOk(c, r) && CanTrade(r, s, i, t)
    ensures SameNodes(r.nodes, Trim(r, s, i, t).nodes, Part(r, side).queues, if side == s then i else -1)
  {
    hide SideOk, Wrap;
    PartOk(c, r, side);
    forall j, k | 0 <= j < |Part(r, side).queues| && (side != s || j != i) && 0 <= k < |Part(r, side).queues[j]|
      ensures Part(r, side).queues[j][k] != Seat(r, Place(s, i, 0))
    {
      var y := Place(side, j, k);
      assert Seats(r, y);
      if Seat(r, y) == Seat(r, Place(s, i, 0)) { SeatsApart(c, r, y, Place(s, i, 0)); }
    }
  }

  lemma {:induction false} TrimSides(c: Config, r: BookRep, s: Side, i: nat, t: u64, last: u64)
    requires SidesOk(c, r) && CanTrade(r, s, i, t)
    ensures SidesOk(c, Trim(r, s, i, t))
    ensures var b := Abstract(c, r, last);
            && i < |Levels(b, s)| && Levels(b, s)[i] != [] && t <= Levels(b, s)[i][0].qty
            && var l := Levels(b, s)[i];
               Abstract(c, Trim(r, s, i, t), last)
               == WithLevels(b, s, Levels(b, s)[i := l[0 := l[0].(qty := l[0].qty - t)]])
  {
    hide Chain, Active, View, Wrap;
    var p, q, opp := Part(r, s), Part(r, s).queues[i], Opposite(s);
    var r' := Trim(r, s, i, t);
    SeatOrder(c, r, last, Place(s, i, 0));
    SeatLinked(c, r, Place(s, i, 0));
    PartOk(c, r, s);
    PartOk(c, r, opp);
    ChainTrade(r.nodes, p.levels[i], q, s, IndexPrice(c, i), t);
    TrimSame(c, r, s, i, t, s);
    TrimSame(c, r, s, i, t, opp);
    assert p.queues[i := q] == p.queues;
    SideUpdate(c, r.nodes, r'.nodes, p, s, i, Part(r', s).levels[i], q, p.bits);
    SideFrame(c, r.nodes, r'.nodes, Part(r, opp), opp);
  }

  lemma {:induction false} TrimFields(r: BookRep, s: Side, i: nat, t: u64)
    requires CanTrade(r, s, i, t)
    ensures var r' := Trim(r, s, i, t);
            && |r'.nodes| == |r.nodes| && r'.free == r.free && r'.index == r.index
            && (forall p :: Seats(r', p) <==> Seats(r, p))
            && (forall p | Seats(r, p) :: Seat(r', p) == Seat(r, p))
            && (forall x: u32 | x < |r.nodes| :: r'.nodes[x].id == r.nodes[x].id)
  {
    hide Wrap;
  }

  lemma {:induction false} TrimLive(r: BookRep, s: Side, i: nat, t: u64, x: u32)
    requires CanTrade(r, s, i, t)
    ensures Live(Trim(r, s, i, t), x) <==> Live(r, x)
  {
    hide Trim;
    TrimFields(r, s, i, t);
    if Live(r, x) { var p :| Seats(r, p) && Seat(r, p) == x; assert Seats(Trim(r, s, i, t), p); }
    if Live(Trim(r, s, i, t), x) { var p :| Seats(Trim(r, s, i, t), p)
      && Seat(Trim(r, s, i, t), p) == x; assert Seats(r, p); }
  }

  lemma {:induction false} TrimCount(c: Config, r: BookRep, s: Side, i: nat, t: u64)
    requires SidesOk(c, r) && CanTrade(r, s, i, t)
    ensures SidesOk(c, Trim(r, s, i, t))
    ensures Resting(Abstract(c, Trim(r, s, i, t), 0)) == Resting(Abstract(c, r, 0))
  {
    hide SidesOk, Trim, Abstract, CanTrade;
    TrimSides(c, r, s, i, t, 0);
    var b := Abstract(c, r, 0);
    var l := Levels(b, s)[i];
    CountUpdate(Levels(b, s), |Levels(b, s)|, i, l[0 := l[0].(qty := l[0].qty - t)]);
  }

  lemma {:induction false} TrimOk(c: Config, r: BookRep, s: Side, i: nat, t: u64)
    requires RepOk(c, r) && CanTrade(r, s, i, t)
    ensures RepOk(c, Trim(r, s, i, t))
  {
    hide SidesOk, Trim, CanTrade, Live;
    var r' := Trim(r, s, i, t);
    TrimCount(c, r, s, i, t);
    TrimFields(r, s, i, t);
    forall x: u32 ensures Live(r', x) <==> Live(r, x) { TrimLive(r, s, i, t, x); }
    assert FreeOk(r');
    assert IndexOk(r');
  }

  // ---- an empty book -------------------------------------------------------------------------

  function EmptySide(n: nat): SideRep {
    SideRep(seq(n, _ => BARE), seq((n + 63) / 64, _ => 0), seq(n, _ => []))
  }

  /** The arena is free, lowest index on top. */
  function EmptyRep(c: Config): BookRep
    requires ValidConfig(c)
  {
    var n, m := PriceCount(c), c.maximumOrders;
    BookRep(seq(m, _ => BLANK), EmptySide(n), EmptySide(n),
            seq(m, k requires 0 <= k < m => (m - 1 - k) as u32), map[])
  }

  lemma {:induction false} EmptySideOk(c: Config, nodes: seq<Node>, side: Side)
    requires ValidConfig(c)
    ensures SideOk(c, nodes, EmptySide(PriceCount(c)), side)
    ensures AllInArena(nodes, EmptySide(PriceCount(c)).queues)
    ensures Views(nodes, EmptySide(PriceCount(c)).queues) == seq(PriceCount(c), _ => [])
  {
    var s := EmptySide(PriceCount(c));
    forall i | 0 <= i < PriceCount(c) ensures Chain(nodes, s.levels[i], s.queues[i], side, IndexPrice(c, i)) {
      assert View(nodes, []) == [];
    }
    forall i: nat | i / WORD < |s.bits| ensures !Active(s.bits, i) { ZeroHasNoBit(i % WORD); }
  }

  lemma {:induction false} EmptyRepOk(c: Config)
    requires ValidConfig(c)
    ensures RepOk(c, EmptyRep(c)) && Abstract(c, EmptyRep(c), 0) == Empty(c)
  {
    hide SideOk;
    var r := EmptyRep(c);
    EmptySideOk(c, r.nodes, Buy);
    EmptySideOk(c, r.nodes, Sell);
    EmptyCount(c);
    assert forall p :: !Seats(r, p);
    forall x: u32 | x < |r.nodes| ensures x in r.free { assert r.free[|r.nodes| - 1 - x] == x; }
  }

  lemma {:induction false} EmptyCount(c: Config)
    requires ValidConfig(c)
    ensures Resting(Empty(c)) == 0
  {
    CountNone(Empty(c).bids, PriceCount(c));
  }
}
