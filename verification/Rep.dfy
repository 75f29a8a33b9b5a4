/**
 The book's representation as a value: node arena, price levels with intrusive FIFO links, activity
 bitmaps, free stack and id index, and what ties the five together.
 */
module Rep {
  import opened Types
  import opened Ladder
  import opened Bitmap

  const INVALID: u32 := 0xFFFF_FFFF

  datatype Node = Node(id: u64, price: Price, remaining: u64, priority: u64, previous: u32, next: u32, side: Side)
  datatype PriceLevel = PriceLevel(total: u64, head: u32, tail: u32, count: u32)

  const BLANK := Node(0, 0, 0, 0, INVALID, INVALID, Buy)
  const BARE := PriceLevel(0, INVALID, INVALID, 0)

  // ---- one FIFO ------------------------------------------------------------------------------

  predicate Distinct(q: seq<u32>) {
    forall j, k | 0 <= j < k < |q| :: q[j] != q[k]
  }

  predicate InArena(nodes: seq<Node>, q: seq<u32>) {
    forall k | 0 <= k < |q| :: q[k] < |nodes|
  }

  function First(q: seq<u32>): u32 {
    if q == [] then INVALID else q[0]
  }

  function Last(q: seq<u32>): u32 {
    if q == [] then INVALID else q[|q| - 1]
  }

  /** Links, side and price of the k-th node of a FIFO. */
  predicate Linked(nodes: seq<Node>, q: seq<u32>, k: nat, side: Side, price: Price)
    requires InArena(nodes, q) && k < |q|
  {
    var n := nodes[q[k]];
    && n.side == side && n.price == price
    && n.previous == (if k == 0 then INVALID else q[k - 1])
    && n.next == (if k == |q| - 1 then INVALID else q[k + 1])
  }

  /** The orders of a FIFO, front first. */
  function View(nodes: seq<Node>, q: seq<u32>): (l: Level)
    requires InArena(nodes, q)
    ensures |l| == |q|
  {
    seq(|q|, k requires 0 <= k < |q| => Order(nodes[q[k]].id, nodes[q[k]].remaining, nodes[q[k]].priority))
  }

  /** A level's head, tail, count and total describe the doubly linked FIFO q. */
  ghost predicate Chain(nodes: seq<Node>, lv: PriceLevel, q: seq<u32>, side: Side, price: Price) {
    && InArena(nodes, q) && Distinct(q)
    && lv.count == |q| && lv.head == First(q) && lv.tail == Last(q)
    && lv.total == Shown(View(nodes, q))
    && forall k | 0 <= k < |q| :: Linked(nodes, q, k, side, price)
  }

  lemma {:induction false} ChainFrame(nodes: seq<Node>, nodes': seq<Node>, lv: PriceLevel, q: seq<u32>, side: Side,
                                      price: Price)
    requires Chain(nodes, lv, q, side, price) && |nodes'| == |nodes|
    requires forall k | 0 <= k < |q| :: nodes'[q[k]] == nodes[q[k]]
    ensures Chain(nodes', lv, q, side, price) && View(nodes', q) == View(nodes, q)
  {
    assert View(nodes', q) == View(nodes, q);
    forall k | 0 <= k < |q| ensures Linked(nodes', q, k, side, price) { assert Linked(nodes, q, k, side, price); }
  }

  lemma {:induction false} TotalAppend(l: Level, o: Order)
    ensures Total(l + [o]) == Total(l) + o.qty
  {
    if l == [] {
      assert l + [o] == [o] && [o][1..] == [];
    } else {
      assert (l + [o])[1..] == l[1..] + [o];
      TotalAppend(l[1..], o);
    }
  }

  lemma {:induction false} TotalChange(l: Level, k: nat, o: Order)
    requires k < |l|
    ensures Total(l[k := o]) == Total(l) - l[k].qty + o.qty
  {
    if k == 0 {
      assert l[0 := o][1..] == l[1..];
    } else {
      assert l[k := o][1..] == l[1..][k - 1 := o];
      TotalChange(l[1..], k - 1, o);
    }
  }

  lemma {:induction false} TotalRemove(l: Level, k: nat)
    requires k < |l|
    ensures Total(RemoveAt(l, k)) == Total(l) - l[k].qty
  {
    if k == 0 {
      assert RemoveAt(l, 0) == l[1..];
    } else {
      assert RemoveAt(l, k)[1..] == RemoveAt(l[1..], k - 1) && RemoveAt(l, k)[0] == l[0];
      TotalRemove(l[1..], k - 1);
    }
  }

  // ---- appending -----------------------------------------------------------------------------

  /** The arena after linking node x at the tail of a FIFO. */
  function LinkTail(nodes: seq<Node>, tail: u32, x: u32, n: Node): seq<Node>
    requires x < |nodes| && (tail != INVALID ==> tail < |nodes|)
  {
    var placed := nodes[x := n.(previous := tail, next := INVALID)];
    if tail == INVALID then placed else placed[tail := placed[tail].(next := x)]
  }

  function LevelAppend(lv: PriceLevel, x: u32, qty: u64): PriceLevel
    requires lv.count + 1 < 0x1_0000_0000
  {
    PriceLevel(Wrap(lv.total + qty), if lv.tail == INVALID then x else lv.head, x, lv.count + 1)
  }

  lemma {:induction false} ViewAppend(nodes: seq<Node>, q: seq<u32>, x: u32, n: Node)
    requires InArena(nodes, q) && Distinct(q) && x < |nodes| && x !in q && x != INVALID
    requires forall k | 0 <= k < |q| :: q[k] != INVALID
    ensures InArena(LinkTail(nodes, Last(q), x, n), q + [x])
    ensures View(LinkTail(nodes, Last(q), x, n), q + [x]) == View(nodes, q) + [Order(n.id, n.remaining, n.priority)]
  {}

  lemma {:induction false} ChainAppend(nodes: seq<Node>, lv: PriceLevel, q: seq<u32>, x: u32, n: Node)
    requires Chain(nodes, lv, q, n.side, n.price) && x < |nodes| <= INVALID && x !in q
    requires lv.count + 1 < 0x1_0000_0000
    ensures lv.tail == Last(q) && (lv.tail != INVALID ==> lv.tail < |nodes|)
    ensures Chain(LinkTail(nodes, lv.tail, x, n), LevelAppend(lv, x, n.remaining), q + [x], n.side, n.price)
  {
    var nodes', q' := LinkTail(nodes, Last(q), x, n), q + [x];
    ViewAppend(nodes, q, x, n);
    TotalAppend(View(nodes, q), Order(n.id, n.remaining, n.priority));
    WrapAdd(Total(View(nodes, q)), n.remaining);
    forall k | 0 <= k < |q'| ensures Linked(nodes', q', k, n.side, n.price) {
      if k < |q| { assert Linked(nodes, q, k, n.side, n.price); }
    }
  }

  // ---- unlinking -----------------------------------------------------------------------------

  function Cut(q: seq<u32>, k: nat): seq<u32>
    requires k < |q|
  {
    q[..k] + q[k + 1..]
  }

  /** The arena after unlinking node x and blanking it. */
  function Unlink(nodes: seq<Node>, x: u32): seq<Node>
    requires x < |nodes|
    requires nodes[x].previous != INVALID ==> nodes[x].previous < |nodes|
    requires nodes[x].next != INVALID ==> nodes[x].next < |nodes|
  {
    var p, s := nodes[x].previous, nodes[x].next;
    var a := if p == INVALID then nodes else nodes[p := nodes[p].(next := s)];
    var b := if s == INVALID then a else a[s := a[s].(previous := p)];
    b[x := BLANK]
  }

  function LevelCut(lv: PriceLevel, n: Node): PriceLevel
    requires lv.count > 0
  {
    PriceLevel(Wrap(lv.total - n.remaining),
               if n.previous == INVALID then n.next else lv.head,
               if n.next == INVALID then n.previous else lv.tail,
               lv.count - 1)
  }

  /** The order data of the remaining nodes is untouched by an unlink. */
  lemma {:induction false} UnlinkKeeps(nodes: seq<Node>, q: seq<u32>, k: nat, side: Side, price: Price, j: nat)
    requires InArena(nodes, q) && Distinct(q) && |nodes| <= INVALID && k < |q| && j < |q| && j != k
    requires Linked(nodes, q, k, side, price)
    ensures var n, n' := nodes[q[j]], Unlink(nodes, q[k])[q[j]];
            && n'.id == n.id && n'.price == n.price && n'.remaining == n.remaining && n'.priority == n.priority
            && n'.side == n.side
            && n'.next == (if j + 1 == k then nodes[q[k]].next else n.next)
            && n'.previous == (if j == k + 1 then nodes[q[k]].previous else n.previous)
  {}

  lemma {:induction false} ViewCut(nodes: seq<Node>, q: seq<u32>, k: nat, side: Side, price: Price)
    requires InArena(nodes, q) && Distinct(q) && |nodes| <= INVALID && k < |q|
    requires Linked(nodes, q, k, side, price)
    ensures InArena(Unlink(nodes, q[k]), Cut(q, k))
    ensures View(Unlink(nodes, q[k]), Cut(q, k)) == RemoveAt(View(nodes, q), k)
  {
    hide Unlink;
    var q' := Cut(q, k);
    UnlinkSize(nodes, q, k, side, price);
    forall j | 0 <= j < |q'|
      ensures View(Unlink(nodes, q[k]), q')[j] == RemoveAt(View(nodes, q), k)[j]
    {
      UnlinkKeeps(nodes, q, k, side, price, if j < k then j else j + 1);
    }
  }

  lemma {:induction false} UnlinkSize(nodes: seq<Node>, q: seq<u32>, k: nat, side: Side, price: Price)
    requires InArena(nodes, q) && |nodes| <= INVALID && k < |q| && Linked(nodes, q, k, side, price)
    ensures |Unlink(nodes, q[k])| == |nodes|
  {}

  lemma {:induction false} LinkedCut(nodes: seq<Node>, q: seq<u32>, k: nat, side: Side, price: Price, j: nat)
    requires InArena(nodes, q) && Distinct(q) && |nodes| <= INVALID && k < |q| && j < |q| - 1
    requires Linked(nodes, q, k, side, price) && Linked(nodes, q, if j < k then j else j + 1, side, price)
    ensures InArena(Unlink(nodes, q[k]), Cut(q, k))
    ensures Linked(Unlink(nodes, q[k]), Cut(q, k), j, side, price)
  {
    hide Unlink;
    UnlinkSize(nodes, q, k, side, price);
    UnlinkKeeps(nodes, q, k, side, price, if j < k then j else j + 1);
  }

  lemma {:induction false} CutEnds(q: seq<u32>, k: nat)
    requires Distinct(q) && k < |q|
    ensures Distinct(Cut(q, k))
    ensures First(Cut(q, k)) == if k == 0 then (if |q| == 1 then INVALID else q[1]) else q[0]
    ensures Last(Cut(q, k)) == if k == |q| - 1 then (if |q| == 1 then INVALID else q[|q| - 2]) else q[|q| - 1]
  {}

  lemma {:induction false} CutTotal(nodes: seq<Node>, q: seq<u32>, k: nat, side: Side, price: Price)
    requires InArena(nodes, q) && Distinct(q) && |nodes| <= INVALID && k < |q|
    requires Linked(nodes, q, k, side, price)
    ensures InArena(Unlink(nodes, q[k]), Cut(q, k))
    ensures Shown(View(Unlink(nodes, q[k]), Cut(q, k))) == Wrap(Shown(View(nodes, q)) - nodes[q[k]].remaining)
  {
    hide Unlink, Wrap;
    var left: int := nodes[q[k]].remaining;
    ViewCut(nodes, q, k, side, price);
    TotalRemove(View(nodes, q), k);
    WrapAdd(Total(View(nodes, q)), -left);
  }

  lemma {:induction false} ChainCut(nodes: seq<Node>, lv: PriceLevel, q: seq<u32>, k: nat, side: Side, price: Price)
    requires Chain(nodes, lv, q, side, price) && |nodes| <= INVALID && k < |q|
    ensures Linked(nodes, q, k, side, price)
    ensures Chain(Unlink(nodes, q[k]), LevelCut(lv, nodes[q[k]]), Cut(q, k), side, price)
  {
    hide Unlink, View, Shown, Distinct, Wrap;
    assert Linked(nodes, q, k, side, price);
    CutEnds(q, k);
    CutTotal(nodes, q, k, side, price);
    forall j | 0 <= j < |q| - 1 ensures Linked(Unlink(nodes, q[k]), Cut(q, k), j, side, price) {
      LinkedCut(nodes, q, k, side, price, j);
    }
  }

  // ---- trading with the head -----------------------------------------------------------------

  lemma {:induction false} ChainTrade(nodes: seq<Node>, lv: PriceLevel, q: seq<u32>, side: Side, price: Price, t: u64)
    requires Chain(nodes, lv, q, side, price) && q != [] && t <= nodes[q[0]].remaining
    ensures var nodes' := nodes[q[0] := nodes[q[0]].(remaining := nodes[q[0]].remaining - t)];
            var o := View(nodes, q)[0];
            && Chain(nodes', lv.(total := Wrap(lv.total - t)), q, side, price)
            && View(nodes', q) == View(nodes, q)[0 := o.(qty := o.qty - t)]
  {
    hide Wrap;
    var nodes' := nodes[q[0] := nodes[q[0]].(remaining := nodes[q[0]].remaining - t)];
    var o, l := View(nodes, q)[0], View(nodes, q);
    assert View(nodes', q) == l[0 := o.(qty := o.qty - t)];
    TotalChange(l, 0, o.(qty := o.qty - t));
    var less: int := t;
    WrapAdd(Total(l), -less);
    forall k | 0 <= k < |q| ensures Linked(nodes', q, k, side, price) { assert Linked(nodes, q, k, side, price); }
  }

  // ---- one side of the book ------------------------------------------------------------------

  datatype SideRep = SideRep(levels: seq<PriceLevel>, bits: seq<u64>, queues: seq<seq<u32>>)

  /** Levels, bitmap and FIFOs of one side agree, tick by tick. */
  ghost predicate SideOk(c: Config, nodes: seq<Node>, s: SideRep, side: Side) {
    && ValidConfig(c)
    && |s.levels| == PriceCount(c) && |s.queues| == PriceCount(c) && |s.bits| == (PriceCount(c) + 63) / 64
    && (forall i | 0 <= i < PriceCount(c) :: Chain(nodes, s.levels[i], s.queues[i], side, IndexPrice(c, i)))
    && (forall i: nat | i / WORD < |s.bits| :: Active(s.bits, i) <==> i < PriceCount(c) && s.queues[i] != [])
  }

  ghost predicate AllInArena(nodes: seq<Node>, qs: seq<seq<u32>>) {
    forall i | 0 <= i < |qs| :: InArena(nodes, qs[i])
  }

  ghost function Views(nodes: seq<Node>, qs: seq<seq<u32>>): (ls: seq<Level>)
    requires AllInArena(nodes, qs)
    ensures |ls| == |qs|
  {
    seq(|qs|, i requires 0 <= i < |qs| => View(nodes, qs[i]))
  }

  lemma {:induction false} SideArena(c: Config, nodes: seq<Node>, s: SideRep, side: Side)
    requires SideOk(c, nodes, s, side)
    ensures AllInArena(nodes, s.queues)
  {
    forall i | 0 <= i < |s.queues| ensures InArena(nodes, s.queues[i]) {
      assert Chain(nodes, s.levels[i], s.queues[i], side, IndexPrice(c, i));
    }
  }

  /** Nodes of the side are the same in both arenas, except perhaps at tick i. */
  ghost predicate SameNodes(nodes: seq<Node>, nodes': seq<Node>, qs: seq<seq<u32>>, except: int) {
    && |nodes'| == |nodes| && AllInArena(nodes, qs)
    && forall i, k | 0 <= i < |qs| && i != except && 0 <= k < |qs[i]| :: nodes'[qs[i][k]] == nodes[qs[i][k]]
  }

  /** Changing one tick of a side. */
  lemma {:induction false} SideUpdate(c: Config, nodes: seq<Node>, nodes': seq<Node>, s: SideRep, side: Side,
                                      i: nat, lv: PriceLevel, q: seq<u32>, bits: seq<u64>)
    requires SideOk(c, nodes, s, side) && i < PriceCount(c)
    requires SameNodes(nodes, nodes', s.queues, i)
    requires Chain(nodes', lv, q, side, IndexPrice(c, i))
    requires |bits| == |s.bits|
    requires forall j: nat | j / WORD < |bits| :: Active(bits, j) <==> if j == i then q != [] else Active(s.bits, j)
    ensures SideOk(c, nodes', SideRep(s.levels[i := lv], bits, s.queues[i := q]), side)
    ensures AllInArena(nodes', s.queues[i := q])
    ensures Views(nodes', s.queues[i := q]) == Views(nodes, s.queues)[i := View(nodes', q)]
  {
    hide Active, Chain;
    var s' := SideRep(s.levels[i := lv], bits, s.queues[i := q]);
    forall j | 0 <= j < PriceCount(c)
      ensures Chain(nodes', s'.levels[j], s'.queues[j], side, IndexPrice(c, j))
      ensures j != i ==> InArena(nodes', s.queues[j]) && View(nodes', s.queues[j]) == View(nodes, s.queues[j])
    {
      if j != i {
        assert Chain(nodes, s.levels[j], s.queues[j], side, IndexPrice(c, j));
        ChainFrame(nodes, nodes', s.levels[j], s.queues[j], side, IndexPrice(c, j));
        ChainArena(nodes', s.levels[j], s.queues[j], side, IndexPrice(c, j));
      }
    }
    SideArena(c, nodes', s', side);
    assert Views(nodes', s'.queues) == Views(nodes, s.queues)[i := View(nodes', q)];
  }

  lemma {:induction false} ChainArena(nodes: seq<Node>, lv: PriceLevel, q: seq<u32>, side: Side, price: Price)
    requires Chain(nodes, lv, q, side, price)
    ensures InArena(nodes, q)
  {}

  /** A side none of whose nodes changed. */
  lemma {:induction false} SideFrame(c: Config, nodes: seq<Node>, nodes': seq<Node>, s: SideRep, side: Side)
    requires SideOk(c, nodes, s, side) && SameNodes(nodes, nodes', s.queues, -1)
    ensures SideOk(c, nodes', s, side) && AllInArena(nodes', s.queues)
    ensures Views(nodes', s.queues) == Views(nodes, s.queues)
  {
    hide Active, Chain;
    forall j | 0 <= j < PriceCount(c)
      ensures Chain(nodes', s.levels[j], s.queues[j], side, IndexPrice(c, j))
      ensures InArena(nodes', s.queues[j]) && View(nodes', s.queues[j]) == View(nodes, s.queues[j])
    {
      assert Chain(nodes, s.levels[j], s.queues[j], side, IndexPrice(c, j));
      ChainFrame(nodes, nodes', s.levels[j], s.queues[j], side, IndexPrice(c, j));
      ChainArena(nodes', s.levels[j], s.queues[j], side, IndexPrice(c, j));
    }
    assert Views(nodes', s.queues) == Views(nodes, s.queues);
  }
}
