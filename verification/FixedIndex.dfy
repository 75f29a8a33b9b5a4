/**
 The fixed open-addressed id index: linear probing with the following cluster reinserted on
 erase. The hash is arbitrary; masking by a power of two less one is taken as remainder.
 */
module FixedIndex {
  import opened Types

  datatype Cell = Vacant | Occupied(id: u64, node: u32)

  type Hash = u64 -> nat

  // ---- cyclic geometry -----------------------------------------------------------------------

  function Home(hash: Hash, id: u64, n: nat): (h: nat)
    requires n > 0
    ensures h < n
  {
    hash(id) % n
  }

  /** x is probed on the way from h to j, before j. */
  predicate OnPath(h: nat, j: nat, x: nat, n: nat)
    requires h < n && j < n && x < n
  {
    Dist(h, x, n) < Dist(h, j, n)
  }

  // ---- the table -----------------------------------------------------------------------------

  /** `where` gives the one slot of each id. */
  ghost predicate Indexed(t: seq<Cell>, where: map<u64, nat>) {
    && |t| > 0
    && (forall id | id in where :: where[id] < |t| && t[where[id]].Occupied? && t[where[id]].id == id)
    && (forall j | 0 <= j < |t| && t[j].Occupied? :: t[j].id in where && where[t[j].id] == j)
  }

  /** No probe chain crosses a vacant slot, except perhaps the slot `gap`. */
  ghost predicate Chained(t: seq<Cell>, hash: Hash, gap: int) {
    |t| > 0 &&
    forall j, x | 0 <= j < |t| && 0 <= x < |t| && t[j].Occupied? && OnPath(Home(hash, t[j].id, |t|), j, x, |t|) ::
      x == gap || t[x].Occupied?
  }

  ghost function Contents(t: seq<Cell>, where: map<u64, nat>): map<u64, u32>
    requires Indexed(t, where)
  {
    map id | id in where :: t[where[id]].node
  }

  /** Where a probe for id lands: everything before is taken by others, `at` is vacant. */
  ghost predicate FirstVacant(t: seq<Cell>, hash: Hash, id: u64, at: nat) {
    && at < |t| && t[at].Vacant?
    && forall x | 0 <= x < |t| && OnPath(Home(hash, id, |t|), at, x, |t|) :: t[x].Occupied? && t[x].id != id
  }

  /** Entries strictly between the hole and d steps after it are in place: no chain of theirs crosses the hole. */
  ghost predicate Repaired(t: seq<Cell>, hash: Hash, hole: nat, span: nat) {
    && hole < |t| && 1 <= span <= |t| && t[hole].Vacant?
    && forall d | 1 <= d < span ::
         && t[At(hole, d, |t|)].Occupied?
         && !OnPath(Home(hash, t[At(hole, d, |t|)].id, |t|), At(hole, d, |t|), hole, |t|)
  }

  // ---- total displacement: what a repair step decreases --------------------------------------

  function Displacement(hash: Hash, cell: Cell, j: nat, n: nat): nat
    requires j < n
  {
    if cell.Vacant? then 0 else Dist(Home(hash, cell.id, n), j, n)
  }

  ghost function Displaced(t: seq<Cell>, hash: Hash, k: nat): nat
    requires k <= |t|
  {
    if k == 0 then 0 else Displaced(t, hash, k - 1) + Displacement(hash, t[k - 1], k - 1, |t|)
  }

  lemma {:induction false} DisplacedUpdate(t: seq<Cell>, hash: Hash, k: nat, j: nat, cell: Cell)
    requires k <= |t| && j < |t|
    ensures Displaced(t[j := cell], hash, k)
            == Displaced(t, hash, k)
               + (if j < k then Displacement(hash, cell, j, |t|) - Displacement(hash, t[j], j, |t|) else 0)
  {
    hide Displacement;
    if k > 0 { DisplacedUpdate(t, hash, k - 1, j, cell); }
  }

  // ---- single steps --------------------------------------------------------------------------

  lemma {:induction false} PlaceIndexed(t: seq<Cell>, where: map<u64, nat>, id: u64, node: u32, at: nat)
    requires Indexed(t, where) && at < |t| && t[at].Vacant? && id !in where
    ensures Indexed(t[at := Occupied(id, node)], where[id := at])
    ensures Contents(t[at := Occupied(id, node)], where[id := at]) == Contents(t, where)[id := node]
  {}

  lemma {:induction false} TakeIndexed(t: seq<Cell>, where: map<u64, nat>, at: nat)
    requires Indexed(t, where) && at < |t| && t[at].Occupied?
    ensures Indexed(t[at := Vacant], where - {t[at].id})
    ensures Contents(t[at := Vacant], where - {t[at].id}) == Contents(t, where) - {t[at].id}
    ensures t[at].id in Contents(t, where) && Contents(t, where)[t[at].id] == t[at].node
  {}

  /** Filling the first vacant slot of the probe keeps every chain. */
  lemma {:induction false} PlaceChained(t: seq<Cell>, hash: Hash, gap: int, id: u64, node: u32, at: nat)
    requires Chained(t, hash, gap) && FirstVacant(t, hash, id, at)
    ensures Chained(t[at := Occupied(id, node)], hash, if at == gap then -1 else gap)
  {
    var u := t[at := Occupied(id, node)];
    forall j, x | 0 <= j < |u| && 0 <= x < |u| && u[j].Occupied? && OnPath(Home(hash, u[j].id, |u|), j, x, |u|)
      ensures x == (if at == gap then -1 else gap) || u[x].Occupied?
    {
      if j != at { assert t[j].Occupied?; }
    }
  }

  /** Emptying a slot makes it the one gap. */
  lemma {:induction false} TakeChained(t: seq<Cell>, hash: Hash, at: nat)
    requires Chained(t, hash, -1) && at < |t|
    ensures Chained(t[at := Vacant], hash, at)
  {
    var u := t[at := Vacant];
    forall j, x | 0 <= j < |u| && 0 <= x < |u| && u[j].Occupied? && OnPath(Home(hash, u[j].id, |u|), j, x, |u|)
      ensures x == at || u[x].Occupied?
    {
      assert t[j].Occupied?;
    }
  }

  /** A present id is met before any vacant slot. */
  lemma {:induction false} ProbeFinds(t: seq<Cell>, where: map<u64, nat>, hash: Hash, id: u64, d: nat)
    requires Indexed(t, where) && Chained(t, hash, -1) && d <= |t|
    requires forall e | 0 <= e < d :: var c := t[At(Home(hash, id, |t|), e, |t|)]; c.Occupied? && c.id != id
    requires d == |t| || t[At(Home(hash, id, |t|), d, |t|)].Vacant?
    ensures id !in where
  {
    if id in where {
      var h, j := Home(hash, id, |t|), where[id];
      var e := Dist(h, j, |t|);
      assert t[At(h, e, |t|)].id == id;
      assert e >= d;
      var x := At(h, d, |t|);
      if x != j { assert OnPath(h, j, x, |t|); }
      assert false;
    }
  }

  // ---- how full the table is -----------------------------------------------------------------

  ghost function IdsTo(t: seq<Cell>, k: nat): set<u64>
    requires k <= |t|
  {
    if k == 0 then {} else IdsTo(t, k - 1) + (if t[k - 1].Occupied? then {t[k - 1].id} else {})
  }

  function OccupiedTo(t: seq<Cell>, k: nat): (n: nat)
    requires k <= |t|
    ensures n <= k && (n == k <==> forall j | 0 <= j < k :: t[j].Occupied?)
  {
    if k == 0 then 0 else OccupiedTo(t, k - 1) + (if t[k - 1].Occupied? then 1 else 0)
  }

  lemma {:induction false} IdsCount(t: seq<Cell>, where: map<u64, nat>, k: nat)
    requires Indexed(t, where) && k <= |t|
    ensures |IdsTo(t, k)| == OccupiedTo(t, k)
    ensures forall id :: id in IdsTo(t, k) <==> id in where && where[id] < k
  {
    if k > 0 { IdsCount(t, where, k - 1); }
  }

  /** The table holds fewer ids than slots exactly when some slot is vacant. */
  lemma {:induction false} RoomIsVacancy(t: seq<Cell>, where: map<u64, nat>)
    requires Indexed(t, where)
    ensures |Contents(t, where)| <= |t| && Contents(t, where).Keys == where.Keys
    ensures |Contents(t, where)| < |t| <==> exists j | 0 <= j < |t| :: t[j].Vacant?
  {
    IdsCount(t, where, |t|);
    assert IdsTo(t, |t|) == where.Keys;
    assert Contents(t, where).Keys == where.Keys;
    assert |Contents(t, where)| == |where.Keys|;
  }

  /** What the probe loop has established when it reaches a vacant slot. */
  lemma {:induction false} ProbeLands(t: seq<Cell>, hash: Hash, id: u64, d: nat)
    requires |t| > 0 && d < |t| && t[At(Home(hash, id, |t|), d, |t|)].Vacant?
    requires forall e | 0 <= e < d :: var c := t[At(Home(hash, id, |t|), e, |t|)]; c.Occupied? && c.id != id
    ensures FirstVacant(t, hash, id, At(Home(hash, id, |t|), d, |t|))
  {
    var n, h := |t|, Home(hash, id, |t|);
    forall x | 0 <= x < n && OnPath(h, At(h, d, n), x, n) ensures t[x].Occupied? && t[x].id != id {
      assert At(h, Dist(h, x, n), n) == x;
    }
  }

  // ---- repairing a cluster -------------------------------------------------------------------

  /** A displaced entry lands in the hole if its probe meets it, else back where it was. */
  lemma {:induction false} LandsAtOrBefore(t: seq<Cell>, hash: Hash, hole: nat, next: nat, at: nat)
    requires Chained(t, hash, hole) && hole < |t| && t[hole].Vacant? && next < |t| && t[next].Occupied?
    requires FirstVacant(t[next := Vacant], hash, t[next].id, at)
    ensures at == if OnPath(Home(hash, t[next].id, |t|), next, hole, |t|) then hole else next
  {
    var n, u, h := |t|, t[next := Vacant], Home(hash, t[next].id, |t|);
    assert u[next].Vacant? && u[hole].Vacant?;
    assert !OnPath(h, at, next, n) && !OnPath(h, at, hole, n);
    assert at != next ==> u[at] == t[at];
  }

  /** Moving the displaced entry into the hole moves the hole to where it was. */
  lemma {:induction false} MoveChained(t: seq<Cell>, hash: Hash, hole: nat, next: nat)
    requires Chained(t, hash, hole) && hole < |t| && t[hole].Vacant? && next < |t| && t[next].Occupied?
    requires OnPath(Home(hash, t[next].id, |t|), next, hole, |t|)
    ensures Chained(t[next := Vacant][hole := t[next]], hash, next)
  {
    var u := t[next := Vacant][hole := t[next]];
    forall j, x | 0 <= j < |u| && 0 <= x < |u| && u[j].Occupied? && OnPath(Home(hash, u[j].id, |u|), j, x, |u|)
      ensures x == next || u[x].Occupied?
    {
      if j != hole { assert t[j].Occupied?; }
    }
  }

  /** ... and brings it strictly nearer its home. */
  lemma {:induction false} MoveShrinks(t: seq<Cell>, hash: Hash, hole: nat, next: nat)
    requires hole < |t| && t[hole].Vacant? && next < |t| && t[next].Occupied?
    requires OnPath(Home(hash, t[next].id, |t|), next, hole, |t|)
    ensures Displaced(t[next := Vacant][hole := t[next]], hash, |t|) < Displaced(t, hash, |t|)
  {
    DisplacedUpdate(t, hash, |t|, next, Vacant);
    DisplacedUpdate(t[next := Vacant], hash, |t|, hole, t[next]);
  }

  /** At the end of the cluster every chain is whole again. */
  lemma {:induction false} RepairDone(t: seq<Cell>, hash: Hash, hole: nat, span: nat)
    requires Chained(t, hash, hole) && Repaired(t, hash, hole, span) && t[At(hole, span, |t|)].Vacant?
    ensures Chained(t, hash, -1)
  {
    var n, next := |t|, At(hole, span, |t|);
    forall j, x | 0 <= j < n && 0 <= x < n && t[j].Occupied? && OnPath(Home(hash, t[j].id, n), j, x, n)
      ensures t[x].Occupied?
    {
      var h, d := Home(hash, t[j].id, n), Dist(hole, j, n);
      assert At(hole, d, n) == j;
      assert x == hole ==> d > span ==> OnPath(h, j, next, n);
    }
  }

  lemma {:induction false} RepairStarts(t: seq<Cell>, hash: Hash, hole: nat)
    requires hole < |t| && t[hole].Vacant?
    ensures Repaired(t, hash, hole, 1)
  {}

  /** One round of the repair loop, as a change of table. */
  lemma {:induction false} RepairStep(t: seq<Cell>, hash: Hash, hole: nat, span: nat, at: nat)
    requires Chained(t, hash, hole) && Repaired(t, hash, hole, span)
    requires var next := At(hole, span, |t|);
             t[next].Occupied? && FirstVacant(t[next := Vacant], hash, t[next].id, at)
    ensures var next := At(hole, span, |t|);
            var u := t[next := Vacant][at := t[next]];
            if at == hole then
              && Chained(u, hash, next) && Repaired(u, hash, next, 1)
              && Displaced(u, hash, |t|) < Displaced(t, hash, |t|)
            else
              span < |t| && u == t && Repaired(t, hash, hole, span + 1)
  {
    hide Chained, FirstVacant, Displaced;
    var next := At(hole, span, |t|);
    LandsAtOrBefore(t, hash, hole, next, at);
    if at == hole {
      MoveChained(t, hash, hole, next);
      MoveShrinks(t, hash, hole, next);
    }
  }

  lemma {:induction false} PutBack(m: map<u64, u32>, id: u64, node: u32)
    requires id in m && m[id] == node
    ensures (m - {id})[id := node] == m
  {}

  // ---- capacity ------------------------------------------------------------------------------

  /** table_capacity: None where it throws. */
  function TableCapacity(requested: u64): (r: Option<nat>)
    ensures r.Some? <==> 1 <= requested <= 0x4000_0000_0000_0000
    ensures r.Some? ==> PowerOfTwo(r.value) && 2 * requested <= r.value < 4 * requested
  {
    if requested == 0 || requested > 0x4000_0000_0000_0000 then None
    else Some(BitCeil(2 * requested))
  }

  // ---- the index -----------------------------------------------------------------------------

  class FixedOrderIndex {
    const hash: Hash
    const entries: array<Cell>
    /** The slot of each id held. */
    ghost var slotOf: map<u64, nat>

    ghost predicate Linked()
      reads this, entries
    {
      Indexed(entries[..], slotOf)
    }

    ghost predicate Valid()
      reads this, entries
    {
      Indexed(entries[..], slotOf) && Chained(entries[..], hash, -1)
    }

    ghost function Map(): map<u64, u32>
      reads this, entries
      requires Linked()
    {
      Contents(entries[..], slotOf)
    }

    constructor (requested: u64, hash: Hash)
      requires TableCapacity(requested).Some?
      ensures Valid() && Map() == map[] && this.hash == hash
      ensures entries.Length == TableCapacity(requested).value
      ensures fresh(entries)
    {
      this.hash := hash;
      entries := new Cell[TableCapacity(requested).value](_ => Vacant);
      slotOf := map[];
    }

    /** Linear probing for a vacant slot; refuses an id it meets on the way, or a full table. */
    method Insert(id: u64, node: u32) returns (ok: bool, ghost at: nat)
      requires Valid() || (Linked() && id !in slotOf)
      modifies entries, this`slotOf
      ensures Linked()
      ensures ok ==> && FirstVacant(old(entries[..]), hash, id, at) && id !in old(slotOf)
                     && entries[..] == old(entries[..])[at := Occupied(id, node)]
                     && slotOf == old(slotOf)[id := at]
                     && Map() == old(Map())[id := node]
      ensures !ok ==> entries[..] == old(entries[..]) && slotOf == old(slotOf)
      ensures ok <==> id !in old(slotOf) && exists j | 0 <= j < entries.Length :: old(entries[..])[j].Vacant?
      ensures old(Valid()) ==> Valid()
    {
      hide Chained, FirstVacant;
      ghost var t := entries[..];
      var n := entries.Length;
      ghost var home := Home(hash, id, n);
      var slot := Home(hash, id, n);
      var probe := 0;
      ok, at := false, 0;
      while probe < n
        invariant 0 <= probe <= n && slot == At(home, probe, n)
        invariant entries[..] == t && slotOf == old(slotOf)
        invariant forall e | 0 <= e < probe :: var c := t[At(home, e, n)]; c.Occupied? && c.id != id
      {
        assert entries[slot] == t[slot];
        if entries[slot].Occupied? && entries[slot].id == id {
          return;
        }
        if entries[slot].Vacant? {
          ProbeLands(t, hash, id, probe);
          if old(Valid()) {
            ProbeFinds(t, slotOf, hash, id, probe);
            PlaceChained(t, hash, -1, id, node, slot);
          }
          PlaceIndexed(t, slotOf, id, node, slot);
          entries[slot] := Occupied(id, node);
          slotOf := slotOf[id := slot];
          assert entries[..] == t[slot := Occupied(id, node)];
          ok, at := true, slot;
          return;
        }
        slot := if slot + 1 == n then 0 else slot + 1;
        probe := probe + 1;
      }
      forall j | 0 <= j < n ensures t[j].Occupied? { assert At(home, Dist(home, j, n), n) == j; }
    }

    method Find(id: u64) returns (r: Option<u32>)
      requires Valid()
      ensures r == if id in Map() then Some(Map()[id]) else None
    {
      hide Chained;
      ghost var t := entries[..];
      var n := entries.Length;
      ghost var home := Home(hash, id, n);
      var slot := Home(hash, id, n);
      var probe := 0;
      while probe < n
        invariant 0 <= probe <= n && slot == At(home, probe, n)
        invariant forall e | 0 <= e < probe :: var c := t[At(home, e, n)]; c.Occupied? && c.id != id
      {
        assert entries[slot] == t[slot];
        if entries[slot].Vacant? {
          ProbeFinds(t, slotOf, hash, id, probe);
          return None;
        }
        if entries[slot].id == id {
          return Some(entries[slot].node);
        }
        slot := if slot + 1 == n then 0 else slot + 1;
        probe := probe + 1;
      }
      ProbeFinds(t, slotOf, hash, id, n);
      return None;
    }

    /** Remove an id and reinsert the cluster that follows it. */
    method Erase(id: u64) returns (ok: bool)
      requires Valid()
      modifies entries, this`slotOf
      ensures Valid()
      ensures ok <==> id in old(Map())
      ensures Map() == old(Map()) - {id}
      ensures !ok ==> entries[..] == old(entries[..])
    {
      hide Chained;
      ghost var t := entries[..];
      var n := entries.Length;
      ghost var home := Home(hash, id, n);
      var slot := Home(hash, id, n);
      var probe := 0;
      while probe < n
        invariant 0 <= probe <= n && slot == At(home, probe, n)
        invariant entries[..] == t && slotOf == old(slotOf)
        invariant forall e | 0 <= e < probe :: var c := t[At(home, e, n)]; c.Occupied? && c.id != id
      {
        assert entries[slot] == t[slot];
        if entries[slot].Vacant? {
          ProbeFinds(t, slotOf, hash, id, probe);
          return false;
        }
        if entries[slot].id == id {
          TakeIndexed(t, slotOf, slot);
          TakeChained(t, hash, slot);
          entries[slot] := Vacant;
          slotOf := slotOf - {id};
          assert entries[..] == t[slot := Vacant];
          Repair(slot);
          return true;
        }
        slot := if slot + 1 == n then 0 else slot + 1;
        probe := probe + 1;
      }
      ProbeFinds(t, slotOf, hash, id, n);
      return false;
    }

    /** The reinsertion loop of erase, from the slot after the hole to the end of the cluster. */
    method Repair(slot: nat)
      requires Linked() && Chained(entries[..], hash, slot)
      requires slot < entries.Length && entries[slot].Vacant?
      modifies entries, this`slotOf
      ensures Valid() && Map() == old(Map())
    {
      hide Chained, FirstVacant, Repaired, Displaced, Indexed, Contents;
      var n := entries.Length;
      ghost var hole: nat, span: nat := slot, 1;
      var next := if slot + 1 == n then 0 else slot + 1;
      RepairStarts(entries[..], hash, hole);
      while entries[next].Occupied?
        invariant Linked() && Map() == old(Map())
        invariant hole < n && 1 <= span <= n && next < n && next == At(hole, span, n)
        invariant Chained(entries[..], hash, hole) && Repaired(entries[..], hash, hole, span)
        decreases Displaced(entries[..], hash, n), n - span
      {
        ghost var t := entries[..];
        var displaced := entries[next];
        TakeIndexed(t, slotOf, next);
        PutBack(Map(), displaced.id, displaced.node);
        entries[next] := Vacant;
        slotOf := slotOf - {displaced.id};
        assert entries[..] == t[next := Vacant];
        var ok, at := Insert(displaced.id, displaced.node);
        assert ok by { assert t[next := Vacant][next].Vacant?; }
        RepairStep(t, hash, hole, span, at);
        assert entries[..] == t[next := Vacant][at := displaced];
        if at == hole {
          hole, span := next, 1;
        } else {
          span := span + 1;
        }
        next := if next + 1 == n then 0 else next + 1;
      }
      RepairDone(entries[..], hash, hole, span);
    }
  }
}
