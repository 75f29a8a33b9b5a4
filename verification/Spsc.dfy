/**
 The single-producer single-consumer ring. Each atomic load, slot access and atomic store of
 try_push and try_pop is one step; a schedule is any sequence of producer and consumer steps.
 */
module Spsc {
  import opened Types

  /** storage_capacity: None where the constructor throws. */
  function StorageCapacity(minimum: u64): (r: Option<nat>)
    ensures r.Some? <==> 0 < minimum < 0x8000_0000_0000_0000
    ensures r.Some? ==> PowerOfTwo(r.value) && minimum + 1 <= r.value <= 2 * minimum
  {
    if minimum == 0 || minimum >= 0x8000_0000_0000_0000 then None else Some(BitCeil(minimum + 1))
  }

  // ---- ring arithmetic -----------------------------------------------------------------------

  /** The masked increment: storage is a power of two, so the mask is the remainder. */
  function After(k: nat, size: nat): nat
    requires size > 0
  {
    (k + 1) % size
  }

  lemma {:induction false} AfterWraps(k: nat, size: nat)
    requires k < size
    ensures After(k, size) == if k + 1 == size then 0 else k + 1
  {}

  /** Where the n-th element of the history lives. */
  function Spot(n: nat, size: nat): (k: nat)
    requires size > 0
    ensures k < size
  {
    if n == 0 then 0 else After(Spot(n - 1, size), size)
  }

  lemma {:induction false} SpotAt(n: nat, k: nat, size: nat)
    requires k < size
    ensures Spot(n + k, size) == At(Spot(n, size), k, size)
  {
    if k > 0 {
      SpotAt(n, k - 1, size);
      AfterWraps(Spot(n + k - 1, size), size);
    }
  }

  /** The ring's contents, read off its three fields alone. */
  function Ring<T>(buffer: seq<T>, head: nat, tail: nat): (c: seq<T>)
    requires head < |buffer| && tail < |buffer|
    ensures |c| == Dist(head, tail, |buffer|)
  {
    seq(Dist(head, tail, |buffer|), k requires 0 <= k < Dist(head, tail, |buffer|) => buffer[At(head, k, |buffer|)])
  }

  // ---- the two threads -----------------------------------------------------------------------

  datatype Producer<T> = Resting | TailLoaded(value: T, tail: nat) | HasRoom(value: T, tail: nat)
    | Written(value: T, tail: nat)
  datatype Consumer<T> = Waiting | HeadLoaded(head: nat) | HasItem(head: nat) | Taken(head: nat, value: T)

  /** Shared ring, both threads' locals, and what each has completed. */
  datatype State<T> = State(buffer: seq<T>, head: nat, tail: nat, producer: Producer<T>, consumer: Consumer<T>,
                            pushed: seq<T>, popped: seq<T>)

  predicate WellSized<T>(s: State<T>) {
    && s.head < |s.buffer| && s.tail < |s.buffer|
    && (!s.producer.Resting? ==> s.producer.tail < |s.buffer|)
    && (!s.consumer.Waiting? ==> s.consumer.head < |s.buffer|)
  }

  /** The producer's next access; between calls it starts try_push(v). */
  function Produce<T>(s: State<T>, v: T): (t: State<T>)
    requires WellSized(s)
    ensures WellSized(t)
  {
    match s.producer
    case Resting => s.(producer := TailLoaded(v, s.tail))
    case TailLoaded(x, tail) => s.(producer := if After(tail, |s.buffer|) == s.head then Resting else HasRoom(x, tail))
    case HasRoom(x, tail) => s.(buffer := s.buffer[tail := x], producer := Written(x, tail))
    case Written(x, tail) => s.(tail := After(tail, |s.buffer|), producer := Resting, pushed := s.pushed + [x])
  }

  /** The consumer's next access; between calls it starts try_pop. */
  function Consume<T>(s: State<T>): (t: State<T>)
    requires WellSized(s)
    ensures WellSized(t)
  {
    match s.consumer
    case Waiting => s.(consumer := HeadLoaded(s.head))
    case HeadLoaded(head) => s.(consumer := if head == s.tail then Waiting else HasItem(head))
    case HasItem(head) => s.(consumer := Taken(head, s.buffer[head]))
    case Taken(head, x) => s.(head := After(head, |s.buffer|), consumer := Waiting, popped := s.popped + [x])
  }

  datatype Move<T> = Push(value: T) | Pop

  function Schedule<T>(s: State<T>, moves: seq<Move<T>>): (t: State<T>)
    requires WellSized(s)
    ensures WellSized(t)
  {
    if moves == [] then s
    else
      var t := Schedule(s, moves[..|moves| - 1]);
      match moves[|moves| - 1]
      case Push(v) => Produce(t, v)
      case Pop => Consume(t)
  }

  predicate Initial<T>(s: State<T>) {
    && |s.buffer| >= 2 && s.head == 0 && s.tail == 0
    && s.producer.Resting? && s.consumer.Waiting? && s.pushed == [] && s.popped == []
  }

  // ---- the invariant -------------------------------------------------------------------------

  function Held<T>(s: State<T>): int {
    |s.pushed| - |s.popped|
  }

  /** The counters stand for the history, and live slots hold the unpopped values. */
  ghost predicate Coherent<T>(s: State<T>) {
    var size := |s.buffer|;
    && size >= 2
    && s.popped <= s.pushed && Held(s) < size
    && s.tail == Spot(|s.pushed|, size) && s.head == Spot(|s.popped|, size)
    && forall k | 0 <= k < Held(s) :: s.buffer[At(s.head, k, size)] == s.pushed[|s.popped| + k]
  }

  /** What each thread knows between its steps, whatever the other does. */
  ghost predicate Informed<T>(s: State<T>) {
    && (match s.producer
        case Resting => true
        case TailLoaded(_, tail) => tail == s.tail
        case HasRoom(_, tail) => tail == s.tail && Held(s) < |s.buffer| - 1
        case Written(x, tail) => tail == s.tail < |s.buffer| && Held(s) < |s.buffer| - 1 && s.buffer[tail] == x)
    && (match s.consumer
        case Waiting => true
        case HeadLoaded(head) => head == s.head
        case HasItem(head) => head == s.head && Held(s) > 0
        case Taken(head, x) => head == s.head && Held(s) > 0 && x == s.pushed[|s.popped|])
  }

  ghost predicate Safe<T>(s: State<T>) {
    WellSized(s) && Coherent(s) && Informed(s)
  }

  lemma {:induction false} TailFromHead<T>(s: State<T>)
    requires Coherent(s)
    ensures s.tail == At(s.head, Held(s), |s.buffer|) && s.head < |s.buffer|
  {
    SpotAt(|s.popped|, Held(s), |s.buffer|);
  }

  lemma {:induction false} SpotNext(n: nat, size: nat)
    requires size > 0
    ensures Spot(n + 1, size) == After(Spot(n, size), size)
  {}

  lemma {:induction false} ProduceKeeps<T>(s: State<T>, v: T)
    requires Safe(s)
    ensures Safe(Produce(s, v))
  {
    hide Spot, After;
    TailFromHead(s);
    AfterWraps(s.tail, |s.buffer|);
    SpotNext(|s.pushed|, |s.buffer|);
  }

  /** Publishing the new head: the remaining values are where they were. */
  lemma {:induction false} PopKeeps<T>(s: State<T>)
    requires Safe(s) && s.consumer.Taken?
    ensures Coherent(Consume(s))
  {
    hide Spot, After;
    var t, size := Consume(s), |s.buffer|;
    AfterWraps(s.head, size);
    SpotNext(|s.popped|, size);
    forall k | 0 <= k < Held(t) ensures t.buffer[At(t.head, k, size)] == t.pushed[|t.popped| + k] {
      assert At(t.head, k, size) == At(s.head, k + 1, size);
    }
  }

  lemma {:induction false} ConsumeKeeps<T>(s: State<T>)
    requires Safe(s)
    ensures Safe(Consume(s))
  {
    hide Spot, After;
    TailFromHead(s);
    if s.consumer.Taken? { PopKeeps(s); }
    if s.consumer.HasItem? { assert s.buffer[At(s.head, 0, |s.buffer|)] == s.pushed[|s.popped|]; }
  }

  // ---- what holds of every schedule ----------------------------------------------------------

  lemma {:induction false} ScheduleSafe<T>(s: State<T>, moves: seq<Move<T>>)
    requires Initial(s)
    ensures WellSized(s) && Safe(Schedule(s, moves))
  {
    if moves != [] {
      ScheduleSafe(s, moves[..|moves| - 1]);
      var t := Schedule(s, moves[..|moves| - 1]);
      match moves[|moves| - 1]
      case Push(v) => ProduceKeeps(t, v);
      case Pop => ConsumeKeeps(t);
    }
  }

  /** Pushed is popped followed by the ring, read off the ring's own fields. */
  lemma {:induction false} RingHoldsTheRest<T>(s: State<T>)
    requires Safe(s)
    ensures s.pushed == s.popped + Ring(s.buffer, s.head, s.tail)
  {
    TailFromHead(s);
    assert Dist(s.head, s.tail, |s.buffer|) == Held(s);
  }

  /** A push is refused exactly when size - 1 values are held, a pop exactly when none is. */
  lemma {:induction false} Refusals<T>(s: State<T>)
    requires Safe(s)
    ensures s.producer.TailLoaded? ==> (Produce(s, s.producer.value).producer.Resting? <==> Held(s) == |s.buffer| - 1)
    ensures s.consumer.HeadLoaded? ==> (Consume(s).consumer.Waiting? <==> Held(s) == 0)
  {
    TailFromHead(s);
    AfterWraps(s.tail, |s.buffer|);
  }

  /** The slot the producer is about to write is never the slot the consumer is about to read. */
  lemma {:induction false} NoSlotShared<T>(s: State<T>)
    requires Safe(s)
    ensures s.producer.HasRoom? && s.consumer.HasItem? ==> s.producer.tail != s.consumer.head
  {
    TailFromHead(s);
  }

  /**
   Every schedule of a ring asked for `minimum`: first in first out without loss, at most size - 1
   held, disjoint slot accesses, and never a refusal while fewer than `minimum` are held.
   */
  lemma {:induction false} RingTheorem<T>(s: State<T>, minimum: u64, moves: seq<Move<T>>, v: T)
    requires Initial(s) && StorageCapacity(minimum) == Some(|s.buffer|)
    ensures WellSized(s)
    ensures var t := Schedule(s, moves);
            && t.pushed == t.popped + Ring(t.buffer, t.head, t.tail)
            && |Ring(t.buffer, t.head, t.tail)| <= |s.buffer| - 1
            && (t.producer.HasRoom? && t.consumer.HasItem? ==> t.producer.tail != t.consumer.head)
            && (t.producer.TailLoaded? && Produce(t, v).producer.Resting? ==> |t.pushed| - |t.popped| >= minimum)
            && (t.consumer.HeadLoaded? && Consume(t).consumer.Waiting? ==> t.pushed == t.popped)
  {
    var t := Schedule(s, moves);
    ScheduleSafe(s, moves);
    ScheduleSize(s, moves);
    RingHoldsTheRest(t);
    NoSlotShared(t);
    Refusals(t);
  }

  lemma {:induction false} ScheduleSize<T>(s: State<T>, moves: seq<Move<T>>)
    requires WellSized(s)
    ensures |Schedule(s, moves).buffer| == |s.buffer|
  {
    if moves != [] { ScheduleSize(s, moves[..|moves| - 1]); }
  }

  // ---- a call alone --------------------------------------------------------------------------

  /** try_push as the producer's steps, uninterrupted. */
  function PushAlone<T>(s: State<T>, v: T): State<T>
    requires WellSized(s) && s.producer.Resting?
  {
    var t := Produce(Produce(s, v), v);
    if t.producer.Resting? then t else Produce(Produce(t, v), v)
  }

  /** try_pop as the consumer's steps, uninterrupted. */
  function PopAlone<T>(s: State<T>): State<T>
    requires WellSized(s) && s.consumer.Waiting?
  {
    var t := Consume(Consume(s));
    if t.consumer.Waiting? then t else Consume(Consume(t))
  }

  // ---- a call amid the other thread's accesses -----------------------------------------------

  /** The consumer's next `n` accesses. */
  function Consumes<T>(s: State<T>, n: nat): (t: State<T>)
    requires WellSized(s)
    ensures WellSized(t) && t.producer == s.producer && t.pushed == s.pushed && |t.buffer| == |s.buffer|
  {
    if n == 0 then s else Consume(Consumes(s, n - 1))
  }

  /** The producer's next |vs| accesses, each with the value it pushes should a call start there. */
  function Produces<T>(s: State<T>, vs: seq<T>): (t: State<T>)
    requires WellSized(s)
    ensures WellSized(t) && t.consumer == s.consumer && t.popped == s.popped && |t.buffer| == |s.buffer|
  {
    if vs == [] then s else Produce(Produces(s, vs[..|vs| - 1]), vs[|vs| - 1])
  }

  /** try_push(v) with i, j and k accesses of the consumer between its own four. */
  function PushAmid<T>(s: State<T>, v: T, i: nat, j: nat, k: nat): State<T>
    requires WellSized(s) && s.producer.Resting?
  {
    var t := Produce(Consumes(Produce(s, v), i), v);
    if t.producer.Resting? then t else Produce(Consumes(Produce(Consumes(t, j), v), k), v)
  }

  /** try_pop with the producer's accesses xs, ys and zs between its own four. */
  function PopAmid<T>(s: State<T>, xs: seq<T>, ys: seq<T>, zs: seq<T>): State<T>
    requires WellSized(s) && s.consumer.Waiting?
  {
    var t := Consume(Produces(Consume(s), xs));
    if t.consumer.Waiting? then t else Consume(Produces(Consume(Produces(t, ys)), zs))
  }

  lemma {:induction false} ConsumesKeep<T>(s: State<T>, n: nat)
    requires Safe(s)
    ensures Safe(Consumes(s, n))
  {
    hide Coherent, Informed, Consume;
    if n > 0 {
      ConsumesKeep(s, n - 1);
      ConsumeKeeps(Consumes(s, n - 1));
    }
  }

  lemma {:induction false} ProducesKeep<T>(s: State<T>, vs: seq<T>)
    requires Safe(s)
    ensures Safe(Produces(s, vs))
  {
    hide Coherent, Informed, Produce;
    if vs != [] {
      ProducesKeep(s, vs[..|vs| - 1]);
      ProduceKeeps(Produces(s, vs[..|vs| - 1]), vs[|vs| - 1]);
    }
  }

  lemma {:induction false} ConsumesMore<T>(s: State<T>, m: nat, n: nat)
    requires WellSized(s)
    ensures Consumes(Consumes(s, m), n) == Consumes(s, m + n)
  {
    hide Consume;
    if n > 0 { ConsumesMore(s, m, n - 1); }
  }

  lemma {:induction false} ProducesMore<T>(s: State<T>, xs: seq<T>, ys: seq<T>)
    requires WellSized(s)
    ensures Produces(Produces(s, xs), ys) == Produces(s, xs + ys)
  {
    hide Produce;
    if ys == [] {
      assert xs + ys == xs;
    } else {
      ProducesMore(s, xs, ys[..|ys| - 1]);
      assert (xs + ys)[..|xs + ys| - 1] == xs + ys[..|ys| - 1];
    }
  }

  /** The producer's next access neither refuses nor publishes. */
  predicate PushesOn<T>(s: State<T>) {
    !s.producer.Written? && (s.producer.TailLoaded? ==> Held(s) < |s.buffer| - 1)
  }

  /** The consumer's next access neither refuses nor publishes. */
  predicate PopsOn<T>(s: State<T>) {
    !s.consumer.Taken? && (s.consumer.HeadLoaded? ==> Held(s) > 0)
  }

  lemma {:induction false} HeldRange<T>(s: State<T>)
    requires Safe(s)
    ensures 0 <= Held(s) <= |s.buffer| - 1
  {}

  /** Such an access may as well come after the consumer's. */
  lemma {:induction false} ProduceLater<T>(s: State<T>, v: T)
    requires Safe(s) && PushesOn(s)
    ensures Consume(Produce(s, v)) == Produce(Consume(s), v) && PushesOn(Consume(s))
  {
    hide Spot, After;
    ConsumeKeeps(s);
    Refusals(s);
    Refusals(Consume(s));
    NoSlotShared(s);
  }

  lemma {:induction false} ConsumeLater<T>(s: State<T>, v: T)
    requires Safe(s) && PopsOn(s)
    ensures Produce(Consume(s), v) == Consume(Produce(s, v)) && PopsOn(Produce(s, v))
  {
    hide Spot, After;
    ProduceKeeps(s, v);
    Refusals(s);
    Refusals(Produce(s, v));
    NoSlotShared(s);
  }

  lemma {:induction false} ProduceLast<T>(s: State<T>, v: T, n: nat)
    requires Safe(s) && PushesOn(s)
    ensures Consumes(Produce(s, v), n) == Produce(Consumes(s, n), v) && PushesOn(Consumes(s, n))
  {
    hide Coherent, Informed, Produce, Consume, PushesOn;
    if n > 0 {
      ProduceLast(s, v, n - 1);
      ConsumesKeep(s, n - 1);
      ProduceLater(Consumes(s, n - 1), v);
    }
  }

  lemma {:induction false} ConsumeLast<T>(s: State<T>, vs: seq<T>)
    requires Safe(s) && PopsOn(s)
    ensures Produces(Consume(s), vs) == Consume(Produces(s, vs)) && PopsOn(Produces(s, vs))
  {
    hide Coherent, Informed, Produce, Consume, PopsOn;
    if vs != [] {
      ConsumeLast(s, vs[..|vs| - 1]);
      ProducesKeep(s, vs[..|vs| - 1]);
      ConsumeLater(Produces(s, vs[..|vs| - 1]), vs[|vs| - 1]);
    }
  }

  /**
   A push is atomic wherever the consumer's accesses fall: refused, it is the call alone when it
   looked at the head; granted, the call alone after all of them.
   */
  lemma {:induction false} PushLinearizes<T>(s: State<T>, v: T, i: nat, j: nat, k: nat)
    requires Safe(s) && s.producer.Resting?
    ensures var full := Held(Consumes(s, i)) == |s.buffer| - 1;
            && PushAmid(s, v, i, j, k) == PushAlone(Consumes(s, if full then i else i + j + k), v)
            && PushAmid(s, v, i, j, k).pushed == if full then s.pushed else s.pushed + [v]
  {
    hide Spot, After, Coherent, Informed, Consume, Consumes;
    var a := Consumes(s, i);
    ConsumesKeep(s, i);
    HeldRange(a);
    ProduceLast(s, v, i);
    ProduceKeeps(a, v);
    Refusals(Produce(a, v));
    if Held(a) != |s.buffer| - 1 {
      PushesPast(a, v, j);
      var b := Consumes(a, j);
      ConsumesKeep(a, j);
      PushesPast(b, v, k);
      ProduceKeeps(b, v);
      ProduceKeeps(Produce(b, v), v);
      ProduceLast(Produce(Produce(b, v), v), v, k);
      ConsumesMore(s, i, j);
      ConsumesMore(s, i + j, k);
    }
  }

  /** The first two accesses of a push that finds room. */
  lemma {:induction false} PushesPast<T>(s: State<T>, v: T, n: nat)
    requires Safe(s) && s.producer.Resting? && Held(s) < |s.buffer| - 1
    ensures Consumes(Produce(Produce(s, v), v), n) == Produce(Produce(Consumes(s, n), v), v)
    ensures Held(Consumes(s, n)) < |s.buffer| - 1
    ensures var t := Consumes(s, n); Produce(Produce(t, v), v) == t.(producer := HasRoom(v, t.tail))
  {
    hide Spot, After, Coherent, Informed, Consume, Consumes;
    ProduceKeeps(s, v);
    ProduceLast(s, v, n);
    ProduceLast(Produce(s, v), v, n);
    ConsumesKeep(s, n);
    ProduceKeeps(Consumes(s, n), v);
    Refusals(Produce(Consumes(s, n), v));
  }

  /** A pop likewise: refused, the call alone when it looked at the tail; granted, after all of them. */
  lemma {:induction false} PopLinearizes<T>(s: State<T>, xs: seq<T>, ys: seq<T>, zs: seq<T>)
    requires Safe(s) && s.consumer.Waiting?
    ensures var empty := Held(Produces(s, xs)) == 0;
            && PopAmid(s, xs, ys, zs) == PopAlone(Produces(s, if empty then xs else xs + ys + zs))
            && |PopAmid(s, xs, ys, zs).popped| == |s.popped| + (if empty then 0 else 1)
  {
    hide Spot, After, Coherent, Informed, Produce, Produces;
    var a := Produces(s, xs);
    ProducesKeep(s, xs);
    HeldRange(a);
    ConsumeLast(s, xs);
    ConsumeKeeps(a);
    Refusals(Consume(a));
    if Held(a) != 0 {
      PopsPast(a, ys);
      var b := Produces(a, ys);
      ProducesKeep(a, ys);
      PopsPast(b, zs);
      ConsumeKeeps(b);
      ConsumeKeeps(Consume(b));
      ConsumeLast(Consume(Consume(b)), zs);
      ProducesMore(s, xs, ys);
      ProducesMore(s, xs + ys, zs);
    }
  }

  /** The first two accesses of a pop that finds a value. */
  lemma {:induction false} PopsPast<T>(s: State<T>, vs: seq<T>)
    requires Safe(s) && s.consumer.Waiting? && Held(s) > 0
    ensures Produces(Consume(Consume(s)), vs) == Consume(Consume(Produces(s, vs)))
    ensures Held(Produces(s, vs)) > 0
    ensures var t := Produces(s, vs); Consume(Consume(t)) == t.(consumer := HasItem(t.head))
  {
    hide Spot, After, Coherent, Informed, Produce, Produces;
    ConsumeKeeps(s);
    ConsumeLast(s, vs);
    ConsumeLast(Consume(s), vs);
    ProducesKeep(s, vs);
    ConsumeKeeps(Produces(s, vs));
    Refusals(Consume(Produces(s, vs)));
  }

  // ---- the queue itself ----------------------------------------------------------------------

  class SpscQueue<T(0)> {
    const buffer: array<T>
    var head: nat
    var tail: nat

    ghost predicate Valid()
      reads this
    {
      buffer.Length >= 2 && head < buffer.Length && tail < buffer.Length
    }

    ghost function Contents(): seq<T>
      reads this, buffer
      requires Valid()
    {
      Ring(buffer[..], head, tail)
    }

    /** The ring between calls, as a state of the interleaved model with no history yet. */
    ghost function Idle(): State<T>
      reads this, buffer
      requires Valid()
    {
      State(buffer[..], head, tail, Resting, Waiting, [], [])
    }

    constructor (minimum: u64)
      requires StorageCapacity(minimum).Some?
      ensures Valid() && Contents() == [] && buffer.Length > minimum && fresh(buffer)
    {
      buffer := new T[StorageCapacity(minimum).value];
      head, tail := 0, 0;
    }

    method TryPush(value: T) returns (ok: bool)
      requires Valid()
      modifies buffer, this`tail
      ensures Valid()
      ensures ok <==> |old(Contents())| < buffer.Length - 1
      ensures Contents() == if ok then old(Contents()) + [value] else old(Contents())
      ensures PushAlone(old(Idle()), value) == Idle().(pushed := if ok then [value] else [])
    {
      AfterWraps(tail, buffer.Length);
      var next := After(tail, buffer.Length);
      if next == head {
        return false;
      }
      buffer[tail] := value;
      tail := next;
      return true;
    }

    method TryPop() returns (r: Option<T>)
      requires Valid()
      modifies this`head
      ensures Valid()
      ensures r.None? <==> old(Contents()) == []
      ensures old(Contents()) == if r.Some? then [r.value] + Contents() else Contents()
      ensures PopAlone(old(Idle())) == Idle().(popped := if r.Some? then [r.value] else [])
    {
      AfterWraps(head, buffer.Length);
      if head == tail {
        return None;
      }
      ghost var was := Contents();
      r := Some(buffer[head]);
      head := After(head, buffer.Length);
      assert was[0] == r.value && was[1..] == Contents();
    }
  }
}
