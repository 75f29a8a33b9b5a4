/** Session validation and risk limits, and what they guarantee about the book behind the gateway. */
module Gateway {
  import opened Types
  import opened Ladder
  import opened Reference
  import Codec
  import Stream
  import opened Pipeline

  datatype RiskLimits = RiskLimits(maximumQuantity: u64, maximumPrice: Price, maximumNotional: u64)

  const DEFAULT_LIMITS := RiskLimits(1_000_000, 1_000_000_000, 100_000_000_000)
  const GATEWAY_BOOK := Config(9_000, 11_000, 1, 1_000_000)

  // ---- risk ----------------------------------------------------------------------------------

  /** violates_risk, with its guarded 64-bit product. */
  predicate ViolatesRisk(l: RiskLimits, m: Command) {
    if m.kind.Cancel? then false
    else if m.quantity == 0 || m.quantity > l.maximumQuantity then true
    else if m.orderType.Market? && m.kind.New? then false
    else if m.price <= 0 || m.price > l.maximumPrice then true
    else if m.quantity > l.maximumNotional / m.price then true
    else Wrap(m.price * m.quantity) > l.maximumNotional
  }

  /** What the limits mean, over unbounded integers. */
  predicate WithinRisk(l: RiskLimits, m: Command) {
    || m.kind.Cancel?
    || (&& 0 < m.quantity <= l.maximumQuantity
        && (|| (m.kind.New? && m.orderType.Market?)
            || (0 < m.price <= l.maximumPrice && m.price * m.quantity <= l.maximumNotional)))
  }

  /** The division guard keeps the product from wrapping, so the test is exact. */
  lemma {:induction false} RiskIsExact(l: RiskLimits, m: Command)
    ensures ViolatesRisk(l, m) <==> !WithinRisk(l, m)
  {
    if m.price > 0 {
      var most := l.maximumNotional / m.price;
      assert most * m.price <= l.maximumNotional < (most + 1) * m.price;
      if m.quantity <= most {
        MulMono(m.quantity, most, m.price);
        assert m.price * m.quantity == m.quantity * m.price;
        WrapSmall(m.price * m.quantity);
      } else {
        MulMono(most + 1, m.quantity, m.price);
        assert m.price * m.quantity == m.quantity * m.price;
      }
    }
  }

  // ---- sessions ------------------------------------------------------------------------------

  class SessionValidator {
    const session: u32
    const limits: RiskLimits
    var next: u64

    constructor (session: u32, limits: RiskLimits)
      ensures this.session == session && this.limits == limits && next == 1
    {
      this.session, this.limits, next := session, limits, 1;
    }

    method ValidateAndAdvance(r: Request) returns (reason: RejectReason)
      modifies this
      ensures r.session != session || r.clientSequence != old(next) ==>
                reason == InvalidSessionSequence && next == old(next)
      ensures r.session == session && r.clientSequence == old(next) ==>
                && next == (old(next) + 1) % 0x1_0000_0000_0000_0000
                && reason == if WithinRisk(limits, r.command) then NoReason else RiskLimit
      ensures reason == Verdict(session, limits, old(next), r) && next == After(session, old(next), r)
    {
      if r.session != session || r.clientSequence != next {
        return InvalidSessionSequence;
      }
      next := Next(next);
      RiskIsExact(limits, r.command);
      if ViolatesRisk(limits, r.command) {
        return RiskLimit;
      }
      return NoReason;
    }
  }

  /** The request has the session and the client sequence expected now. */
  predicate Due(session: u32, next: u64, r: Request) {
    r.session == session && r.clientSequence == next
  }

  function Verdict(session: u32, l: RiskLimits, next: u64, r: Request): RejectReason {
    if !Due(session, next, r) then InvalidSessionSequence
    else if WithinRisk(l, r.command) then NoReason
    else RiskLimit
  }

  function After(session: u32, next: u64, r: Request): u64 {
    if Due(session, next, r) then Next(next) else next
  }

  // ---- what becomes of a request -------------------------------------------------------------

  /** A connection's session: unbound until its first request. */
  datatype Session = Unbound | Bound(id: u32, next: u64)

  /** Requests pushed to the engine, responses queued at once, and whether the connection stays open. */
  datatype Handled = Handled(forwarded: seq<Request>, answers: seq<Response>, session: Session, open: bool)

  /** gateway_rejection, addressed to the sender. */
  function Rejection(r: Request, reason: RejectReason): Response {
    Response(r.session, r.clientSequence,
             Event(0, Rejected, r.command.side, reason, r.command.orderId, 0, r.command.price, r.command.quantity))
  }

  function Join(fs: seq<Request>, ws: seq<Response>, h: Handled): (j: Handled)
    ensures fs == [] && ws == [] ==> j == h
  {
    h.(forwarded := fs + h.forwarded, answers := ws + h.answers)
  }

  lemma {:induction false} JoinTwice(f1: seq<Request>, w1: seq<Response>, f2: seq<Request>, w2: seq<Response>,
                                     h: Handled)
    ensures Join(f1, w1, Join(f2, w2, h)) == Join(f1 + f2, w1 + w2, h)
  {
    assert f1 + (f2 + h.forwarded) == (f1 + f2) + h.forwarded;
    assert w1 + (w2 + h.answers) == (w1 + w2) + h.answers;
  }

  /** The session a request is judged in; None when another connection holds it. */
  function Binding(s: Session, taken: set<u32>, r: Request): (b: Option<Session>)
    ensures b.Some? ==> b.value.Bound?
  {
    if s.Bound? then Some(s) else if r.session in taken then None else Some(Bound(r.session, 1))
  }

  /**
   One decoded request of a bound connection: forwarded if it is in order and the ring has `room`,
   otherwise answered with a rejection if the transmit buffer has `space`; where neither works the
   connection closes.
   */
  function One(id: u32, l: RiskLimits, next: u64, room: nat, space: nat, r: Request): (h: Handled)
    ensures |h.forwarded| + |h.answers| == if h.open then 1 else 0
    ensures |h.forwarded| <= room && Codec.RESPONSE_SIZE * |h.answers| <= space && h.session.Bound?
  {
    var verdict, t := Verdict(id, l, next, r), Bound(id, After(id, next, r));
    if verdict == NoReason && room > 0 then Handled([r], [], t, true)
    else
      var answer := Rejection(r, if verdict == NoReason then GatewayBackpressure else verdict);
      if space < Codec.RESPONSE_SIZE || !Codec.EncodableResponse(answer) then Handled([], [], t, false)
      else Handled([], [answer], t, true)
  }

  /**
   The request ring as the gateway thread meets it: its size, the slots now free, and how many
   requests the engine thread takes before each push to come (none once the list is used up).
   */
  datatype Slots = Slots(size: nat, free: nat, takes: seq<nat>)

  function First(takes: seq<nat>): nat {
    if takes == [] then 0 else takes[0]
  }

  function From(takes: seq<nat>, i: nat): seq<nat> {
    if i <= |takes| then takes[i..] else []
  }

  /** The free slots the next push meets. */
  function Room(q: Slots): (room: nat)
    ensures room <= q.size && room <= q.free + First(q.takes)
  {
    if q.free + First(q.takes) <= q.size then q.free + First(q.takes) else q.size
  }

  function Left(q: Slots, pushed: nat): Slots
    requires pushed <= Room(q)
  {
    Slots(q.size, Room(q) - pushed, From(q.takes, 1))
  }

  function Sum(ns: seq<nat>): nat {
    if ns == [] then 0 else ns[0] + Sum(ns[1..])
  }

  /** The decoded requests in turn, until the connection closes. */
  function Handle(s: Session, l: RiskLimits, taken: set<u32>, q: Slots, space: nat, rs: seq<Request>): Handled
    decreases |rs|
  {
    if rs == [] then Handled([], [], s, true)
    else
      var bound := Binding(s, taken, rs[0]);
      if bound.None? then Handled([], [], s, false)
      else
        var one := One(bound.value.id, l, bound.value.next, Room(q), space, rs[0]);
        if !one.open then one
        else
          Join(one.forwarded, one.answers,
               Handle(one.session, l, taken, Left(q, |one.forwarded|), space - Codec.RESPONSE_SIZE * |one.answers|,
                 rs[1..]))
  }

  /** The validator's state as a session. */
  ghost function SessionOf(v: SessionValidator?): Session
    reads v
  {
    if v == null then Unbound else Bound(v.session, v.next)
  }

  /** reject: queue a rejection of the request. */
  method Reject(connection: Stream.Connection, r: Request, reason: RejectReason) returns (ok: bool)
    requires connection.Valid()
    modifies connection.transmit, connection`begin, connection`end
    ensures connection.Valid()
    ensures ok <==> Codec.EncodableResponse(Rejection(r, reason)) && old(Space(connection)) >= Codec.RESPONSE_SIZE
    ensures connection.Outgoing()
            == old(connection.Outgoing()) + Stream.ResponseFrames(if ok then [Rejection(r, reason)] else [])
    ensures Space(connection) == old(Space(connection)) - if ok then Codec.RESPONSE_SIZE else 0
  {
    hide Codec.ResponseFrame, Stream.ResponseFrames, Rejection;
    Stream.ResponseFramesOne(Rejection(r, reason));
    ok := connection.QueueResponse(Rejection(r, reason));
  }

  /** The ring and the takes to come, as `Slots`. */
  ghost function SlotsOf(ring: Spsc.SpscQueue<Request>, takes: seq<nat>): Slots
    reads ring, ring.buffer
    requires ring.Valid()
  {
    Slots(ring.buffer.Length - 1, ring.buffer.Length - 1 - |ring.Contents()|, takes)
  }

  /** The free bytes of the transmit buffer. */
  ghost function Space(connection: Stream.Connection): nat
    reads connection, connection.transmit
    requires connection.Valid()
  {
    Stream.TRANSMIT_CAPACITY - |connection.Outgoing()|
  }

  /** What the engine thread does to the ring meanwhile: it takes up to `n` requests. */
  method EngineTakes(ring: Spsc.SpscQueue<Request>, n: nat) returns (ghost popped: seq<Request>)
    requires ring.Valid()
    modifies ring`head
    ensures ring.Valid() && popped + ring.Contents() == old(ring.Contents())
    ensures SlotsOf(ring, []).free == old(Room(SlotsOf(ring, [n])))
  {
    hide Spsc.Ring;
    popped := [];
    for i := 0 to n
      invariant ring.Valid() && popped + ring.Contents() == old(ring.Contents())
      invariant SlotsOf(ring, []).free == old(Room(SlotsOf(ring, [i])))
    {
      var request := ring.TryPop();
      if request.Some? {
        Regroup(popped, [request.value], ring.Contents());
        popped := popped + [request.value];
      }
    }
  }

  /** One decoded request of a bound connection, the engine taking up to `n` requests before it is pushed. */
  method HandleRequest(connection: Stream.Connection, validator: SessionValidator, ring: Spsc.SpscQueue<Request>,
                       r: Request, n: nat)
    returns (ghost h: Handled, open: bool, ghost popped: seq<Request>)
    requires connection.Valid() && ring.Valid()
    modifies validator, ring.buffer, ring`head, ring`tail, connection.transmit, connection`begin, connection`end
    ensures connection.Valid() && ring.Valid() && open == h.open
    ensures h == One(validator.session, validator.limits, old(validator.next), old(Room(SlotsOf(ring, [n]))),
            old(Space(connection)), r)
    ensures popped + ring.Contents() == old(ring.Contents()) + h.forwarded
    ensures connection.Outgoing() == old(connection.Outgoing()) + Stream.ResponseFrames(h.answers)
    ensures SessionOf(validator) == h.session
    ensures SlotsOf(ring, []).free == old(Room(SlotsOf(ring, [n]))) - |h.forwarded|
    ensures Space(connection) == old(Space(connection)) - Codec.RESPONSE_SIZE * |h.answers|
  {
    hide Verdict, After, Spsc.Ring, Spsc.PushAlone, Stream.ResponseFrames, Rejection, Codec.EncodableResponse, Room;
    Stream.ResponseFramesNone();
    popped := EngineTakes(ring, n);
    h := One(validator.session, validator.limits, validator.next, SlotsOf(ring, []).free, Space(connection), r);
    var reason := validator.ValidateAndAdvance(r);
    if reason == NoReason {
      ghost var held := ring.Contents();
      var pushed := ring.TryPush(r);
      if pushed {
        Regroup(popped, held, [r]);
        return h, true, popped;
      }
      reason := GatewayBackpressure;
    }
    open := Reject(connection, r, reason);
  }

  lemma {:induction false} Regroup<T>(x: seq<T>, y: seq<T>, z: seq<T>)
    ensures (x + y) + z == x + (y + z)
  {}

  /** The takes after the next one. */
  lemma {:induction false} FromNext(takes: seq<nat>, i: nat)
    ensures First(From(takes, i)) == (if i < |takes| then takes[i] else 0)
    ensures From(From(takes, i), 1) == From(takes, i + 1) && From(takes, 0) == takes
  {}

  /** What left the ring, what it holds, and what was pushed, over two stretches of work. */
  lemma {:induction false} RingFlow(before: seq<Request>, p1: seq<Request>, held: seq<Request>, f1: seq<Request>,
                                    p2: seq<Request>, after: seq<Request>, f2: seq<Request>)
    requires p1 + held == before + f1 && p2 + after == held + f2
    ensures (p1 + p2) + after == before + (f1 + f2)
  {
    Regroup(p1, p2, after);
    Regroup(p1, held, f2);
    Regroup(before, f1, f2);
  }

  /** The body of the receive loop over the decoded requests of a bound connection. */
  method HandleBound(connection: Stream.Connection, validator: SessionValidator, ring: Spsc.SpscQueue<Request>,
                     takes: seq<nat>, rs: seq<Request>)
    returns (open: bool, ghost fs: seq<Request>, ghost ws: seq<Response>, ghost popped: seq<Request>)
    requires connection.Valid() && ring.Valid()
    modifies validator, ring.buffer, ring`head, ring`tail, connection.transmit, connection`begin, connection`end
    ensures connection.Valid() && ring.Valid()
    ensures popped + ring.Contents() == old(ring.Contents()) + fs
    ensures connection.Outgoing() == old(connection.Outgoing()) + Stream.ResponseFrames(ws)
    ensures Handled(fs, ws, SessionOf(validator), open)
            == Handle(old(SessionOf(validator)), validator.limits, {}, old(SlotsOf(ring, takes)),
                 old(Space(connection)), rs)
  {
    hide Codec.ResponseFrame, Spsc.Ring, Handle, One, Space, Stream.ResponseFrames, From, First;
    fs, ws, popped := [], [], [];
    ghost var l := validator.limits;
    ghost var whole := Handle(SessionOf(validator), l, {}, SlotsOf(ring, takes), Space(connection), rs);
    Stream.ResponseFramesNone();
    FromNext(takes, 0);
    assert rs[0..] == rs;
    for i := 0 to |rs|
      invariant connection.Valid() && ring.Valid()
      invariant popped + ring.Contents() == old(ring.Contents()) + fs
      invariant connection.Outgoing() == old(connection.Outgoing()) + Stream.ResponseFrames(ws)
      invariant whole == Join(fs, ws, Handle(SessionOf(validator), l, {}, SlotsOf(ring, From(takes, i)),
                                        Space(connection), rs[i..]))
    {
      assert rs[i..][0] == rs[i] && rs[i..][1..] == rs[i + 1..];
      FromNext(takes, i);
      FromNext([First(From(takes, i))], 0);
      ghost var held := ring.Contents();
      HandleOne(SessionOf(validator), l, {}, SlotsOf(ring, From(takes, i)), Space(connection), rs[i..]);
      ghost var h, out;
      h, open, out := HandleRequest(connection, validator, ring, rs[i], if i < |takes| then takes[i] else 0);
      Stream.ResponseFramesConcat(ws, h.answers);
      RingFlow(old(ring.Contents()), popped, held, fs, out, ring.Contents(), h.forwarded);
      Regroup(old(connection.Outgoing()), Stream.ResponseFrames(ws), Stream.ResponseFrames(h.answers));
      JoinTwice(fs, ws, h.forwarded, h.answers,
                Handle(SessionOf(validator), l, {}, SlotsOf(ring, From(takes, i + 1)), Space(connection),
                       rs[i + 1..]));
      fs, ws, popped := fs + h.forwarded, ws + h.answers, popped + out;
      if !open {
        return false, fs, ws, popped;
      }
    }
    HandleNothing(SessionOf(validator), l, {});
    assert rs[|rs|..] == [];
    open := true;
  }

  /** The same from the connection's first request on, which binds the session. */
  method HandleRequests(connection: Stream.Connection, validator: SessionValidator?, taken: set<u32>,
                        ring: Spsc.SpscQueue<Request>, takes: seq<nat>, rs: seq<Request>)
    returns (open: bool, bound: SessionValidator?, ghost fs: seq<Request>, ghost ws: seq<Response>,
             ghost popped: seq<Request>)
    requires connection.Valid() && ring.Valid() && (validator != null ==> validator.limits == DEFAULT_LIMITS)
    modifies validator, ring.buffer, ring`head, ring`tail, connection.transmit, connection`begin, connection`end
    ensures connection.Valid() && ring.Valid() && (bound == validator || fresh(bound))
    ensures popped + ring.Contents() == old(ring.Contents()) + fs
    ensures connection.Outgoing() == old(connection.Outgoing()) + Stream.ResponseFrames(ws)
    ensures Handled(fs, ws, SessionOf(bound), open)
            == Handle(old(SessionOf(validator)), DEFAULT_LIMITS, taken, old(SlotsOf(ring, takes)),
                 old(Space(connection)), rs)
  {
    hide Codec.ResponseFrame, Spsc.Ring, Handle, Stream.ResponseFrames;
    Stream.ResponseFramesNone();
    HandleNothing(SessionOf(validator), DEFAULT_LIMITS, taken);
    HandleBinds(SessionOf(validator), DEFAULT_LIMITS, taken, SlotsOf(ring, takes), Space(connection), rs);
    bound, fs, ws, popped := validator, [], [], [];
    if rs == [] {
      return true, bound, fs, ws, popped;
    }
    if bound == null {
      if rs[0].session in taken {
        return false, bound, fs, ws, popped;
      }
      bound := new SessionValidator(rs[0].session, DEFAULT_LIMITS);
    }
    open, fs, ws, popped := HandleBound(connection, bound, ring, takes, rs);
  }

  /**
   One socket's turn: receive, decode, handle, while the engine thread takes requests at its own
   pace; open exactly while both the stream and its requests are in order.
   */
  method Service(connection: Stream.Connection, validator: SessionValidator?, taken: set<u32>,
                 ring: Spsc.SpscQueue<Request>, takes: seq<nat>, incoming: seq<Byte>)
    returns (open: bool, bound: SessionValidator?, used: nat, ghost fs: seq<Request>, ghost ws: seq<Response>,
             ghost popped: seq<Request>)
    requires connection.Valid() && ring.Valid() && (validator != null ==> validator.limits == DEFAULT_LIMITS)
    modifies validator, ring.buffer, ring`head, ring`tail
    modifies connection.receive, connection`received, connection.transmit, connection`begin, connection`end
    ensures connection.Valid() && ring.Valid() && (bound == validator || fresh(bound))
    ensures var free := 65_536 - |old(connection.Pending())|;
            0 <= used == if |incoming| <= free then |incoming| else free
    ensures popped + ring.Contents() == old(ring.Contents()) + fs
    ensures connection.Outgoing() == old(connection.Outgoing()) + Stream.ResponseFrames(ws)
    ensures var p := Stream.Parse(old(connection.Pending()) + incoming[..used]);
            var h := Handle(old(SessionOf(validator)), DEFAULT_LIMITS, taken, old(SlotsOf(ring, takes)),
              old(Space(connection)), p.requests);
            && Handled(fs, ws, SessionOf(bound), h.open) == h
            && (open <==> h.open && !p.broken)
            && (!p.broken ==> connection.Pending() == p.rest)
  {
    hide Codec.ResponseFrame, Spsc.Ring, Handle, Stream.ResponseFrames, Stream.Parse;
    var sound, requests, count := connection.ReadRequests(incoming);
    used := count;
    open, bound, fs, ws, popped := HandleRequests(connection, validator, taken, ring, takes, requests);
    open := open && sound;
  }

  /** Only the first request meets an unbound connection. */
  lemma {:induction false} HandleBinds(s: Session, l: RiskLimits, taken: set<u32>, q: Slots, space: nat,
                                       rs: seq<Request>)
    ensures rs != [] ==>
              var bound := Binding(s, taken, rs[0]);
              Handle(s, l, taken, q, space, rs)
              == if bound.None? then Handled([], [], s, false) else Handle(bound.value, l, {}, q, space, rs)
    decreases |rs|
  {
    hide One, Handle;
    if rs != [] {
      HandleOne(s, l, taken, q, space, rs);
      var bound := Binding(s, taken, rs[0]);
      if bound.Some? {
        HandleOne(bound.value, l, {}, q, space, rs);
        var one := One(bound.value.id, l, bound.value.next, Room(q), space, rs[0]);
        HandleNothing(one.session, l, taken);
        HandleNothing(one.session, l, {});
        HandleBinds(one.session, l, taken, Left(q, |one.forwarded|), space - Codec.RESPONSE_SIZE * |one.answers|,
          rs[1..]);
      }
    }
  }

  /** One turn of the loop. */
  lemma {:induction false} HandleOne(s: Session, l: RiskLimits, taken: set<u32>, q: Slots, space: nat,
                                     rs: seq<Request>)
    requires rs != []
    ensures var h, bound := Handle(s, l, taken, q, space, rs), Binding(s, taken, rs[0]);
            if bound.None? then h == Handled([], [], s, false)
            else
              var one := One(bound.value.id, l, bound.value.next, Room(q), space, rs[0]);
              && |one.forwarded| + |one.answers| == (if one.open then 1 else 0) && one.session.Bound?
              && |one.forwarded| <= Room(q) && Codec.RESPONSE_SIZE * |one.answers| <= space
              && h == if !one.open then one
                      else Join(one.forwarded, one.answers,
                                Handle(one.session, l, taken, Left(q, |one.forwarded|),
                                       space - Codec.RESPONSE_SIZE * |one.answers|, rs[1..]))
  {
    hide Verdict, After;
  }

  lemma {:induction false} HandleNothing(s: Session, l: RiskLimits, taken: set<u32>)
    ensures forall q, space :: Handle(s, l, taken, q, space, []) == Handled([], [], s, true)
  {}

  // ---- what the engine and the client get to see ---------------------------------------------

  /** The answer rejects the request for the reason, and is addressed to its sender. */
  predicate Answers(w: Response, r: Request, reason: RejectReason) {
    && w.session == r.session && w.clientSequence == r.clientSequence
    && w.event == Event(0, Rejected, r.command.side, reason, r.command.orderId, 0, r.command.price, r.command.quantity)
  }

  /** How many requests arrive due. */
  function CountDue(id: u32, next: u64, rs: seq<Request>): nat
    decreases |rs|
  {
    if rs == [] then 0 else (if Due(id, next, rs[0]) then 1 else 0) + CountDue(id, After(id, next, rs[0]), rs[1..])
  }

  /**
   Every request, in order, and what became of it: due, within the limits and with room in the ring
   it is forwarded; otherwise it is answered with the first of the three that failed.
   */
  predicate Accounts(id: u32, l: RiskLimits, next: u64, q: Slots, rs: seq<Request>, fs: seq<Request>,
                     ws: seq<Response>)
    decreases |rs|
  {
    if rs == [] then fs == [] && ws == []
    else if !Due(id, next, rs[0]) then
      && ws != [] && Answers(ws[0], rs[0], InvalidSessionSequence)
      && Accounts(id, l, next, Left(q, 0), rs[1..], fs, ws[1..])
    else
      var next' := (next + 1) % 0x1_0000_0000_0000_0000;
      if !WithinRisk(l, rs[0].command) then
        && ws != [] && Answers(ws[0], rs[0], RiskLimit)
        && Accounts(id, l, next', Left(q, 0), rs[1..], fs, ws[1..])
      else if Room(q) == 0 then
        && ws != [] && Answers(ws[0], rs[0], GatewayBackpressure)
        && Accounts(id, l, next', Left(q, 0), rs[1..], fs, ws[1..])
      else fs != [] && fs[0] == rs[0] && Accounts(id, l, next', Left(q, 1), rs[1..], fs[1..], ws)
  }

  /** Requests of one session within the limits, client sequences strictly increasing from `next`. */
  predicate Orderly(id: u32, l: RiskLimits, next: u64, fs: seq<Request>) {
    && (forall k | 0 <= k < |fs| :: fs[k].session == id && WithinRisk(l, fs[k].command) && fs[k].clientSequence >= next)
    && (forall j, k | 0 <= j < k < |fs| :: fs[j].clientSequence < fs[k].clientSequence)
  }

  lemma {:induction false} OrderlyNothing(l: RiskLimits)
    ensures forall id, next :: Orderly(id, l, next, [])
  {}

  /** What one request can add: itself, in order and within the limits. */
  lemma {:induction false} OneInOrder(id: u32, l: RiskLimits, next: u64, room: nat, space: nat, r: Request)
    requires next + 1 < TWO64
    ensures var one := One(id, l, next, room, space, r);
            && one.session.Bound? && one.session.id == id && next <= one.session.next <= next + 1
            && (one.forwarded == []
                || (&& one.forwarded == [r] && one.session.next == next + 1
                    && r.session == id && r.clientSequence == next && WithinRisk(l, r.command)))
  {
    hide WithinRisk;
  }

  lemma {:induction false} OrderlyOne(id: u32, l: RiskLimits, next: u64, room: nat, space: nat, r: Request,
                                      fs: seq<Request>)
    requires next + 1 < TWO64 && Orderly(id, l, One(id, l, next, room, space, r).session.next, fs)
    ensures var one := One(id, l, next, room, space, r);
            && one.session.Bound? && one.session.id == id && next <= one.session.next <= next + 1
            && Orderly(id, l, next, one.forwarded + fs)
  {
    hide WithinRisk, One, Orderly;
    OneInOrder(id, l, next, room, space, r);
    var one := One(id, l, next, room, space, r);
    if one.forwarded == [] {
      assert one.forwarded + fs == fs;
      OrderlyFrom(id, l, next, one.session.next, fs);
    } else {
      OrderlyCons(id, l, next, r, fs);
    }
  }

  lemma {:induction false} OrderlyFrom(id: u32, l: RiskLimits, next: u64, later: u64, fs: seq<Request>)
    requires next <= later && Orderly(id, l, later, fs)
    ensures Orderly(id, l, next, fs)
  {
    hide WithinRisk;
  }

  lemma {:induction false} OrderlyCons(id: u32, l: RiskLimits, next: u64, r: Request, fs: seq<Request>)
    requires r.session == id && WithinRisk(l, r.command) && r.clientSequence == next && next + 1 < TWO64
    requires Orderly(id, l, next + 1, fs)
    ensures Orderly(id, l, next, [r] + fs)
  {
    hide WithinRisk;
    var all := [r] + fs;
    assert forall k | 0 < k < |all| :: all[k] == fs[k - 1];
    forall j, k | 0 <= j < k < |all| ensures all[j].clientSequence < all[k].clientSequence {
      if j > 0 { assert fs[j - 1].clientSequence < fs[k - 1].clientSequence; }
    }
  }

  /** A request that is not forwarded is answered with the reason that applies. */
  lemma {:induction false} OneAnswers(id: u32, l: RiskLimits, next: u64, room: nat, space: nat, r: Request)
    ensures var one := One(id, l, next, room, space, r);
            one.open ==>
              if Due(id, next, r) && WithinRisk(l, r.command) && room > 0 then one.forwarded == [r] && one.answers == []
              else
                && one.forwarded == [] && |one.answers| == 1
                && Answers(one.answers[0], r, if !Due(id, next, r) then InvalidSessionSequence
                                              else if !WithinRisk(l, r.command) then RiskLimit else GatewayBackpressure)
  {
    hide WithinRisk, After, Codec.EncodableResponse;
  }

  lemma {:induction false} AfterDue(id: u32, next: u64, r: Request)
    ensures After(id, next, r) == if Due(id, next, r) then (next + 1) % 0x1_0000_0000_0000_0000 else next
  {}

  lemma {:induction false} AccountsCons(id: u32, l: RiskLimits, next: u64, q: Slots, space: nat, r: Request,
                                        rs: seq<Request>, h: Handled)
    requires var one := One(id, l, next, Room(q), space, r);
             && one.open && |one.forwarded| <= Room(q)
             && Accounts(id, l, After(id, next, r), Left(q, |one.forwarded|), rs, h.forwarded, h.answers)
    ensures var one := One(id, l, next, Room(q), space, r);
            Accounts(id, l, next, q, [r] + rs, one.forwarded + h.forwarded, one.answers + h.answers)
  {
    hide WithinRisk, Room, Left, One, Due, After, Answers;
    OneAnswers(id, l, next, Room(q), space, r);
    AfterDue(id, next, r);
    var one := One(id, l, next, Room(q), space, r);
    assert ([r] + rs)[1..] == rs;
    if one.forwarded != [] {
      assert (one.forwarded + h.forwarded)[1..] == h.forwarded && one.answers + h.answers == h.answers;
    } else {
      assert (one.answers + h.answers)[1..] == h.answers && one.forwarded + h.forwarded == h.forwarded;
    }
  }

  lemma {:induction false} AccountsNothing(id: u32, l: RiskLimits, next: u64, q: Slots)
    ensures Accounts(id, l, next, q, [], [], [])
  {}

  /** One request moves the session exactly when it is due. */
  lemma {:induction false} OneAdvances(id: u32, l: RiskLimits, next: u64, room: nat, space: nat, r: Request)
    ensures One(id, l, next, room, space, r).session == Bound(id, After(id, next, r))
  {
    hide WithinRisk;
  }

  /** The requests a connection got round to: all, or those up to the one that closed it. */
  function Reached(h: Handled): nat {
    |h.forwarded| + |h.answers| + if h.open then 0 else 1
  }

  /** The session a list of requests is judged in. */
  function SessionFor(s: Session, rs: seq<Request>): (t: Session)
    ensures t.Bound?
  {
    if s.Bound? then s else Bound(if rs == [] then 0 else rs[0].session, 1)
  }

  /**
   Each request of an open connection is forwarded or answered, for the reason that applies to it,
   and neither buffer is overrun.
   */
  lemma {:induction false} HandleAccounts(s: Session, l: RiskLimits, taken: set<u32>, q: Slots, space: nat,
                                          rs: seq<Request>)
    ensures var h, t := Handle(s, l, taken, q, space, rs), SessionFor(s, rs);
            && |h.forwarded| <= q.free + Sum(q.takes) && Codec.RESPONSE_SIZE * |h.answers| <= space
            && |h.forwarded| + |h.answers| <= |rs|
            && Accounts(t.id, l, t.next, q, rs[..|h.forwarded| + |h.answers|], h.forwarded, h.answers)
            && (h.open <==> |h.forwarded| + |h.answers| == |rs|)
    decreases |rs|
  {
    hide Handle, One, Accounts;
    var t := SessionFor(s, rs);
    AccountsNothing(t.id, l, t.next, q);
    assert rs[..0] == [];
    if rs == [] {
      HandleNothing(s, l, taken);
    } else {
      HandleOne(s, l, taken, q, space, rs);
      var bound := Binding(s, taken, rs[0]);
      if bound.Some? {
        var id, next := bound.value.id, bound.value.next;
        var one := One(id, l, next, Room(q), space, rs[0]);
        OneAdvances(id, l, next, Room(q), space, rs[0]);
        if one.open {
          var i, j := Left(q, |one.forwarded|), space - Codec.RESPONSE_SIZE * |one.answers|;
          HandleAccounts(one.session, l, taken, i, j, rs[1..]);
          var h := Handle(one.session, l, taken, i, j, rs[1..]);
          var n := |h.forwarded| + |h.answers|;
          AccountsCons(id, l, next, q, space, rs[0], rs[1..][..n], h);
          assert [rs[0]] + rs[1..][..n] == rs[..n + 1];
        }
      }
    }
  }

  lemma {:induction false} CountDueNothing()
    ensures forall id, next :: CountDue(id, next, []) == 0
  {}

  lemma {:induction false} CountDueCons(id: u32, next: u64, r: Request, rs: seq<Request>)
    ensures CountDue(id, next, [r] + rs) == (if Due(id, next, r) then 1 else 0) + CountDue(id, After(id, next, r), rs)
  {
    assert ([r] + rs)[1..] == rs;
  }

  /** The next client sequence counts the due requests, whatever came between them. */
  lemma {:induction false} SequenceCounts(s: Session, l: RiskLimits, taken: set<u32>, q: Slots, space: nat,
                                          rs: seq<Request>)
    ensures var h, t := Handle(s, l, taken, q, space, rs), SessionFor(s, rs);
            && (s.Bound? ==> h.session.Bound?)
            && (h.session.Bound? ==>
                  && Reached(h) <= |rs| && h.session.id == t.id
                  && h.session.next == (t.next + CountDue(t.id, t.next, rs[..Reached(h)])) % 0x1_0000_0000_0000_0000)
    decreases |rs|
  {
    hide Handle, One, CountDue, After, Due, Room, First, From, Join;
    CountDueNothing();
    if rs == [] {
      HandleNothing(s, l, taken);
    } else {
      HandleOne(s, l, taken, q, space, rs);
      var bound := Binding(s, taken, rs[0]);
      if bound.Some? {
        var id, next := bound.value.id, bound.value.next;
        var one := One(id, l, next, Room(q), space, rs[0]);
        OneAdvances(id, l, next, Room(q), space, rs[0]);
        var i, j := Left(q, |one.forwarded|), space - Codec.RESPONSE_SIZE * |one.answers|;
        SequenceCounts(one.session, l, taken, i, j, rs[1..]);
        var h := Handle(one.session, l, taken, i, j, rs[1..]);
        JoinReaches(one.forwarded, one.answers, h);
        var n := if one.open then Reached(h) else 0;
        CountDueCons(id, next, rs[0], rs[1..][..n]);
        assert [rs[0]] + rs[1..][..n] == rs[..n + 1];
        AfterAdds(id, next, rs[0], CountDue(id, After(id, next, rs[0]), rs[1..][..n]));
      }
    }
  }

  lemma {:induction false} JoinReaches(fs: seq<Request>, ws: seq<Response>, h: Handled)
    ensures Reached(Join(fs, ws, h)) == |fs| + |ws| + Reached(h) && Join(fs, ws, h).session == h.session
  {}

  lemma {:induction false} AfterAdds(id: u32, next: u64, r: Request, n: nat)
    ensures (After(id, next, r) + n) % 0x1_0000_0000_0000_0000
            == (next + ((if Due(id, next, r) then 1 else 0) + n)) % 0x1_0000_0000_0000_0000
  {}

  /**
   Whatever a client sends, the engine sees one session only, that of the first request unless
   another connection holds it, within the limits, and in strictly increasing client sequence:
   nothing is replayed and nothing is reordered.
   */
  lemma {:induction false} AdmissionTheorem(s: Session, l: RiskLimits, taken: set<u32>, q: Slots, space: nat,
                                            rs: seq<Request>)
    requires (if s.Bound? then s.next else 1) + |rs| < TWO64
    ensures var h := Handle(s, l, taken, q, space, rs);
            && (s.Bound? ==> h.session.Bound? && h.session.id == s.id)
            && (h.forwarded != [] ==> h.session.Bound?)
            && (!s.Bound? && rs != [] ==>
                  if rs[0].session in taken then h == Handled([], [], s, false)
                  else h.session.Bound? && h.session.id == rs[0].session)
            && (h.session.Bound? ==> Orderly(h.session.id, l, if s.Bound? then s.next else 1, h.forwarded))
    decreases |rs|
  {
    hide Handle, One, Orderly;
    OrderlyNothing(l);
    if rs == [] {
      HandleNothing(s, l, taken);
    } else {
      HandleOne(s, l, taken, q, space, rs);
      var bound := Binding(s, taken, rs[0]);
      if bound.Some? {
        var id, next := bound.value.id, bound.value.next;
        var one := One(id, l, next, Room(q), space, rs[0]);
        var i, j := Left(q, |one.forwarded|), space - Codec.RESPONSE_SIZE * |one.answers|;
        OrderlyOne(id, l, next, Room(q), space, rs[0], []);
        AdmissionTheorem(one.session, l, taken, i, j, rs[1..]);
        OrderlyOne(id, l, next, Room(q), space, rs[0], Handle(one.session, l, taken, i, j, rs[1..]).forwarded);
        assert one.forwarded + [] == one.forwarded;
      }
    }
  }

  // ---- behind the gateway --------------------------------------------------------------------

  /** As decoded from the wire and passed by the default limits. */
  predicate Admissible(r: Request) {
    var m := r.command;
    && Codec.Carried(m) == m
    && (|| m.kind.Cancel?
        || (&& 0 < m.quantity <= 1_000_000
            && (|| (m.kind.New? && m.orderType.Market?)
                || (0 < m.price <= 1_000_000_000 && m.price * m.quantity <= 100_000_000_000))))
  }

  lemma {:induction false} DefaultsAdmit(r: Request)
    requires Codec.Carried(r.command) == r.command
    ensures WithinRisk(DEFAULT_LIMITS, r.command) <==> Admissible(r)
  {}

  lemma {:induction false} ParsedCarried(bytes: seq<Byte>)
    ensures forall r | r in Stream.Parse(bytes).requests :: Codec.Carried(r.command) == r.command && Codec.Encodable(r)
    decreases |bytes|
  {
    hide Codec.DecodeRequest, Stream.Parse;
    Stream.ParseTurn(bytes);
    var d := Codec.DecodeRequest(bytes);
    if d.Ok? {
      Codec.DecodeExact(bytes, d.value, d.consumed);
      ParsedCarried(bytes[d.consumed..]);
    }
  }

  lemma {:induction false} ForwardedFrom(s: Session, l: RiskLimits, taken: set<u32>, q: Slots, space: nat,
                                         rs: seq<Request>)
    ensures forall r | r in Handle(s, l, taken, q, space, rs).forwarded :: r in rs && WithinRisk(l, r.command)
    decreases |rs|
  {
    hide Handle, WithinRisk;
    if rs == [] {
      HandleNothing(s, l, taken);
    } else {
      HandleOne(s, l, taken, q, space, rs);
      var bound := Binding(s, taken, rs[0]);
      if bound.Some? {
        var one := One(bound.value.id, l, bound.value.next, Room(q), space, rs[0]);
        ForwardedFrom(one.session, l, taken, Left(q, |one.forwarded|), space - Codec.RESPONSE_SIZE * |one.answers|,
          rs[1..]);
      }
    }
  }

  /** What some connection forwards of some bytes it received. */
  ghost predicate FromWire(r: Request) {
    exists s, taken, q, space, bytes ::
      r in Handle(s, DEFAULT_LIMITS, taken, q, space, Stream.Parse(bytes).requests).forwarded
  }

  /** Decoding and validation together make a request admissible, whatever the bytes. */
  lemma {:induction false} WireIsAdmissible(r: Request)
    requires FromWire(r)
    ensures Admissible(r)
  {
    hide Handle, WithinRisk, Stream.Parse, Admissible;
    var s, taken, q, space, bytes :|
      r in Handle(s, DEFAULT_LIMITS, taken, q, space, Stream.Parse(bytes).requests).forwarded;
    ForwardedFrom(s, DEFAULT_LIMITS, taken, q, space, Stream.Parse(bytes).requests);
    ParsedCarried(bytes);
    DefaultsAdmit(r);
  }

  lemma {:induction false} AdmissibleIsSmall(runner: Runner, last: u64, rs: seq<Request>)
    requires forall k | 0 <= k < |rs| :: Admissible(rs[k])
    ensures forall k | 0 <= k < |rs| :: Commands(runner, last, rs)[k].quantity <= 1_000_000
  {
    hide Advance;
    if rs != [] {
      var front := rs[..|rs| - 1];
      assert forall k | 0 <= k < |front| :: front[k] == rs[k];
      AdmissibleIsSmall(runner, last, front);
    }
  }

  /** The requests' commands, numbered 1, 2, 3 and so on. */
  function CountedFromOne(rs: seq<Request>): (ms: seq<Command>)
    requires |rs| < TWO64
  {
    seq(|rs|, k requires 0 <= k < |rs| => rs[k].command.(sequence := k + 1))
  }

  lemma {:induction false} CommandsCounted(rs: seq<Request>)
    requires |rs| < TWO64
    ensures Commands(GatewayEngineRunner, 0, rs) == CountedFromOne(rs)
  {
    hide Commands;
    CommandsLength(GatewayEngineRunner, 0, rs);
    forall k | 0 <= k < |rs| ensures Commands(GatewayEngineRunner, 0, rs)[k] == CountedFromOne(rs)[k] {
      CommandsRequested(GatewayEngineRunner, 0, rs, k);
    }
  }

  /**
   End to end: from whatever bytes the connections received, through decoding, validation, both
   rings and the engine, on the gateway's book and under every interleaving of the threads, the
   responses popped so far carry the events of the linear-scan book on the same commands, in order.
   */
  lemma {:induction false} GatewayMatchesReference(s: System, moves: seq<Move>)
    requires Initial(GATEWAY_BOOK, s) && WellSized(GATEWAY_BOOK, s) && s.book == Empty(GATEWAY_BOOK)
    requires var t := Execution(GATEWAY_BOOK, GatewayEngineRunner, s, moves);
             |t.input.pushed| < TWO64 && forall k | 0 <= k < |t.input.pushed| :: FromWire(t.input.pushed[k])
    ensures ValidConfig(GATEWAY_BOOK)
    ensures var t := Execution(GATEWAY_BOOK, GatewayEngineRunner, s, moves);
            var reference := RefRun(GATEWAY_BOOK, Ref([], 0), CountedFromOne(t.input.pushed)).events;
            && |t.output.popped| <= |reference|
            && forall k | 0 <= k < |t.output.popped| :: t.output.popped[k].event == reference[k]
  {
    hide Run, RefRun, Sized, Expected, Execution, Admissible, FromWire, Commands, CountedFromOne;
    var c, b := GATEWAY_BOOK, s.book;
    var t := Execution(c, GatewayEngineRunner, s, moves);
    var ms := Commands(GatewayEngineRunner, b.last, t.input.pushed);
    PipelineTheorem(c, GatewayEngineRunner, s, moves);
    CommandsCounted(t.input.pushed);
    ExpectedIsRun(c, GatewayEngineRunner, b, t.input.pushed);
    forall k | 0 <= k < |t.input.pushed| ensures Admissible(t.input.pushed[k]) { WireIsAdmissible(t.input.pushed[k]); }
    AdmissibleIsSmall(GatewayEngineRunner, b.last, t.input.pushed);
    CommandsLength(GatewayEngineRunner, b.last, t.input.pushed);
    CappedRunsAgree(c, ms, 1_000_000);
    var expected := Expected(c, GatewayEngineRunner, b, t.input.pushed);
    assert forall k | 0 <= k < |t.output.popped| :: t.output.popped[k] == expected[k];
  }

  lemma {:induction false} CommandsLength(runner: Runner, last: u64, rs: seq<Request>)
    ensures |Commands(runner, last, rs)| == |rs|
  {}
}
