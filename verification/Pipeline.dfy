/**
 Gateway, engine and response consumer around two rings, one atomic access at a time. The engine
 thread is the runner's loop; the other two threads only push requests and pop responses.
 */
module Pipeline {
  import opened Types
  import opened Ladder
  import opened Invariants
  import opened Runs
  import Spsc

  /** GatewayEngineRunner numbers the commands itself, EngineRunner takes them as they come. */
  datatype Runner = GatewayEngineRunner | EngineRunner

  /** What the engine thread does next; `unsent` is what it gave up publishing when told to stop. */
  datatype Engine = Polling | Popping | Journalling(request: Request) | Processing(request: Request, command: Command)
                  | Publishing(pending: seq<Response>) | Refused(pending: seq<Response>)
                  | Stopped(unsent: seq<Response>)

  datatype System = System(input: Spsc.State<Request>, output: Spsc.State<Response>, engine: Engine,
                           book: Book, next: u64, journal: seq<Command>, stop: bool)

  function Tagged(r: Request, es: seq<Event>): (ts: seq<Response>)
    ensures |ts| == |es|
  {
    seq(|es|, k requires 0 <= k < |es| => Response(r.session, r.clientSequence, es[k]))
  }

  function Numbered(runner: Runner, sequence: u64, r: Request): Command {
    if runner.GatewayEngineRunner? then r.command.(sequence := sequence) else r.command
  }

  // ---- steps ---------------------------------------------------------------------------------

  predicate WellSized(c: Config, s: System) {
    ValidConfig(c) && Sized(c, s.book) && Spsc.WellSized(s.input) && Spsc.WellSized(s.output)
  }

  /** One access of the input ring's try_pop. */
  function PopStep(s: System): System
    requires Spsc.WellSized(s.input)
  {
    var i := Spsc.Consume(s.input);
    if !i.consumer.Waiting? then s.(input := i)
    else if |i.popped| > |s.input.popped| then s.(input := i, engine := Journalling(i.popped[|i.popped| - 1]))
    else s.(input := i, engine := Polling)
  }

  /** One access of the output ring's try_push of the first pending response. */
  function PushStep(s: System, pending: seq<Response>): System
    requires Spsc.WellSized(s.output) && pending != []
  {
    var o := Spsc.Produce(s.output, pending[0]);
    if !o.producer.Resting? then s.(output := o)
    else if |o.pushed| > |s.output.pushed| then s.(output := o, engine := Publishing(pending[1..]))
    else s.(output := o, engine := Refused(pending))
  }

  ghost function EngineStep(c: Config, runner: Runner, s: System): System
    requires WellSized(c, s)
  {
    match s.engine
    case Polling => s.(engine := if s.stop then Stopped([]) else Popping)
    case Popping => PopStep(s)
    case Journalling(r) =>
      var m := Numbered(runner, s.next, r);
      s.(journal := s.journal + [m], next := Next(s.next), engine := Processing(r, m))
    case Processing(r, m) =>
      var x := Process(c, s.book, m);
      s.(book := x.book, engine := Publishing(Tagged(r, x.events)))
    case Publishing(pending) => if pending == [] then s.(engine := Polling) else PushStep(s, pending)
    case Refused(pending) => s.(engine := if s.stop then Stopped(pending) else Publishing(pending))
    case Stopped(_) => s
  }

  datatype Move = Submit(request: Request) | Engine | Deliver | Stop

  ghost function Step(c: Config, runner: Runner, s: System, move: Move): (t: System)
    requires WellSized(c, s)
    ensures WellSized(c, t)
  {
    match move
    case Submit(r) => s.(input := Spsc.Produce(s.input, r))
    case Engine => StepSized(c, runner, s); EngineStep(c, runner, s)
    case Deliver => s.(output := Spsc.Consume(s.output))
    case Stop => s.(stop := true)
  }

  lemma {:induction false} StepSized(c: Config, runner: Runner, s: System)
    requires WellSized(c, s)
    ensures WellSized(c, EngineStep(c, runner, s))
  {
    hide Spsc.WellSized, Spsc.Consume, Spsc.Produce, Process, Sized;
    ProcessSizes(c, s);
    RingSizes(s);
  }

  lemma {:induction false} ProcessSizes(c: Config, s: System)
    requires WellSized(c, s)
    ensures forall m :: Sized(c, Process(c, s.book, m).book)
  {
    hide Process, Sized;
    forall m ensures Sized(c, Process(c, s.book, m).book) { ProcessSized(c, s.book, m); }
  }

  lemma {:induction false} RingSizes(s: System)
    requires Spsc.WellSized(s.input) && Spsc.WellSized(s.output)
    ensures Spsc.WellSized(Spsc.Consume(s.input)) && forall v :: Spsc.WellSized(Spsc.Produce(s.output, v))
  {}

  ghost function Execution(c: Config, runner: Runner, s: System, moves: seq<Move>): (t: System)
    requires WellSized(c, s)
    ensures WellSized(c, t)
  {
    if moves == [] then s else Step(c, runner, Execution(c, runner, s, moves[..|moves| - 1]), moves[|moves| - 1])
  }

  /** Rings empty, threads idle, and the runner numbering on from the book's last sequence. */
  predicate Initial(c: Config, s: System) {
    && ValidConfig(c) && Sized(c, s.book)
    && Spsc.Initial(s.input) && Spsc.Initial(s.output)
    && s.engine.Polling? && s.next == Next(s.book.last) && s.journal == [] && !s.stop
  }

  // ---- the sequential meaning ----------------------------------------------------------------

  /** The commands a runner makes of the requests, starting after sequence `last`. */
  function Commands(runner: Runner, last: u64, rs: seq<Request>): (ms: seq<Command>)
    ensures |ms| == |rs|
  {
    if rs == [] then []
    else Commands(runner, last, rs[..|rs| - 1]) + [Numbered(runner, Advance(last, |rs|), rs[|rs| - 1])]
  }

  /** The responses of processing the requests one after the other. */
  ghost function Expected(c: Config, runner: Runner, b: Book, rs: seq<Request>): seq<Response>
    requires ValidConfig(c) && Sized(c, b)
  {
    if rs == [] then []
    else
      var front, r := rs[..|rs| - 1], rs[|rs| - 1];
      var x := Process(c, Run(c, b, Commands(runner, b.last, front)).book, Numbered(runner, Advance(b.last, |rs|), r));
      Expected(c, runner, b, front) + Tagged(r, x.events)
  }

  lemma {:induction false} ExpectedGrows(c: Config, runner: Runner, b: Book, rs: seq<Request>, n: nat)
    requires ValidConfig(c) && Sized(c, b) && n <= |rs|
    ensures Expected(c, runner, b, rs[..n]) <= Expected(c, runner, b, rs)
  {
    hide Process, Sized, Commands;
    if n < |rs| {
      var front := rs[..|rs| - 1];
      ExpectedGrows(c, runner, b, front, n);
      assert front[..n] == rs[..n];
    } else {
      assert rs[..n] == rs;
    }
  }

  lemma {:induction false} CommandsGrow(runner: Runner, last: u64, rs: seq<Request>, n: nat)
    requires n <= |rs|
    ensures Commands(runner, last, rs[..n]) == Commands(runner, last, rs)[..n]
  {
    hide Advance;
    if n < |rs| {
      var front := rs[..|rs| - 1];
      CommandsGrow(runner, last, front, n);
      assert front[..n] == rs[..n];
    } else {
      assert rs[..n] == rs;
    }
  }

  /** Stripped of their tags, the expected responses are the events of the run. */
  lemma {:induction false} ExpectedIsRun(c: Config, runner: Runner, b: Book, rs: seq<Request>)
    requires ValidConfig(c) && Sized(c, b)
    ensures var es := Run(c, b, Commands(runner, b.last, rs)).events;
            && |Expected(c, runner, b, rs)| == |es|
            && forall k | 0 <= k < |es| :: Expected(c, runner, b, rs)[k].event == es[k]
  {
    hide Process, Sized;
    if rs != [] {
      var front := rs[..|rs| - 1];
      ExpectedIsRun(c, runner, b, front);
      var ms := Commands(runner, b.last, rs);
      assert ms[..|ms| - 1] == Commands(runner, b.last, front);
    }
  }

  /** The gateway's numbering keeps pace with the book, so it never meets a sequence gap. */
  lemma {:induction false} NumberingKeepsPace(c: Config, b: Book, rs: seq<Request>)
    requires Sound(c, b) && ValidConfig(c) && Sized(c, b)
    ensures Run(c, b, Commands(GatewayEngineRunner, b.last, rs)).book.last == Advance(b.last, |rs|)
    ensures forall k | 0 <= k < |Expected(c, GatewayEngineRunner, b, rs)| ::
              Expected(c, GatewayEngineRunner, b, rs)[k].event.reason != SequenceGap
  {
    hide Process, Sized, Sound, Next;
    if rs != [] {
      var front, ms := rs[..|rs| - 1], Commands(GatewayEngineRunner, b.last, rs);
      NumberingKeepsPace(c, b, front);
      assert ms[..|ms| - 1] == Commands(GatewayEngineRunner, b.last, front);
      RunTheorem(c, b, ms[..|ms| - 1]);
      var t := Run(c, b, ms[..|ms| - 1]).book;
      ProcessLast(c, t, ms[|ms| - 1]);
      NoGap(c, t, ms[|ms| - 1]);
    }
  }

  lemma {:induction false} NoGap(c: Config, b: Book, m: Command)
    requires Sound(c, b) && ValidConfig(c) && Sized(c, b) && m.sequence == Next(b.last)
    ensures forall k | 0 <= k < |Process(c, b, m).events| :: Process(c, b, m).events[k].reason != SequenceGap
  {
    hide Process, Sound, Sized;
    ResponseTheorem(c, b, m);
    var es := Process(c, b, m).events;
    forall k | 0 <= k < |es| ensures es[k].reason != SequenceGap {
      if k > 0 { assert es[k] == es[1..][k - 1]; }
    }
  }

  // ---- the invariant -------------------------------------------------------------------------

  function Unsent(s: System): seq<Response> {
    match s.engine
    case Publishing(pending) => pending
    case Refused(pending) => pending
    case Stopped(unsent) => unsent
    case _ => []
  }

  /** Requests taken from the ring but not yet processed, and not yet journalled. */
  function InHand(s: System): nat { if s.engine.Journalling? || s.engine.Processing? then 1 else 0 }
  function Unjournalled(s: System): nat { if s.engine.Journalling? then 1 else 0 }

  /** The engine's locals agree with the rings. */
  ghost predicate Steady(s: System) {
    && Spsc.Safe(s.input) && Spsc.Safe(s.output)
    && (!s.engine.Popping? ==> s.input.consumer.Waiting?)
    && (!s.output.producer.Resting? ==>
          s.engine.Publishing? && s.engine.pending != [] && s.output.producer.value == s.engine.pending[0])
    && InHand(s) <= |s.input.popped|
    && (InHand(s) == 1 ==> s.engine.request == s.input.popped[|s.input.popped| - 1])
  }

  /** Book, journal and published responses are what sequential processing gives. */
  ghost predicate Sequential(c: Config, runner: Runner, b: Book, s: System)
    requires ValidConfig(c) && Sized(c, b)
  {
    var taken := |s.input.popped|;
    && InHand(s) <= taken
    && var processed := s.input.popped[..taken - InHand(s)];
       var journalled := s.input.popped[..taken - Unjournalled(s)];
       && s.journal == Commands(runner, b.last, journalled)
       && s.next == Advance(b.last, |journalled| + 1)
       && s.book == Run(c, b, Commands(runner, b.last, processed)).book
       && (s.engine.Processing? ==> s.engine.command == Numbered(runner, Advance(b.last, taken), s.engine.request))
       && s.output.pushed + Unsent(s) == Expected(c, runner, b, processed)
  }

  ghost predicate Invariant(c: Config, runner: Runner, b: Book, s: System) {
    ValidConfig(c) && Sized(c, b) && WellSized(c, s) && Steady(s) && Sequential(c, runner, b, s)
  }

  lemma {:induction false} SubmitKeeps(c: Config, runner: Runner, b: Book, s: System, r: Request)
    requires Invariant(c, runner, b, s)
    ensures Invariant(c, runner, b, Step(c, runner, s, Submit(r)))
  {
    hide Spsc.Safe, Commands, Expected, Run;
    Spsc.ProduceKeeps(s.input, r);
  }

  lemma {:induction false} DeliverKeeps(c: Config, runner: Runner, b: Book, s: System)
    requires Invariant(c, runner, b, s)
    ensures Invariant(c, runner, b, Step(c, runner, s, Deliver))
  {
    hide Spsc.Safe, Commands, Expected, Run;
    Spsc.ConsumeKeeps(s.output);
  }

  lemma {:induction false} ConsumeShape<T>(s: Spsc.State<T>)
    requires Spsc.WellSized(s)
    ensures var t := Spsc.Consume(s);
            if s.consumer.Taken? then t.popped == s.popped + [s.consumer.value] && t.consumer.Waiting?
            else t.popped == s.popped
  {}

  lemma {:induction false} PopKeeps(c: Config, runner: Runner, b: Book, s: System)
    requires Invariant(c, runner, b, s) && s.engine.Popping?
    ensures Steady(PopStep(s)) && Sequential(c, runner, b, PopStep(s))
  {
    hide Spsc.Safe, Spsc.WellSized, Spsc.Consume, Commands, Expected, Run, Sized, Advance, Numbered;
    Spsc.ConsumeKeeps(s.input);
    ConsumeShape(s.input);
    var t := PopStep(s);
    if |t.input.popped| > |s.input.popped| {
      assert t.input.popped[..|t.input.popped| - 1] == s.input.popped[..|s.input.popped|];
    } else {
      assert t.input.popped[..|t.input.popped|] == s.input.popped[..|s.input.popped|];
    }
  }

  lemma {:induction false} PushKeeps(c: Config, runner: Runner, b: Book, s: System)
    requires Invariant(c, runner, b, s) && s.engine.Publishing? && s.engine.pending != []
    ensures Steady(PushStep(s, s.engine.pending)) && Sequential(c, runner, b, PushStep(s, s.engine.pending))
  {
    hide Spsc.Safe, Commands, Expected, Run, Sized, Advance;
    var pending := s.engine.pending;
    Spsc.ProduceKeeps(s.output, pending[0]);
    var t := PushStep(s, pending);
    if |t.output.pushed| > |s.output.pushed| {
      assert t.output.pushed == s.output.pushed + [pending[0]];
      assert s.output.pushed + pending == t.output.pushed + pending[1..];
    }
  }

  lemma {:induction false} JournalKeeps(c: Config, runner: Runner, b: Book, s: System)
    requires Invariant(c, runner, b, s) && s.engine.Journalling?
    ensures Steady(EngineStep(c, runner, s)) && Sequential(c, runner, b, EngineStep(c, runner, s))
  {
    hide Spsc.Safe, Expected, Run, Sized, Process, Next;
    var rs := s.input.popped;
    assert rs[..|rs|] == rs;
  }

  /** The sequential meaning, one request longer. */
  lemma {:induction false} OneMore(c: Config, runner: Runner, b: Book, rs: seq<Request>)
    requires ValidConfig(c) && Sized(c, b) && rs != []
    ensures var front, r := rs[..|rs| - 1], rs[|rs| - 1];
            var m, t := Numbered(runner, Advance(b.last, |rs|), r), Run(c, b, Commands(runner, b.last, front)).book;
            && Run(c, b, Commands(runner, b.last, rs)).book == Process(c, t, m).book
            && Expected(c, runner, b, rs) == Expected(c, runner, b, front) + Tagged(r, Process(c, t, m).events)
  {
    hide Process, Sized, Numbered, Advance;
    var ms := Commands(runner, b.last, rs);
    assert ms[..|ms| - 1] == Commands(runner, b.last, rs[..|rs| - 1]);
  }

  lemma {:induction false} ProcessKeepsSequential(c: Config, runner: Runner, b: Book, s: System)
    requires Invariant(c, runner, b, s) && s.engine.Processing?
    ensures Steady(EngineStep(c, runner, s)) && Sequential(c, runner, b, EngineStep(c, runner, s))
  {
    hide Spsc.Safe, Spsc.WellSized, Sized, Process, Next, Advance, Commands, Expected, Run, Numbered;
    var rs := s.input.popped;
    OneMore(c, runner, b, rs);
    assert rs[..|rs|] == rs && s.output.pushed + [] == s.output.pushed;
  }

  lemma {:induction false} EngineKeeps(c: Config, runner: Runner, b: Book, s: System)
    requires Invariant(c, runner, b, s)
    ensures Invariant(c, runner, b, Step(c, runner, s, Engine))
  {
    hide Spsc.Safe, Spsc.WellSized, Commands, Expected, Run, Process, Sized, Next, Advance, PopStep, PushStep;
    match s.engine
    case Popping => PopKeeps(c, runner, b, s);
    case Journalling(_) => JournalKeeps(c, runner, b, s);
    case Processing(_, _) => ProcessKeepsSequential(c, runner, b, s);
    case Publishing(pending) => if pending != [] { PushKeeps(c, runner, b, s); }
    case _ =>
  }

  lemma {:induction false} ExecutionKeeps(c: Config, runner: Runner, s: System, moves: seq<Move>)
    requires Initial(c, s)
    ensures WellSized(c, s) && Invariant(c, runner, s.book, Execution(c, runner, s, moves))
  {
    hide Sized, Spsc.Safe, Spsc.WellSized, Next, Sequential, Steady, Step;
    InitialHolds(c, runner, s);
    if moves != [] {
      var t := Execution(c, runner, s, moves[..|moves| - 1]);
      ExecutionKeeps(c, runner, s, moves[..|moves| - 1]);
      match moves[|moves| - 1]
      case Submit(r) => SubmitKeeps(c, runner, s.book, t, r);
      case Engine => EngineKeeps(c, runner, s.book, t);
      case Deliver => DeliverKeeps(c, runner, s.book, t);
      case Stop => StopKeeps(c, runner, s.book, t);
    }
  }

  lemma {:induction false} StopKeeps(c: Config, runner: Runner, b: Book, s: System)
    requires Invariant(c, runner, b, s)
    ensures Invariant(c, runner, b, Step(c, runner, s, Stop))
  {
    hide Sized, Spsc.Safe, Spsc.WellSized, Next, Commands, Expected, Run;
  }

  lemma {:induction false} InitialHolds(c: Config, runner: Runner, s: System)
    requires Initial(c, s)
    ensures WellSized(c, s) && Invariant(c, runner, s.book, s)
  {
    hide Sized, Process, Next;
    Spsc.ScheduleSafe(s.input, []);
    Spsc.ScheduleSafe(s.output, []);
    assert s.input.popped[..0] == [] && s.output.pushed + [] == [];
    assert Advance(s.book.last, 1) == Next(Advance(s.book.last, 0));
  }

  // ---- what every interleaving gives ---------------------------------------------------------

  /** The journalled commands the book has applied: all but one in hand. */
  function Applied(s: System): seq<Command> {
    if s.engine.Processing? && s.journal != [] then s.journal[..|s.journal| - 1] else s.journal
  }

  lemma {:induction false} InvariantOrders(c: Config, runner: Runner, b: Book, t: System)
    requires Invariant(c, runner, b, t)
    ensures t.output.popped <= t.output.pushed <= Expected(c, runner, b, t.input.pushed)
    ensures t.journal <= Commands(runner, b.last, t.input.pushed)
  {
    hide Run, Sized, Expected, Commands, Numbered, Advance, Spsc.WellSized, Spsc.Informed;
    var rs, n := t.input.pushed, |t.input.popped|;
    var journalled, processed := t.input.popped[..n - Unjournalled(t)], t.input.popped[..n - InHand(t)];
    assert journalled == rs[..|journalled|] && processed == rs[..|processed|];
    ExpectedGrows(c, runner, b, rs, |processed|);
    CommandsGrow(runner, b.last, rs, |journalled|);
  }

  lemma {:induction false} InvariantReplays(c: Config, runner: Runner, b: Book, t: System)
    requires Invariant(c, runner, b, t)
    ensures t.book == Run(c, b, Applied(t)).book
  {
    hide Run, Sized, Expected, Numbered, Advance, Spsc.Safe, Spsc.WellSized;
    var rs, n := t.input.popped, |t.input.popped|;
    var journalled := rs[..n - Unjournalled(t)];
    assert journalled[..n - InHand(t)] == rs[..n - InHand(t)];
    CommandsGrow(runner, b.last, journalled, n - InHand(t));
  }

  lemma {:induction false} InvariantLosesNothing(c: Config, runner: Runner, b: Book, t: System)
    requires Invariant(c, runner, b, t)
    ensures t.engine.Polling? || t.engine.Stopped? ==>
              t.output.pushed + Unsent(t) == Expected(c, runner, b, t.input.popped)
    ensures t.output.pushed == t.output.popped + Spsc.Ring(t.output.buffer, t.output.head, t.output.tail)
  {
    hide Run, Sized, Expected, Commands, Numbered, Advance, Spsc.Safe, Spsc.WellSized, Spsc.Ring;
    Spsc.RingHoldsTheRest(t.output);
    var rs := t.input.popped;
    assert rs[..|rs|] == rs;
  }

  /**
   Every interleaving of the three threads: the responses popped so far are a prefix of processing
   the pushed requests one after the other, the journal is written ahead of the book by at most the
   command in hand, and the book is the journal's replay.
   */
  lemma {:induction false} PipelineTheorem(c: Config, runner: Runner, s: System, moves: seq<Move>)
    requires Initial(c, s)
    ensures WellSized(c, s)
    ensures var t := Execution(c, runner, s, moves);
            && t.output.popped <= t.output.pushed <= Expected(c, runner, s.book, t.input.pushed)
            && t.journal <= Commands(runner, s.book.last, t.input.pushed)
            && t.book == Run(c, s.book, Applied(t)).book
  {
    hide Run, Sized, Expected, Commands, Execution, Steady, Sequential, Applied;
    ExecutionKeeps(c, runner, s, moves);
    InvariantOrders(c, runner, s.book, Execution(c, runner, s, moves));
    InvariantReplays(c, runner, s.book, Execution(c, runner, s, moves));
  }

  /**
   Nothing is lost: once a running engine has drained its input, every response has been delivered
   or waits in the ring; an engine told to stop keeps back exactly what it had not yet published.
   */
  lemma {:induction false} NothingLost(c: Config, runner: Runner, s: System, moves: seq<Move>)
    requires Initial(c, s)
    ensures WellSized(c, s)
    ensures var t := Execution(c, runner, s, moves);
            && (t.engine.Polling? && t.input.popped == t.input.pushed ==>
                  t.output.popped + Spsc.Ring(t.output.buffer, t.output.head, t.output.tail)
                  == Expected(c, runner, s.book, t.input.pushed))
            && (t.engine.Stopped? ==>
                  t.output.pushed + t.engine.unsent == Expected(c, runner, s.book, t.input.popped))
  {
    hide Run, Sized, Expected, Commands, Execution, Steady, Sequential, Spsc.Ring;
    var t := Execution(c, runner, s, moves);
    ExecutionKeeps(c, runner, s, moves);
    InvariantLosesNothing(c, runner, s.book, t);
    assert t.output.pushed + [] == t.output.pushed;
  }

  /** Behind the gateway no response ever reports a sequence gap. */
  lemma {:induction false} GatewayNeverGaps(c: Config, s: System, moves: seq<Move>)
    requires Initial(c, s) && Sound(c, s.book)
    ensures WellSized(c, s)
    ensures var t := Execution(c, GatewayEngineRunner, s, moves);
            && forall k | 0 <= k < |t.output.pushed| :: t.output.pushed[k].event.reason != SequenceGap
  {
    hide Run, Sized, Expected, Commands, Sound, Execution;
    var t := Execution(c, GatewayEngineRunner, s, moves);
    PipelineTheorem(c, GatewayEngineRunner, s, moves);
    NumberingKeepsPace(c, s.book, t.input.pushed);
    var es := Expected(c, GatewayEngineRunner, s.book, t.input.pushed);
    forall k | 0 <= k < |t.output.pushed| ensures t.output.pushed[k].event.reason != SequenceGap {
      assert t.output.pushed[k] == es[k];
    }
  }

  // ---- from request to response --------------------------------------------------------------

  /** The k-th command is the k-th request's, numbered on from `last` by the gateway's runner. */
  predicate Requested(runner: Runner, last: u64, k: nat, r: Request, m: Command) {
    && m.kind == r.command.kind && m.side == r.command.side && m.orderType == r.command.orderType
    && m.orderId == r.command.orderId && m.price == r.command.price && m.quantity == r.command.quantity
    && m.sequence == match runner
                     case GatewayEngineRunner => (last + 1 + k) % 0x1_0000_0000_0000_0000
                     case EngineRunner => r.command.sequence
  }

  /** The j-th response overall is one of the k-th command's events, sent to whoever made that request. */
  ghost predicate Serves(c: Config, b: Book, ms: seq<Command>, rs: seq<Request>, k: int, j: nat, w: Response)
    requires ValidConfig(c) && Sized(c, b)
  {
    && 0 <= k < |ms| && k < |rs| && w.session == rs[k].session && w.clientSequence == rs[k].clientSequence
    && var before := Run(c, b, ms[..k]);
       var es, first := Process(c, before.book, ms[k]).events, |before.events|;
       first <= j < first + |es| && w.event == es[j - first]
  }

  /** Some command's event; on a sound book it carries that command's sequence and the requested id. */
  ghost predicate Traced(c: Config, b: Book, ms: seq<Command>, rs: seq<Request>, j: nat, w: Response)
    requires ValidConfig(c) && Sized(c, b)
  {
    exists k ::
      && Serves(c, b, ms, rs, k, j, w)
      && (Sound(c, b) ==> w.event.sequence == ms[k].sequence && w.event.orderId == rs[k].command.orderId)
  }

  lemma {:induction false} CommandsRequested(runner: Runner, last: u64, rs: seq<Request>, k: nat)
    requires k < |rs|
    ensures Requested(runner, last, k, rs[k], Commands(runner, last, rs)[k])
  {
    if k < |rs| - 1 { CommandsRequested(runner, last, rs[..|rs| - 1], k); } else { AdvanceWraps(last, |rs|); }
  }

  lemma {:induction false} ExpectedServes(c: Config, runner: Runner, b: Book, rs: seq<Request>, j: nat) returns (k: nat)
    requires ValidConfig(c) && Sized(c, b) && j < |Expected(c, runner, b, rs)|
    ensures Serves(c, b, Commands(runner, b.last, rs), rs, k, j, Expected(c, runner, b, rs)[j])
  {
    hide Process, Sized, Numbered, Advance, Run, Serves;
    var front, ms := rs[..|rs| - 1], Commands(runner, b.last, rs);
    assert ms[..|ms| - 1] == Commands(runner, b.last, front);
    if j < |Expected(c, runner, b, front)| {
      k := ExpectedServes(c, runner, b, front, j);
      ServesLater(c, b, ms, rs, |rs| - 1, k, j, Expected(c, runner, b, rs)[j]);
    } else {
      k := |rs| - 1;
      LastServes(c, runner, b, rs, j);
    }
  }

  lemma {:induction false} LastServes(c: Config, runner: Runner, b: Book, rs: seq<Request>, j: nat)
    requires ValidConfig(c) && Sized(c, b) && rs != []
    requires |Expected(c, runner, b, rs[..|rs| - 1])| <= j < |Expected(c, runner, b, rs)|
    ensures Serves(c, b, Commands(runner, b.last, rs), rs, |rs| - 1, j, Expected(c, runner, b, rs)[j])
  {
    hide Process, Sized, Numbered, Advance, Run;
    var front, ms := rs[..|rs| - 1], Commands(runner, b.last, rs);
    assert ms[..|ms| - 1] == Commands(runner, b.last, front);
    ExpectedIsRun(c, runner, b, front);
  }

  /** More commands and more requests leave the served ones alone. */
  lemma {:induction false} ServesLater(c: Config, b: Book, ms: seq<Command>, rs: seq<Request>, n: nat, k: int, j: nat,
                                       w: Response)
    requires ValidConfig(c) && Sized(c, b) && n <= |ms| && n <= |rs|
    requires Serves(c, b, ms[..n], rs[..n], k, j, w)
    ensures Serves(c, b, ms, rs, k, j, w)
  {
    hide Run, Process, Sized;
    assert ms[..n][..k] == ms[..k];
  }

  /**
   Every interleaving, both runners: each journalled command is its request's own, in the order of
   the requests, and each response goes to the session and client sequence whose command it answers,
   in the order the commands give them.
   */
  lemma {:induction false} EveryResponseTraced(c: Config, runner: Runner, s: System, moves: seq<Move>)
    requires Initial(c, s)
    ensures WellSized(c, s)
    ensures var t := Execution(c, runner, s, moves);
            var ms, rs, ws := t.journal, t.input.pushed, t.output.popped;
            && |ms| <= |rs| && (forall k | 0 <= k < |ms| :: Requested(runner, s.book.last, k, rs[k], ms[k]))
            && (forall j | 0 <= j < |ws| :: Traced(c, s.book, ms, rs, j, ws[j]))
  {
    hide Run, Sized, Expected, Execution, Steady, Sequential, Requested, Serves, Sound, Traced;
    PipelineTheorem(c, runner, s, moves);
    ExecutionKeeps(c, runner, s, moves);
    var t, last := Execution(c, runner, s, moves), s.book.last;
    var ms, rs, ws := t.journal, t.input.pushed, t.output.popped;
    forall k | 0 <= k < |ms| ensures Requested(runner, last, k, rs[k], ms[k]) {
      CommandsRequested(runner, last, rs, k);
    }
    forall j | 0 <= j < |ws| ensures Traced(c, s.book, ms, rs, j, ws[j]) {
      var k := PoppedServes(c, runner, s.book, t, j);
      ServedIsTraced(c, runner, s.book, ms, rs, k, j, ws[j]);
    }
  }

  lemma {:induction false} ServedIsTraced(c: Config, runner: Runner, b: Book, ms: seq<Command>, rs: seq<Request>,
                                          k: int, j: nat, w: Response)
    requires ValidConfig(c) && Sized(c, b) && |ms| <= |rs| && Serves(c, b, ms, rs, k, j, w)
    requires forall k | 0 <= k < |ms| :: Requested(runner, b.last, k, rs[k], ms[k])
    ensures Traced(c, b, ms, rs, j, w)
  {
    hide Run, Process, Sound, Sized, Requested;
    RequestedId(runner, b.last, k, rs[k], ms[k]);
    if Sound(c, b) { ServesAbout(c, b, ms, rs, k, j, w); }
  }

  lemma {:induction false} RequestedId(runner: Runner, last: u64, k: nat, r: Request, m: Command)
    requires Requested(runner, last, k, r, m)
    ensures m.orderId == r.command.orderId
  {}

  lemma {:induction false} ServesAbout(c: Config, b: Book, ms: seq<Command>, rs: seq<Request>, k: int, j: nat,
                                       w: Response)
    requires Sound(c, b) && ValidConfig(c) && Sized(c, b) && Serves(c, b, ms, rs, k, j, w)
    ensures 0 <= k < |ms| && k < |rs| && w.event.sequence == ms[k].sequence && w.event.orderId == ms[k].orderId
  {
    hide Run, Process, Sound, Sized, ResponseShape;
    RunTheorem(c, b, ms[..k]);
    ResponseTheorem(c, Run(c, b, ms[..k]).book, ms[k]);
  }

  lemma {:induction false} PoppedServes(c: Config, runner: Runner, b: Book, t: System, j: nat) returns (k: nat)
    requires Invariant(c, runner, b, t) && j < |t.output.popped|
    ensures Serves(c, b, t.journal, t.input.pushed, k, j, t.output.popped[j])
  {
    hide Run, Sized, Expected, Commands, Numbered, Advance, Serves, Spsc.WellSized, Spsc.Informed;
    var rs, n := t.input.pushed, |t.input.popped|;
    var journalled, processed := t.input.popped[..n - Unjournalled(t)], t.input.popped[..n - InHand(t)];
    assert processed == rs[..|processed|] == journalled[..|processed|];
    CommandsGrow(runner, b.last, journalled, |processed|);
    var es := Expected(c, runner, b, processed);
    assert t.output.popped[j] == t.output.pushed[j] == es[j];
    k := ExpectedServes(c, runner, b, processed, j);
    ServesLater(c, b, t.journal, rs, |processed|, k, j, es[j]);
  }

  // ---- stopping ------------------------------------------------------------------------------

  /** Requests the engine may still take once stop is set: one, if it is past the check. */
  function Grace(s: System): nat {
    if s.engine.Popping? then 1 else 0
  }

  lemma {:induction false} StopStep(c: Config, runner: Runner, s: System, move: Move)
    requires WellSized(c, s) && s.stop
    ensures var t := Step(c, runner, s, move);
            t.stop && |t.input.popped| + Grace(t) <= |s.input.popped| + Grace(s)
  {
    hide Sized, Process;
    ConsumeShape(s.input);
  }

  /** After stop is set at most the pop already under way succeeds; nothing more is taken or processed. */
  lemma {:induction false} StopIsHeeded(c: Config, runner: Runner, s: System, moves: seq<Move>)
    requires WellSized(c, s) && s.stop
    ensures var t := Execution(c, runner, s, moves);
            t.stop && |t.input.popped| + Grace(t) <= |s.input.popped| + Grace(s)
  {
    hide Sized, Step, Spsc.WellSized;
    if moves != [] {
      StopIsHeeded(c, runner, s, moves[..|moves| - 1]);
      StopStep(c, runner, Execution(c, runner, s, moves[..|moves| - 1]), moves[|moves| - 1]);
    }
  }

  // ---- shutting down -------------------------------------------------------------------------

  lemma {:induction false} ExecutionLength(es: seq<Event>)
    requires ExecutionShape(es)
    ensures |es| <= CountKind(es, Trade) + 1
  {
    hide CountKind;
    if AllTrades(es) {
      CountAllTrades(es);
    } else {
      var front := es[..|es| - 1];
      CountAllTrades(front);
      assert es == front + [es[|es| - 1]];
      CountOneMore(front, es[|es| - 1]);
    }
  }

  /** A response is one leading event, its trades, and at most one remainder. */
  lemma {:induction false} ResponseLength(es: seq<Event>)
    requires ResponseShape(es)
    ensures |es| <= CountKind(es, Trade) + 2
  {
    hide CountKind, ExecutionShape;
    if es[0].kind in {Accepted, Replaced} {
      assert es == [es[0]] + es[1..];
      CountKindConcat([es[0]], es[1..], Trade);
      ExecutionLength(es[1..]);
    }
  }

  lemma {:induction false} FewEvents(c: Config, b: Book, m: Command)
    requires Sound(c, b)
    ensures Sized(c, b) && |Process(c, b, m).events| <= Resting(b) + 3
  {
    hide Process, Positive, UniqueIds, Resting, ResponseShape, CountKind;
    ResponseTheorem(c, b, m);
    ResponseLength(Process(c, b, m).events);
    ProcessAmortised(c, b, m);
  }

  /** Accesses the engine has left in the pop or the push under way. */
  function PopLeft(s: Spsc.State<Request>): nat {
    match s.consumer case Waiting => 4 case HeadLoaded(_) => 3 case HasItem(_) => 2 case Taken(_, _) => 1
  }

  function PushLeft(s: Spsc.State<Response>): nat {
    match s.producer case Resting => 4 case TailLoaded(_, _) => 3 case HasRoom(_, _) => 2 case Written(_, _) => 1
  }

  /** How many steps an engine told to stop can still take. */
  ghost function Fuse(s: System): nat {
    var answering := 4 * (Resting(s.book) + 3) + 3;
    match s.engine
    case Polling => 1
    case Popping => PopLeft(s.input) + answering + 1
    case Journalling(_) => answering + 1
    case Processing(_, _) => answering
    case Publishing(pending) => if pending == [] then 2 else 4 * |pending| - 2 + PushLeft(s.output)
    case Refused(_) => 1
    case Stopped(_) => 0
  }

  lemma {:induction false} PopBurns(s: System)
    requires Spsc.WellSized(s.input) && s.engine.Popping?
    ensures var t := PopStep(s); t.book == s.book && t.stop == s.stop && Fuse(t) < Fuse(s)
  {
    hide Resting, Spsc.After;
  }

  lemma {:induction false} PushBurns(s: System)
    requires Spsc.WellSized(s.output) && s.engine.Publishing? && s.engine.pending != []
    ensures var t := PushStep(s, s.engine.pending); t.book == s.book && t.stop == s.stop && Fuse(t) < Fuse(s)
  {
    hide Resting, Spsc.After;
  }

  lemma {:induction false} OthersKeepFuse(c: Config, runner: Runner, s: System, move: Move)
    requires WellSized(c, s) && !move.Engine?
    ensures var t := Step(c, runner, s, move); t.book == s.book && (s.stop ==> t.stop) && Fuse(t) == Fuse(s)
  {
    hide Sized, Process, Resting, Spsc.After;
  }

  lemma {:induction false} ProcessingBurns(c: Config, runner: Runner, s: System)
    requires WellSized(c, s) && Sound(c, s.book) && s.engine.Processing?
    ensures var t := EngineStep(c, runner, s); t.stop == s.stop && Sound(c, t.book) && Fuse(t) < Fuse(s)
  {
    hide Sized, Process, Sound, Resting;
    FewEvents(c, s.book, s.engine.command);
    ProcessKeeps(c, s.book, s.engine.command);
  }

  /** The engine's steps burn the fuse; nobody else's feed it. */
  lemma {:induction false} FuseBurns(c: Config, runner: Runner, s: System, move: Move)
    requires WellSized(c, s) && s.stop && Sound(c, s.book)
    ensures var t := Step(c, runner, s, move);
            && t.stop && Sound(c, t.book) && Fuse(t) <= Fuse(s)
            && (move.Engine? && !s.engine.Stopped? ==> Fuse(t) < Fuse(s))
  {
    hide Sized, Process, Sound, Resting, PopStep, PushStep, PopLeft, PushLeft, Spsc.Produce, Spsc.Consume;
    if !move.Engine? {
      OthersKeepFuse(c, runner, s, move);
    } else {
      match s.engine
      case Popping => PopBurns(s);
      case Processing(_, _) => ProcessingBurns(c, runner, s);
      case Publishing(pending) => if pending != [] { PushBurns(s); }
      case _ =>
    }
  }

  function EngineMoves(moves: seq<Move>): nat {
    if moves == [] then 0
    else EngineMoves(moves[..|moves| - 1]) + if moves[|moves| - 1].Engine? then 1 else 0
  }

  /**
   Told to stop, the engine does: after so many of its own steps it has returned, whatever the
   other threads do and however full the output ring stays.
   */
  lemma {:induction false} StopEnds(c: Config, runner: Runner, s: System, moves: seq<Move>)
    requires WellSized(c, s) && s.stop && Sound(c, s.book)
    ensures var t := Execution(c, runner, s, moves);
            && t.stop && Sound(c, t.book)
            && (t.engine.Stopped? || Fuse(t) + EngineMoves(moves) <= Fuse(s))
            && (EngineMoves(moves) >= Fuse(s) ==> t.engine.Stopped?)
  {
    hide Sized, Step, Sound, Spsc.WellSized;
    if moves != [] {
      var front, m := moves[..|moves| - 1], moves[|moves| - 1];
      StopEnds(c, runner, s, front);
      var u := Execution(c, runner, s, front);
      FuseBurns(c, runner, u, m);
      StoppedStays(c, runner, u, m);
    }
    FuseLit(Execution(c, runner, s, moves));
  }

  lemma {:induction false} FuseLit(s: System)
    ensures Fuse(s) == 0 <==> s.engine.Stopped?
  {}

  lemma {:induction false} StoppedStays(c: Config, runner: Runner, s: System, move: Move)
    requires WellSized(c, s)
    ensures s.engine.Stopped? ==> Step(c, runner, s, move).engine.Stopped?
  {}
}
