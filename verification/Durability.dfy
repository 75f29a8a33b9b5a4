/** The runner's own journal, cut anywhere, over any snapshot the runner could have written. */
module Durability {
  import opened Types
  import opened Ladder
  import opened Invariants
  import opened Recovery
  import opened Journal
  import opened Pipeline

  /** The gateway runner's numbering counts up from the book it started on. */
  lemma {:induction false} CommandsConsecutive(last: u64, rs: seq<Request>)
    requires last + |rs| < TWO64
    ensures Consecutive(Commands(GatewayEngineRunner, last, rs), last)
  {
    if rs != [] {
      CommandsConsecutive(last, rs[..|rs| - 1]);
      AdvanceWraps(last, |rs|);
    }
  }

  lemma {:induction false} PrefixConsecutive(ms: seq<Command>, n: nat, last: u64)
    requires Consecutive(ms, last) && n <= |ms|
    ensures Consecutive(ms[..n], last)
  {}

  /** The journal only grows, and the book never forgets an applied command. */
  lemma {:induction false} StepGrows(c: Config, runner: Runner, s: System, move: Move)
    requires WellSized(c, s) && (s.engine.Processing? ==> s.journal != [])
    ensures var t := Step(c, runner, s, move);
            s.journal <= t.journal && Applied(s) <= Applied(t) && (t.engine.Processing? ==> t.journal != [])
  {
    hide Sized, Process, Spsc.WellSized, Spsc.Produce, Spsc.Consume;
  }

  lemma {:induction false} ExecutionGrows(c: Config, runner: Runner, s: System, moves: seq<Move>, j: nat)
    requires Initial(c, s) && WellSized(c, s) && j <= |moves|
    ensures var t, u := Execution(c, runner, s, moves), Execution(c, runner, s, moves[..j]);
            Applied(u) <= Applied(t) <= t.journal && (t.engine.Processing? ==> t.journal != [])
  {
    hide Sized, Step, Spsc.WellSized, Spsc.Initial;
    if j < |moves| {
      var front := moves[..|moves| - 1];
      ExecutionGrows(c, runner, s, front, j);
      assert front[..j] == moves[..j];
      StepGrows(c, runner, Execution(c, runner, s, front), moves[|moves| - 1]);
    } else {
      assert moves[..j] == moves;
      if moves != [] {
        var front := moves[..|moves| - 1];
        ExecutionGrows(c, runner, s, front, |front|);
        StepGrows(c, runner, Execution(c, runner, s, front), moves[|moves| - 1]);
      }
    }
  }

  /**
   Crash of a running gateway. Under every interleaving, take the book of any moment j as the
   snapshot and cut the journal at any byte not before that moment: the snapshot restores, what
   survives of the journal replays, and the result is the book after the surviving commands. If
   nothing was cut and no command was in hand, it is the live book.
   */
  lemma {:induction false} RunnerRecovers(f: Format, c: Config, s: System, moves: seq<Move>, j: nat, n: nat)
    requires Faithful(f) && Initial(c, s) && WellSized(c, s) && Sound(c, s.book) && Dated(s.book) && j <= |moves|
    requires var t, u := Execution(c, GatewayEngineRunner, s, moves), Execution(c, GatewayEngineRunner, s, moves[..j]);
             && s.book.last + |t.input.pushed| < TWO64
             && HEADER_SIZE <= n <= |File(f, t.journal)|
             && |Applied(u)| <= Wholes(n - HEADER_SIZE, RecordSize(f))
    ensures var t, u := Execution(c, GatewayEngineRunner, s, moves), Execution(c, GatewayEngineRunner, s, moves[..j]);
            var k := Wholes(n - HEADER_SIZE, RecordSize(f));
            && k <= |t.journal|
            && Restore(c, u.book.last, RestingList(c, u.book)) == Restored(u.book, true)
            && Replay(f, File(f, t.journal)[..n]).Some?
            && Replay(f, File(f, t.journal)[..n]).value.commands == t.journal[..k]
            && Run(c, u.book, t.journal[..k]).book == Run(c, s.book, t.journal[..k]).book
            && (n == |File(f, t.journal)| && !t.engine.Processing? ==> Run(c, u.book, t.journal[..k]).book == t.book)
  {
    hide Replay, File, Log, Run, Restore, RestingList, Sound, Dated, Execution, Commands, Expected, Sized;
    var g := GatewayEngineRunner;
    var b, t, u := s.book, Execution(c, g, s, moves), Execution(c, g, s, moves[..j]);
    PipelineTheorem(c, g, s, moves);
    PipelineTheorem(c, g, s, moves[..j]);
    ExecutionGrows(c, g, s, moves, j);
    var all := Commands(g, b.last, t.input.pushed);
    CommandsConsecutive(b.last, t.input.pushed);
    assert t.journal == all[..|t.journal|];
    PrefixConsecutive(all, |t.journal|, b.last);
    assert t.journal[..|Applied(u)|] == Applied(u);
    CrashRecovery(f, c, b, t.journal, n, |Applied(u)|);
    if n == |File(f, t.journal)| {
      WholeReplay(f, t.journal);
      assert File(f, t.journal)[..n] == File(f, t.journal);
    }
  }
}
