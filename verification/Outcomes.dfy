/** The exit code of a child process and the signals sent to it, told from what the system reported
    round by round. */
module Outcomes {
  import opened Wrappers
  import opened Supervision
  import opened Causes

  // ---- the exit code

  /** In this round, which the loop runs, the child is found to have ended. */
  predicate ReapsFirst(rounds: seq<Round>, i: nat) {
    Executed(rounds, i) && !ChildReaped(rounds, i) && Reaps(rounds[i])
  }

  ghost predicate CodeFits(rounds: seq<Round>, n: nat, s: State)
    requires n <= |rounds|
  {
    && (forall i, code :: 0 <= i < n && ReapsFirst(rounds, i) && rounds[i].wait == Ended(code) ==> s.exitCode == code && s.signal == 0)
    && (forall i, number :: 0 <= i < n && ReapsFirst(rounds, i) && rounds[i].wait == Killed(number) ==>
          s.exitCode == 128 + number && s.signal == number)
    && (forall i :: 0 <= i < n && ReapsFirst(rounds, i) && !rounds[i].wait.Ended? && !rounds[i].wait.Killed? ==>
          s.exitCode == -1 && s.signal == 0)
    && ((forall i :: 0 <= i < n ==> !ReapsFirst(rounds, i)) ==> s.exitCode == -1 && s.signal == 0)
  }

  lemma WaitedCode(s: State, e: Round)
    ensures var t := Waited(s, e);
            && t.exitCode == (if s.reaped then s.exitCode else match e.wait case Ended(code) => code case Killed(n) => 128 + n case _ => s.exitCode)
            && t.signal == (if s.reaped then s.signal else match e.wait case Killed(n) => n case _ => s.signal)
  {
    hide Request;
    RequestKeepsCode(s.(failed := true), Cancelled, e.later);
  }

  lemma RequestKeepsCode(s: State, reason: Termination, at: int)
    ensures Request(s, reason, at).exitCode == s.exitCode && Request(s, reason, at).signal == s.signal
  {
  }

  predicate SameEnd(s: State, t: State) {
    t.exitCode == s.exitCode && t.signal == s.signal && t.reaped == s.reaped
  }

  lemma ReadsKeepEnd(o: Options, s: State, r: Ready, at: int)
    ensures SameEnd(s, ReadOutput(o, s, r, at)) && SameEnd(s, ReadError(o, s, r))
  {
    hide Keep;
  }

  lemma PipesKeepEnd(o: Options, s: State, e: Round)
    ensures SameEnd(s, Pipes(o, s, e))
  {
    hide ReadOutput, ReadError;
    if e.poll.Polled? {
      ReadsKeepEnd(o, s, e.poll.output, e.later);
      ReadsKeepEnd(o, ReadOutput(o, s, e.poll.output, e.later), e.poll.error, e.later);
    }
  }

  lemma DeadlinesKeepEnd(o: Options, s: State, e: Round)
    ensures SameEnd(s, Deadlines(o, s, e))
  {
  }

  lemma StepCode(o: Options, s: State, e: Round)
    ensures var t := Step(o, s, e);
            if !s.reaped && Reaps(e) && e.wait.Ended? then t.exitCode == e.wait.code && t.signal == s.signal
            else if !s.reaped && Reaps(e) && e.wait.Killed? then t.exitCode == 128 + e.wait.number && t.signal == e.wait.number
            else t.exitCode == s.exitCode && t.signal == s.signal
  {
    hide Deadlines, Pipes, Waited;
    DeadlinesKeepEnd(o, s, e);
    PipesKeepEnd(o, Deadlines(o, s, e), e);
    WaitedCode(Pipes(o, Deadlines(o, s, e), e), e);
  }

  lemma OneReap(rounds: seq<Round>, i: nat, j: nat)
    requires i < j && ReapsFirst(rounds, i)
    ensures !ReapsFirst(rounds, j)
  {
    hide OutputClosed, ErrorClosed, Reaps;
    if j < |rounds| { assert ChildReaped(rounds, j); }
  }

  lemma CodeNext(o: Options, rounds: seq<Round>, n: nat, s: State)
    requires n < |rounds| && Tracks(o, rounds, n, s) && CodeFits(rounds, n, s)
    ensures CodeFits(rounds, n + 1, if Done(s) then s else Step(o, s, rounds[n]))
  {
    hide Tracks, Step, Reaps, Executed, ChildReaped;
    StepTracks(o, rounds, n, s);
    ReapedTold(o, rounds, n, s);
    StepCode(o, s, rounds[n]);
    forall i | 0 <= i < n && ReapsFirst(rounds, i) ensures !ReapsFirst(rounds, n) { OneReap(rounds, i, n); }
    if ReapsFirst(rounds, n) {
      forall i | 0 <= i < n ensures !ReapsFirst(rounds, i) {
        if ReapsFirst(rounds, i) { OneReap(rounds, i, n); }
      }
    }
  }

  lemma ReapedTold(o: Options, rounds: seq<Round>, n: nat, s: State)
    requires n <= |rounds| && Tracks(o, rounds, n, s)
    ensures s.reaped <==> ChildReaped(rounds, n)
  {
    hide ChildReaped, OutputClosed, ErrorClosed;
  }

  lemma {:induction false} RunCode(o: Options, rounds: seq<Round>, n: nat)
    requires n <= |rounds| && forall i :: 0 <= i < |rounds| ==> Plausible(rounds[i])
    ensures CodeFits(rounds, n, Run(o, rounds[..n]))
  {
    hide Step, Plausible, CodeFits, Tracks;
    if n > 0 {
      assert rounds[..n][..n - 1] == rounds[..n - 1];
      RunExplained(o, rounds, n - 1);
      RunCode(o, rounds, n - 1);
      CodeNext(o, rounds, n - 1, Run(o, rounds[..n - 1]));
    } else {
      NothingCoded(rounds);
    }
  }

  lemma NothingCoded(rounds: seq<Round>)
    ensures CodeFits(rounds, 0, START)
  {
  }

  /** The exit code is the one with which the child is first found to have ended, 128 and the number of
      the signal that ended it, and -1 if it is not found so. */
  lemma ExitCode(o: Options, rounds: seq<Round>)
    requires forall i :: 0 <= i < |rounds| ==> Plausible(rounds[i])
    ensures forall i, code :: 0 <= i < |rounds| && ReapsFirst(rounds, i) && rounds[i].wait == Ended(code) ==>
      Run(o, rounds).exitCode == code && Run(o, rounds).signal == 0
    ensures forall i, number :: 0 <= i < |rounds| && ReapsFirst(rounds, i) && rounds[i].wait == Killed(number) ==>
      Run(o, rounds).exitCode == 128 + number && Run(o, rounds).signal == number
    ensures (forall i :: 0 <= i < |rounds| && ReapsFirst(rounds, i) ==> !rounds[i].wait.Ended? && !rounds[i].wait.Killed?) ==>
      Run(o, rounds).exitCode == -1 && Run(o, rounds).signal == 0
  {
    hide Run, Plausible, ReapsFirst;
    RunCode(o, rounds, |rounds|);
    assert rounds[..|rounds|] == rounds;
  }

  // ---- the signals sent

  /** The request that round j makes is made before the grace period is looked at in round i. */
  predicate RequestedBy(o: Options, rounds: seq<Round>, j: nat, i: nat) {
    && i < |rounds| && IsFirstCause(o, rounds, j)
    && (j < i || (j == i && (rounds[i].cancelled || Overdue(o, rounds[i]))))
  }

  /** Round i starts no earlier than the grace period after the request. */
  predicate GraceOver(o: Options, rounds: seq<Round>, i: nat) {
    Executed(rounds, i) && exists j :: 0 <= j <= i && RequestedBy(o, rounds, j, i) && rounds[i].now - rounds[j].later >= o.grace
  }

  predicate FirstGraceOver(o: Options, rounds: seq<Round>, i: nat) {
    GraceOver(o, rounds, i) && forall k :: 0 <= k < i ==> !GraceOver(o, rounds, k)
  }

  ghost predicate SignalsFit(o: Options, rounds: seq<Round>, n: nat, s: State)
    requires n <= |rounds|
  {
    && (forall j :: 0 <= j < n && IsFirstCause(o, rounds, j) ==> s.requested && s.startedAt == rounds[j].later)
    && (s.requested ==> exists j :: 0 <= j < n && IsFirstCause(o, rounds, j))
    && (s.killSent <==> exists i :: 0 <= i < n && GraceOver(o, rounds, i))
    && (forall i :: 0 <= i < n && FirstGraceOver(o, rounds, i) ==> s.killSent && s.sent == [Terminate(s.startedAt), Kill(rounds[i].now)])
  }

  /** What one round does about requests and signals. */
  lemma StepSent(o: Options, s: State, e: Round)
    requires Invariant(o, s)
    ensures var t := Step(o, s, e);
            var asked := s.requested || e.cancelled || Overdue(o, e);
            var start := if s.requested then s.startedAt else e.later;
            && (t.requested ==> t.startedAt == start)
            && (s.requested ==> t.requested)
            && (t.killSent <==> s.killSent || (asked && e.now - start >= o.grace))
            && (!s.killSent && t.killSent ==> t.requested && t.sent == [Terminate(start), Kill(e.now)])
            && (s.killSent ==> t.sent == s.sent)
  {
    hide Keep, KeepsPrefix, ReasonFits, Pipes, Waited, Deadlines;
    DeadlinesSent(o, s, e);
    PipesSent(o, Deadlines(o, s, e), e);
    WaitedSent(Pipes(o, Deadlines(o, s, e), e), e);
  }

  lemma DeadlinesSent(o: Options, s: State, e: Round)
    requires Invariant(o, s)
    ensures var t := Deadlines(o, s, e);
            var asked := s.requested || e.cancelled || Overdue(o, e);
            var start := if s.requested then s.startedAt else e.later;
            && (t.requested <==> asked) && (asked ==> t.startedAt == start)
            && (t.killSent <==> s.killSent || (asked && e.now - start >= o.grace))
            && (!s.killSent && t.killSent ==> t.sent == [Terminate(start), Kill(e.now)])
            && (s.killSent ==> t.sent == s.sent)
  {
    hide KeepsPrefix, ReasonFits;
  }

  /** A request that stands is kept as it is, and a new one is made at this time. */
  predicate RequestsAt(s: State, t: State, at: int) {
    && t.killSent == s.killSent && (s.requested ==> t.requested && t.startedAt == s.startedAt && t.sent == s.sent)
    && (!s.requested && t.requested ==> t.startedAt == at)
  }

  lemma ReadsRequestAt(o: Options, s: State, r: Ready, at: int)
    ensures RequestsAt(s, ReadOutput(o, s, r, at), at) && RequestsAt(s, ReadError(o, s, r), at)
    ensures ReadError(o, s, r).requested == s.requested
  {
    hide Keep, Request;
    if r.read.Data? {
      RequestAt(s.(output := Keep(s.output, r.read.bytes, o.outputLimit).0, outRead := s.outRead + r.read.bytes), OutputLimitExceeded, at);
    }
  }

  lemma RequestAt(s: State, reason: Termination, at: int)
    ensures RequestsAt(s, Request(s, reason, at), at)
  {
  }

  lemma PipesSent(o: Options, s: State, e: Round)
    ensures RequestsAt(s, Pipes(o, s, e), e.later)
  {
    hide ReadOutput, ReadError, Request;
    if e.poll.PollFailed? {
      RequestAt(s.(failed := true), Cancelled, e.later);
    } else if e.poll.Polled? {
      var t := ReadOutput(o, s, e.poll.output, e.later);
      ReadsRequestAt(o, s, e.poll.output, e.later);
      ReadsRequestAt(o, t, e.poll.error, e.later);
      assert RequestsAt(s, ReadError(o, t, e.poll.error), e.later);
    }
  }

  lemma WaitedSent(s: State, e: Round)
    ensures RequestsAt(s, Waited(s, e), e.later)
  {
  }

  lemma OneFirstCause(o: Options, rounds: seq<Round>, i: nat, j: nat)
    requires IsFirstCause(o, rounds, i) && IsFirstCause(o, rounds, j)
    ensures i == j
  {
    hide HasCause;
  }

  /** Round n is the one in which the grace period is over, told from the state before it. */
  lemma GraceOverTold(o: Options, rounds: seq<Round>, n: nat, s: State)
    requires n < |rounds| && Tracks(o, rounds, n, s) && Explains(o, rounds, n, s) && SignalsFit(o, rounds, n, s) && !Done(s)
    ensures var e := rounds[n];
            var asked := s.requested || e.cancelled || Overdue(o, e);
            GraceOver(o, rounds, n) <==> asked && e.now - (if s.requested then s.startedAt else e.later) >= o.grace
  {
    hide Tracks, Overdue, Overflows, WaitFails, Executed;
    StepTracks(o, rounds, n, s);
    var e := rounds[n];
    if s.requested {
      var j :| 0 <= j < n && IsFirstCause(o, rounds, j);
      assert RequestedBy(o, rounds, j, n);
      forall k | 0 <= k <= n && RequestedBy(o, rounds, k, n) ensures k == j { OneFirstCause(o, rounds, j, k); }
    } else {
      assert forall k :: 0 <= k < n ==> !HasCause(o, rounds, k);
      if e.cancelled || Overdue(o, e) {
        assert IsFirstCause(o, rounds, n);
        assert RequestedBy(o, rounds, n, n);
      }
    }
  }

  lemma SignalsNext(o: Options, rounds: seq<Round>, n: nat, s: State)
    requires n < |rounds| && Tracks(o, rounds, n, s) && Explains(o, rounds, n, s) && Invariant(o, s) && Plausible(rounds[n])
    requires SignalsFit(o, rounds, n, s)
    ensures SignalsFit(o, rounds, n + 1, if Done(s) then s else Step(o, s, rounds[n]))
  {
    hide Tracks, Invariant, Step, CauseIn, Executed, Plausible, Overdue;
    StepTracks(o, rounds, n, s);
    if Done(s) {
      assert !HasCause(o, rounds, n) && !GraceOver(o, rounds, n);
    } else {
      StepSent(o, s, rounds[n]);
      GraceOverTold(o, rounds, n, s);
      ExplainsNext(o, rounds, n, s);
      SignalsMore(o, rounds, n, s, Step(o, s, rounds[n]));
    }
  }

  lemma SignalsMore(o: Options, rounds: seq<Round>, n: nat, s: State, t: State)
    requires n < |rounds| && SignalsFit(o, rounds, n, s) && Explains(o, rounds, n, s) && Explains(o, rounds, n + 1, t)
    requires t.requested ==> t.startedAt == if s.requested then s.startedAt else rounds[n].later
    requires s.requested ==> t.requested
    requires t.killSent <==> s.killSent || GraceOver(o, rounds, n)
    requires !s.killSent && t.killSent ==> t.requested && t.sent == [Terminate(t.startedAt), Kill(rounds[n].now)]
    requires s.killSent ==> t.sent == s.sent && s.requested
    ensures SignalsFit(o, rounds, n + 1, t)
  {
    hide HasCause, GraceOver, CauseIn, Kills;
    forall j | 0 <= j < n + 1 && IsFirstCause(o, rounds, j) ensures t.requested && t.startedAt == rounds[j].later {
      assert HasCause(o, rounds, j);
      if j < n { assert s.requested; } else { assert !s.requested; }
    }
    if t.requested {
      var i :| 0 <= i < n + 1 && HasCause(o, rounds, i);
      var j := FirstCause(o, rounds, i);
    }
  }

  lemma {:induction false} RunSignals(o: Options, rounds: seq<Round>, n: nat)
    requires n <= |rounds| && forall i :: 0 <= i < |rounds| ==> Plausible(rounds[i])
    ensures SignalsFit(o, rounds, n, Run(o, rounds[..n]))
  {
    hide Step, Plausible, SignalsFit, Tracks, Explains, Invariant;
    if n > 0 {
      assert rounds[..n][..n - 1] == rounds[..n - 1];
      RunExplained(o, rounds, n - 1);
      RunKeeps(o, rounds[..n - 1]);
      RunSignals(o, rounds, n - 1);
      SignalsNext(o, rounds, n - 1, Run(o, rounds[..n - 1]));
    } else {
      NothingSent(o, rounds);
    }
  }

  lemma NothingSent(o: Options, rounds: seq<Round>)
    ensures SignalsFit(o, rounds, 0, START)
  {
  }

  /** What is sent to the child: nothing while no round brings a reason to end it; then a termination
      signal, at the time read in the first round that brings one; and a kill if and only if some round
      that is run starts at least the grace period after that, at the start of the first such round. */
  lemma SentSignals(o: Options, rounds: seq<Round>)
    requires forall i :: 0 <= i < |rounds| ==> Plausible(rounds[i])
    ensures Run(o, rounds).sent == [] <==> forall i :: 0 <= i < |rounds| ==> !HasCause(o, rounds, i)
    ensures forall j :: 0 <= j < |rounds| && IsFirstCause(o, rounds, j) ==>
      Run(o, rounds).sent != [] && Run(o, rounds).sent[0] == Terminate(rounds[j].later)
    ensures |Run(o, rounds).sent| == 2 <==> exists i :: 0 <= i < |rounds| && GraceOver(o, rounds, i)
    ensures forall i :: 0 <= i < |rounds| && FirstGraceOver(o, rounds, i) ==>
      |Run(o, rounds).sent| == 2 && Run(o, rounds).sent[1] == Kill(rounds[i].now)
  {
    hide Run, Plausible, HasCause, GraceOver, KeepsPrefix, ReasonFits;
    RunSignals(o, rounds, |rounds|);
    RunKeeps(o, rounds);
    RequestedIff(o, rounds);
    assert rounds[..|rounds|] == rounds;
  }

  // ---- the output kept

  function ErrorOf(e: Round): string {
    if e.poll.Polled? && e.poll.error.readable && e.poll.error.read.Data? then e.poll.error.read.bytes else []
  }

  /** What the first n rounds bring on standard output while its pipe is open. */
  function OutputText(rounds: seq<Round>, n: nat): string
    requires n <= |rounds|
  {
    if n == 0 then [] else OutputText(rounds, n - 1) + if OutputClosed(rounds, n - 1) then [] else OutputOf(rounds[n - 1])
  }

  function ErrorText(rounds: seq<Round>, n: nat): string
    requires n <= |rounds|
  {
    if n == 0 then [] else ErrorText(rounds, n - 1) + if ErrorClosed(rounds, n - 1) then [] else ErrorOf(rounds[n - 1])
  }

  lemma StepErrors(o: Options, s: State, e: Round)
    ensures Step(o, s, e).errRead == s.errRead + if s.errOpen then ErrorOf(e) else []
    ensures Step(o, s, e).failed <==> s.failed || e.poll.PollFailed? || (!s.reaped && !e.poll.Interrupted? && e.wait.WaitFailed?)
  {
    hide Deadlines, Pipes, Waited, ErrorOf;
    DeadlinesErrors(o, s, e);
    PipesErrors(o, Deadlines(o, s, e), e);
    WaitedErrors(Pipes(o, Deadlines(o, s, e), e), e);
  }

  predicate SameErrors(s: State, t: State) {
    t.errRead == s.errRead && t.errOpen == s.errOpen && t.failed == s.failed && t.reaped == s.reaped
  }

  lemma RequestErrors(s: State, reason: Termination, at: int)
    ensures SameErrors(s, Request(s, reason, at))
  {
  }

  lemma DeadlinesErrors(o: Options, s: State, e: Round)
    ensures SameErrors(s, Deadlines(o, s, e))
  {
    hide Request;
    RequestErrors(s, Cancelled, e.later);
    var t := if !s.requested && e.cancelled then Request(s, Cancelled, e.later) else s;
    RequestErrors(t, TimedOut, e.later);
  }

  lemma ReadsErrors(o: Options, s: State, r: Ready, at: int)
    ensures SameErrors(s, ReadOutput(o, s, r, at))
    ensures var t := ReadError(o, s, r);
            && t.errRead == s.errRead + (if s.errOpen && r.readable && r.read.Data? then r.read.bytes else [])
            && t.failed == s.failed && t.reaped == s.reaped
  {
    hide Keep, Request;
    assert s.errRead + [] == s.errRead;
    if r.read.Data? {
      var kept := Keep(s.output, r.read.bytes, o.outputLimit).0;
      RequestErrors(s.(output := kept, outRead := s.outRead + r.read.bytes), OutputLimitExceeded, at);
    }
  }

  lemma ErrorOfPolled(e: Round)
    ensures !e.poll.Polled? ==> ErrorOf(e) == []
    ensures e.poll.Polled? ==> ErrorOf(e) == if e.poll.error.readable && e.poll.error.read.Data? then e.poll.error.read.bytes else []
  {
  }

  lemma PipesErrors(o: Options, s: State, e: Round)
    ensures var t := Pipes(o, s, e);
            && t.errRead == s.errRead + (if s.errOpen then ErrorOf(e) else [])
            && (t.failed <==> s.failed || e.poll.PollFailed?) && t.reaped == s.reaped
  {
    hide ReadOutput, ReadError, Request, ErrorOf;
    assert s.errRead + [] == s.errRead;
    RequestErrors(s.(failed := true), Cancelled, e.later);
    ErrorOfPolled(e);
    if e.poll.Polled? {
      ReadsErrors(o, s, e.poll.output, e.later);
      ReadsErrors(o, ReadOutput(o, s, e.poll.output, e.later), e.poll.error, e.later);
    }
  }

  lemma WaitedErrors(s: State, e: Round)
    ensures var t := Waited(s, e);
            t.errRead == s.errRead && (t.failed <==> s.failed || (!s.reaped && e.wait.WaitFailed?))
  {
  }

  /** The system refused a poll in this round, or the wait for a child that had not been reaped. */
  predicate SystemFails(rounds: seq<Round>, i: nat) {
    Executed(rounds, i) && (rounds[i].poll.PollFailed? || WaitFails(rounds, i))
  }

  ghost predicate TextsFit(rounds: seq<Round>, n: nat, s: State)
    requires n <= |rounds|
  {
    && s.outRead == OutputText(rounds, n) && s.errRead == ErrorText(rounds, n)
    && (s.failed <==> exists i :: 0 <= i < n && SystemFails(rounds, i))
  }

  lemma TextsNext(o: Options, rounds: seq<Round>, n: nat, s: State)
    requires n < |rounds| && Tracks(o, rounds, n, s) && TextsFit(rounds, n, s)
    ensures TextsFit(rounds, n + 1, if Done(s) then s else Step(o, s, rounds[n]))
  {
    hide Step, ClosesOutput, ClosesError, Reaps, OutputOf, ErrorOf;
    StepTracks(o, rounds, n, s);
    assert s.outRead + [] == s.outRead && s.errRead + [] == s.errRead;
    StepTrack(o, s, rounds[n]);
    StepErrors(o, s, rounds[n]);
    assert SystemFails(rounds, n) ==> !Done(s);
  }

  lemma {:induction false} RunTexts(o: Options, rounds: seq<Round>, n: nat)
    requires n <= |rounds| && forall i :: 0 <= i < |rounds| ==> Plausible(rounds[i])
    ensures TextsFit(rounds, n, Run(o, rounds[..n]))
  {
    hide Step, Plausible, TextsFit, Tracks;
    if n > 0 {
      assert rounds[..n][..n - 1] == rounds[..n - 1];
      RunExplained(o, rounds, n - 1);
      RunTexts(o, rounds, n - 1);
      TextsNext(o, rounds, n - 1, Run(o, rounds[..n - 1]));
    } else {
      assert TextsFit(rounds, 0, START) by { NothingRead(rounds); }
    }
  }

  lemma NothingRead(rounds: seq<Round>)
    ensures TextsFit(rounds, 0, START)
  {
  }

  /** The output kept is what the rounds bring while the pipe is open, cut off at the limit; and the run
      is a failure of the supervision itself exactly when the system refuses a poll or a wait. */
  lemma KeptOutput(o: Options, rounds: seq<Round>)
    requires forall i :: 0 <= i < |rounds| ==> Plausible(rounds[i])
    ensures Run(o, rounds).output == Prefix(OutputText(rounds, |rounds|), o.outputLimit)
    ensures Run(o, rounds).error == Prefix(ErrorText(rounds, |rounds|), o.errorLimit)
    ensures Run(o, rounds).failed <==> exists i :: 0 <= i < |rounds| && SystemFails(rounds, i)
  {
    hide Run, Plausible, SystemFails, SignalsInOrder, ReasonFits, Prefix;
    RunTexts(o, rounds, |rounds|);
    RunKeeps(o, rounds);
    assert rounds[..|rounds|] == rounds;
  }
}
