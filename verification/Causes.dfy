/** Why a child process is reported as it is, told from what the system reported round by round. */
module Causes {
  import opened Wrappers
  import opened Supervision

  // ---- what the first n rounds have brought, whatever the loop has done about it

  predicate Closing(r: Ready) {
    (r.readable && (r.read.EndOfFile? || r.read.Broken?)) || r.invalid
  }

  predicate ClosesOutput(e: Round) {
    e.poll.Polled? && Closing(e.poll.output)
  }

  predicate ClosesError(e: Round) {
    e.poll.Polled? && Closing(e.poll.error)
  }

  /** The child is no longer waited for after this round. */
  predicate Reaps(e: Round) {
    !e.poll.Interrupted? && !e.wait.Running? && !e.wait.WaitInterrupted?
  }

  predicate OutputClosed(rounds: seq<Round>, n: nat)
    requires n <= |rounds|
  {
    exists i :: 0 <= i < n && ClosesOutput(rounds[i])
  }

  predicate ErrorClosed(rounds: seq<Round>, n: nat)
    requires n <= |rounds|
  {
    exists i :: 0 <= i < n && ClosesError(rounds[i])
  }

  predicate ChildReaped(rounds: seq<Round>, n: nat)
    requires n <= |rounds|
  {
    exists i :: 0 <= i < n && Reaps(rounds[i])
  }

  /** The loop runs this round: before it, the child was not reaped or a pipe was open. */
  predicate Executed(rounds: seq<Round>, i: nat) {
    i < |rounds| && !(OutputClosed(rounds, i) && ErrorClosed(rounds, i) && ChildReaped(rounds, i))
  }

  /** The bytes that a round brings on standard output. */
  function OutputOf(e: Round): string {
    if e.poll.Polled? && e.poll.output.readable && e.poll.output.read.Data? then e.poll.output.read.bytes else []
  }

  /** The number of bytes that the first n rounds bring while the pipe is open. */
  function OutputBytes(rounds: seq<Round>, n: nat): nat
    requires n <= |rounds|
  {
    if n == 0 then 0
    else OutputBytes(rounds, n - 1) + if OutputClosed(rounds, n - 1) then 0 else |OutputOf(rounds[n - 1])|
  }

  // ---- reasons to end the child

  predicate Overdue(o: Options, e: Round) {
    o.deadline.Some? && e.now >= o.deadline.value
  }

  /** The bytes of this round take the output past the limit. */
  predicate Overflows(o: Options, rounds: seq<Round>, i: nat)
    requires i < |rounds|
  {
    o.outputLimit != 0 && !OutputClosed(rounds, i) && OutputOf(rounds[i]) != [] && OutputBytes(rounds, i + 1) > o.outputLimit
  }

  predicate WaitFails(rounds: seq<Round>, i: nat)
    requires i < |rounds|
  {
    !ChildReaped(rounds, i) && !rounds[i].poll.Interrupted? && rounds[i].wait.WaitFailed?
  }

  /** The first reason that a round brings, in the order in which the loop comes to them. */
  function CauseIn(o: Options, rounds: seq<Round>, i: nat): Option<Termination>
    requires i < |rounds|
  {
    if rounds[i].cancelled then Some(Cancelled)
    else if Overdue(o, rounds[i]) then Some(TimedOut)
    else if rounds[i].poll.PollFailed? then Some(Cancelled)
    else if Overflows(o, rounds, i) then Some(OutputLimitExceeded)
    else if WaitFails(rounds, i) then Some(Cancelled)
    else None
  }

  predicate HasCause(o: Options, rounds: seq<Round>, i: nat) {
    Executed(rounds, i) && CauseIn(o, rounds, i).Some?
  }

  predicate IsFirstCause(o: Options, rounds: seq<Round>, i: nat) {
    HasCause(o, rounds, i) && forall j :: 0 <= j < i ==> !HasCause(o, rounds, j)
  }

  /** In this round the child is found to have ended by a signal. */
  predicate Kills(rounds: seq<Round>, i: nat) {
    Executed(rounds, i) && !ChildReaped(rounds, i) && Reaps(rounds[i]) && rounds[i].wait.Killed?
  }

  // ---- the loop's own variables, told from the rounds

  ghost predicate Tracks(o: Options, rounds: seq<Round>, n: nat, s: State)
    requires n <= |rounds|
  {
    && (s.outOpen <==> !OutputClosed(rounds, n))
    && (s.errOpen <==> !ErrorClosed(rounds, n))
    && (s.reaped <==> ChildReaped(rounds, n))
    && |s.outRead| == OutputBytes(rounds, n)
  }

  ghost predicate Explains(o: Options, rounds: seq<Round>, n: nat, s: State)
    requires n <= |rounds|
  {
    && (s.requested <==> exists i :: 0 <= i < n && HasCause(o, rounds, i))
    && (s.signal != 0 <==> exists i :: 0 <= i < n && Kills(rounds, i))
    && (forall i :: 0 <= i < n && IsFirstCause(o, rounds, i) ==> s.termination == CauseIn(o, rounds, i).value)
  }

  lemma ClosedNext(rounds: seq<Round>, n: nat)
    requires n < |rounds|
    ensures OutputClosed(rounds, n + 1) <==> OutputClosed(rounds, n) || ClosesOutput(rounds[n])
    ensures ErrorClosed(rounds, n + 1) <==> ErrorClosed(rounds, n) || ClosesError(rounds[n])
    ensures ChildReaped(rounds, n + 1) <==> ChildReaped(rounds, n) || Reaps(rounds[n])
  {
    hide ClosesOutput, ClosesError, Reaps;
  }

  lemma RequestKeepsRest(s: State, reason: Termination, at: int)
    ensures var t := Request(s, reason, at);
            && t.requested && t.outOpen == s.outOpen && t.errOpen == s.errOpen && t.reaped == s.reaped && t.signal == s.signal
            && t.outRead == s.outRead && t.output == s.output
            && t.termination == if s.requested then s.termination else reason
  {
  }

  lemma OutputEffect(o: Options, s: State, r: Ready, at: int)
    ensures var t := ReadOutput(o, s, r, at);
            && (t.outOpen <==> s.outOpen && !(r.readable && (r.read.EndOfFile? || r.read.Broken?)))
            && t.errOpen == s.errOpen && t.reaped == s.reaped && t.signal == s.signal
            && t.outRead == s.outRead + if s.outOpen && r.readable && r.read.Data? then r.read.bytes else []
  {
    hide Keep, Request;
    if s.outOpen && r.readable && r.read.Data? {
      var (kept, exceeded) := Keep(s.output, r.read.bytes, o.outputLimit);
      RequestKeepsRest(s.(output := kept, outRead := s.outRead + r.read.bytes), OutputLimitExceeded, at);
    } else {
      assert s.outRead + [] == s.outRead;
    }
  }

  lemma ErrorEffect(o: Options, s: State, r: Ready)
    ensures var t := ReadError(o, s, r);
            && (t.errOpen <==> s.errOpen && !(r.readable && (r.read.EndOfFile? || r.read.Broken?)))
            && t.outOpen == s.outOpen && t.reaped == s.reaped && t.signal == s.signal && t.outRead == s.outRead
            && t.requested == s.requested && t.termination == s.termination
  {
    hide Keep;
  }

  lemma PolledTrack(o: Options, s: State, output: Ready, error: Ready, at: int)
    ensures var a := ReadError(o, ReadOutput(o, s, output, at), error);
            && (a.outOpen && !output.invalid <==> s.outOpen && !Closing(output))
            && (a.errOpen && !error.invalid <==> s.errOpen && !Closing(error))
            && a.reaped == s.reaped && a.signal == s.signal
            && a.outRead == s.outRead + if s.outOpen && output.readable && output.read.Data? then output.read.bytes else []
  {
    hide ReadOutput, ReadError;
    OutputEffect(o, s, output, at);
    ErrorEffect(o, ReadOutput(o, s, output, at), error);
  }

  lemma PipesTrack(o: Options, s: State, e: Round)
    ensures var t := Pipes(o, s, e);
            && (t.outOpen <==> s.outOpen && !ClosesOutput(e))
            && (t.errOpen <==> s.errOpen && !ClosesError(e))
            && t.reaped == s.reaped && t.signal == s.signal
            && t.outRead == s.outRead + if s.outOpen then OutputOf(e) else []
  {
    hide ReadOutput, ReadError, Request;
    assert s.outRead + [] == s.outRead;
    match e.poll
    case Polled(output, error) => PolledTrack(o, s, output, error, e.later);
    case PollFailed => RequestKeepsRest(s.(failed := true), Cancelled, e.later);
    case Interrupted =>
  }

  lemma WaitTracks(s: State, e: Round)
    ensures var t := Waited(s, e);
            && t.outOpen == s.outOpen && t.errOpen == s.errOpen && t.outRead == s.outRead
            && (t.reaped <==> s.reaped || (!e.wait.Running? && !e.wait.WaitInterrupted?))
            && t.signal == if !s.reaped && e.wait.Killed? then e.wait.number else s.signal
  {
    hide Request;
    RequestKeepsRest(s.(failed := true), Cancelled, e.later);
  }

  lemma StepTrack(o: Options, s: State, e: Round)
    ensures var t := Step(o, s, e);
            && (t.outOpen <==> s.outOpen && !ClosesOutput(e))
            && (t.errOpen <==> s.errOpen && !ClosesError(e))
            && (t.reaped <==> s.reaped || Reaps(e))
            && t.outRead == s.outRead + (if s.outOpen then OutputOf(e) else [])
            && t.signal == if !s.reaped && Reaps(e) && e.wait.Killed? then e.wait.number else s.signal
  {
    hide Deadlines, Pipes, Waited, ClosesOutput, ClosesError, OutputOf;
    DeadlinesRequest(o, s, e);
    PipesTrack(o, Deadlines(o, s, e), e);
    WaitTracks(Pipes(o, Deadlines(o, s, e), e), e);
  }

  lemma StepTracks(o: Options, rounds: seq<Round>, n: nat, s: State)
    requires n < |rounds| && Tracks(o, rounds, n, s)
    ensures if Done(s) then Tracks(o, rounds, n + 1, s) else Tracks(o, rounds, n + 1, Step(o, s, rounds[n]))
    ensures Executed(rounds, n) <==> !Done(s)
  {
    hide ClosesOutput, ClosesError, Reaps, Step, OutputOf;
    ClosedNext(rounds, n);
    StepTrack(o, s, rounds[n]);
  }

  lemma DeadlinesRequest(o: Options, s: State, e: Round)
    ensures var d := Deadlines(o, s, e);
            && (d.requested <==> s.requested || e.cancelled || Overdue(o, e))
            && (!s.requested && d.requested ==> d.termination == if e.cancelled then Cancelled else TimedOut)
            && d.outOpen == s.outOpen && d.errOpen == s.errOpen && d.outRead == s.outRead && d.reaped == s.reaped && d.signal == s.signal
  {
    hide Request;
    RequestKeepsRest(s, Cancelled, e.later);
    var t := if !s.requested && e.cancelled then Request(s, Cancelled, e.later) else s;
    RequestKeepsRest(t, TimedOut, e.later);
  }

  /** The output of this round takes what was read past the limit. */
  predicate Exceeds(o: Options, s: State, e: Round) {
    o.outputLimit != 0 && s.outOpen && OutputOf(e) != [] && |s.outRead| + |OutputOf(e)| > o.outputLimit
  }

  lemma OutputRequests(o: Options, s: State, r: Ready, at: int)
    requires s.output == Prefix(s.outRead, o.outputLimit) && (r.read.Data? ==> r.read.bytes != [])
    ensures var t := ReadOutput(o, s, r, at);
            var exceeds := o.outputLimit != 0 && s.outOpen && r.readable && r.read.Data? && |s.outRead| + |r.read.bytes| > o.outputLimit;
            (t.requested <==> s.requested || exceeds) &&
            t.termination == if !s.requested && exceeds then OutputLimitExceeded else s.termination
  {
    hide Prefix, Keep;
    if s.outOpen && r.readable && r.read.Data? { KeepIsPrefix(s.outRead, r.read.bytes, o.outputLimit); }
  }

  lemma PipesRequest(o: Options, s: State, e: Round)
    requires Invariant(o, s) && Plausible(e)
    ensures var t := Pipes(o, s, e);
            && (t.requested <==> s.requested || e.poll.PollFailed? || Exceeds(o, s, e))
            && (!s.requested && t.requested ==> t.termination == if e.poll.PollFailed? then Cancelled else OutputLimitExceeded)
            && (s.requested ==> t.termination == s.termination)
  {
    hide Prefix, ReadOutput, ReadError, Request, SignalsInOrder, ReasonFits;
    if e.poll.Polled? {
      OutputRequests(o, s, e.poll.output, e.later);
      ErrorEffect(o, ReadOutput(o, s, e.poll.output, e.later), e.poll.error);
    } else if e.poll.PollFailed? {
      RequestKeepsRest(s.(failed := true), Cancelled, e.later);
    }
  }

  lemma WaitRequests(s: State, e: Round)
    ensures var t := Waited(s, e);
            && (t.requested <==> s.requested || (!s.reaped && e.wait.WaitFailed?))
            && (!s.requested && t.requested ==> t.termination == Cancelled)
            && (s.requested ==> t.termination == s.termination)
  {
  }

  lemma StepParts(o: Options, rounds: seq<Round>, n: nat, s: State, d: State)
    requires n < |rounds| && Tracks(o, rounds, n, s)
    requires d.outOpen == s.outOpen && d.outRead == s.outRead && d.reaped == s.reaped
    ensures Overflows(o, rounds, n) <==> Exceeds(o, d, rounds[n])
    ensures WaitFails(rounds, n) <==> !d.reaped && !rounds[n].poll.Interrupted? && rounds[n].wait.WaitFailed?
  {
    hide ClosesOutput, ClosesError, Reaps, OutputOf, ErrorClosed;
  }

  /** A round of the loop requests a termination exactly when it brings a reason, and the first
      reason it brings is the one that is kept. */
  lemma StepRequests(o: Options, rounds: seq<Round>, n: nat, s: State)
    requires n < |rounds| && Tracks(o, rounds, n, s) && Invariant(o, s) && Plausible(rounds[n])
    ensures var t := Step(o, s, rounds[n]);
            && (t.requested <==> s.requested || CauseIn(o, rounds, n).Some?)
            && (!s.requested && t.requested ==> t.termination == CauseIn(o, rounds, n).value)
  {
    hide Prefix, ClosesOutput, ClosesError, Reaps, Deadlines, Pipes, Waited, Invariant, Plausible, Overflows, WaitFails, Exceeds, Overdue, Tracks;
    var e := rounds[n];
    var d := Deadlines(o, s, e);
    DeadlinesRequest(o, s, e);
    DeadlinesKept(o, s, e);
    PipesRequest(o, d, e);
    PipesTrack(o, d, e);
    WaitRequests(Pipes(o, d, e), e);
    StepParts(o, rounds, n, s, d);
  }

  lemma StepSignals(o: Options, rounds: seq<Round>, n: nat, s: State)
    requires n < |rounds| && Tracks(o, rounds, n, s) && Invariant(o, s) && Plausible(rounds[n]) && !Done(s)
    ensures Step(o, s, rounds[n]).signal != 0 <==> s.signal != 0 || Kills(rounds, n)
  {
    hide Step, Reaps, ClosesOutput, ClosesError, OutputOf, KeepsPrefix, SignalsInOrder;
    StepTrack(o, s, rounds[n]);
    assert Executed(rounds, n);
  }

  lemma ExplainsNext(o: Options, rounds: seq<Round>, n: nat, s: State)
    requires n < |rounds| && Tracks(o, rounds, n, s) && Explains(o, rounds, n, s) && Invariant(o, s) && Plausible(rounds[n])
    ensures Explains(o, rounds, n + 1, if Done(s) then s else Step(o, s, rounds[n]))
  {
    hide Tracks, Invariant, Plausible, CauseIn, Step, Kills, Executed;
    StepTracks(o, rounds, n, s);
    KillsExecuted(rounds, n);
    if !Done(s) {
      var t := Step(o, s, rounds[n]);
      StepRequests(o, rounds, n, s);
      StepSignals(o, rounds, n, s);
      if s.requested { KeepsTermination(o, s, rounds[n]); }
      assert HasCause(o, rounds, n) <==> CauseIn(o, rounds, n).Some?;
      ExplainsMore(o, rounds, n, s, t);
    }
  }

  lemma ExplainsMore(o: Options, rounds: seq<Round>, n: nat, s: State, t: State)
    requires n < |rounds| && Explains(o, rounds, n, s)
    requires t.requested <==> s.requested || HasCause(o, rounds, n)
    requires t.signal != 0 <==> s.signal != 0 || Kills(rounds, n)
    requires s.requested ==> t.termination == s.termination
    requires !s.requested && HasCause(o, rounds, n) ==> t.termination == CauseIn(o, rounds, n).value
    ensures Explains(o, rounds, n + 1, t)
  {
    hide CauseIn, Kills, Executed;
    forall i | 0 <= i < n + 1 && IsFirstCause(o, rounds, i) ensures t.termination == CauseIn(o, rounds, i).value {
      if i < n { assert HasCause(o, rounds, i) && s.requested; } else { assert !s.requested; }
    }
  }

  lemma KillsExecuted(rounds: seq<Round>, n: nat)
    ensures Kills(rounds, n) ==> Executed(rounds, n)
  {
  }

  lemma KeepsTermination(o: Options, s: State, e: Round)
    requires s.requested
    ensures Step(o, s, e).termination == s.termination
  {
    hide Step;
    StepKeepsReason(o, s, e);
  }

  lemma {:induction false} RunExplained(o: Options, rounds: seq<Round>, n: nat)
    requires n <= |rounds| && forall i :: 0 <= i < |rounds| ==> Plausible(rounds[i])
    ensures Tracks(o, rounds, n, Run(o, rounds[..n])) && Explains(o, rounds, n, Run(o, rounds[..n]))
  {
    hide Step, Plausible, Invariant, HasCause, Kills;
    if n > 0 {
      var p := rounds[..n];
      assert p[..n - 1] == rounds[..n - 1];
      RunExplained(o, rounds, n - 1);
      RunKeeps(o, p[..n - 1]);
      StepTracks(o, rounds, n - 1, Run(o, rounds[..n - 1]));
      ExplainsNext(o, rounds, n - 1, Run(o, rounds[..n - 1]));
    }
  }

  // ---- what is reported

  /** A termination is requested exactly when some round that is run brings a reason: a
      cancellation, the deadline, a failed poll, too much output, or a failed wait. */
  lemma RequestedIff(o: Options, rounds: seq<Round>)
    requires forall i :: 0 <= i < |rounds| ==> Plausible(rounds[i])
    ensures Run(o, rounds).requested <==> exists i :: 0 <= i < |rounds| && HasCause(o, rounds, i)
  {
    hide Run, Plausible, HasCause;
    RunExplained(o, rounds, |rounds|);
    assert rounds[..|rounds|] == rounds;
  }

  /** The result carries a signal exactly when the round in which the child was found to have ended
      says so. */
  lemma SignalIff(o: Options, rounds: seq<Round>)
    requires forall i :: 0 <= i < |rounds| ==> Plausible(rounds[i])
    ensures Run(o, rounds).signal != 0 <==> exists i :: 0 <= i < |rounds| && Kills(rounds, i)
  {
    hide Run, Plausible, Kills;
    RunExplained(o, rounds, |rounds|);
    assert rounds[..|rounds|] == rounds;
  }

  /** What the rounds say of how the child should be reported: the first reason to end it, or else
      its own end. */
  ghost predicate ShouldReport(o: Options, rounds: seq<Round>, t: Termination) {
    if exists i :: 0 <= i < |rounds| && HasCause(o, rounds, i)
    then exists i :: 0 <= i < |rounds| && IsFirstCause(o, rounds, i) && t == CauseIn(o, rounds, i).value
    else t == if exists i :: 0 <= i < |rounds| && Kills(rounds, i) then Signaled else Exited
  }

  lemma {:induction false} FirstCause(o: Options, rounds: seq<Round>, i: nat) returns (j: nat)
    requires HasCause(o, rounds, i)
    ensures j <= i && IsFirstCause(o, rounds, j)
    decreases i
  {
    hide HasCause;
    if k :| 0 <= k < i && HasCause(o, rounds, k) { j := FirstCause(o, rounds, k); } else { j := i; }
  }

  /** The reason reported is the first that the rounds bring, and without any the child's end. */
  lemma ReportedReason(o: Options, rounds: seq<Round>)
    requires forall i :: 0 <= i < |rounds| ==> Plausible(rounds[i])
    ensures ShouldReport(o, rounds, Run(o, rounds).termination)
  {
    hide Run, Plausible, HasCause, CauseIn, Kills, KeepsPrefix, SignalsInOrder;
    RunExplained(o, rounds, |rounds|);
    RunKeeps(o, rounds);
    assert rounds[..|rounds|] == rounds;
    if i :| 0 <= i < |rounds| && HasCause(o, rounds, i) {
      var j := FirstCause(o, rounds, i);
    }
  }

  /** A child that ended by a signal is reported as signaled exactly when no round brought a reason
      to end it, not even after it had ended. */
  lemma SignaledIff(o: Options, rounds: seq<Round>)
    requires forall i :: 0 <= i < |rounds| ==> Plausible(rounds[i])
    ensures Run(o, rounds).termination == Signaled <==>
      && (exists i :: 0 <= i < |rounds| && Kills(rounds, i))
      && forall i :: 0 <= i < |rounds| ==> !HasCause(o, rounds, i)
  {
    hide Run, Plausible, Kills;
    ReportedReason(o, rounds);
  }
}
