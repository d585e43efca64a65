/** Supervising a child process: a loop driven by what the system reports in each round. */
module Supervision {
  import opened Wrappers

  datatype Termination = Exited | Signaled | TimedOut | Cancelled | OutputLimitExceeded

  /** Times are in milliseconds of one clock. A limit of zero is no limit. */
  datatype Options = Options(deadline: Option<int>, outputLimit: nat, errorLimit: nat, grace: int)

  // ---- what the system reports in one round

  /** What a read gives when poll says that there is something to read. */
  datatype Read = Data(bytes: string) | EndOfFile | Retry | Broken

  /** Poll says of one pipe whether to read it, and whether its descriptor is invalid. */
  datatype Ready = Ready(readable: bool, invalid: bool, read: Read)

  datatype Poll = Interrupted | PollFailed | Polled(output: Ready, error: Ready)

  datatype Wait = Running | WaitInterrupted | WaitFailed | Ended(code: int) | Killed(number: int) | Reaped

  /** One round: the time it starts, the time read if a termination is requested in it, and the
      answers of the system. */
  datatype Round = Round(now: int, later: int, cancelled: bool, poll: Poll, wait: Wait)

  // ---- the state

  /** The signals sent so far, with their times. */
  datatype Signal = Terminate(at: int) | Kill(at: int)

  datatype State = State(
    reaped: bool, outOpen: bool, errOpen: bool, requested: bool, killSent: bool, startedAt: int,
    termination: Termination, exitCode: int, signal: int, output: string, error: string, failed: bool,
    sent: seq<Signal>, outRead: string, errRead: string)

  const START := State(false, true, true, false, false, 0, Exited, -1, 0, "", "", false, [], "", "")

  predicate Done(s: State) {
    s.reaped && !s.outOpen && !s.errOpen
  }

  function Request(s: State, reason: Termination, at: int): State {
    if s.requested then s
    else s.(termination := reason, requested := true, startedAt := at, sent := s.sent + [Terminate(at)])
  }

  /** What is kept of the bytes read, given the limit, and whether the limit was exceeded. */
  function Keep(destination: string, bytes: string, limit: nat): (string, bool) {
    if limit != 0 && (|destination| >= limit || |bytes| > limit - |destination|) then
      (destination + bytes[..if limit > |destination| then limit - |destination| else 0], true)
    else (destination + bytes, false)
  }

  function ReadOutput(o: Options, s: State, r: Ready, at: int): State {
    if !s.outOpen || !r.readable then s
    else match r.read
      case Data(bytes) =>
        var (kept, exceeded) := Keep(s.output, bytes, o.outputLimit);
        var t := s.(output := kept, outRead := s.outRead + bytes);
        if exceeded then Request(t, OutputLimitExceeded, at) else t
      case EndOfFile => s.(outOpen := false)
      case Broken => s.(outOpen := false)
      case Retry => s
  }

  function ReadError(o: Options, s: State, r: Ready): State {
    if !s.errOpen || !r.readable then s
    else match r.read
      case Data(bytes) => s.(error := Keep(s.error, bytes, o.errorLimit).0, errRead := s.errRead + bytes)
      case EndOfFile => s.(errOpen := false)
      case Broken => s.(errOpen := false)
      case Retry => s
  }

  /** Cancellation, the deadline, and the end of the grace period. */
  function Deadlines(o: Options, s: State, e: Round): State {
    var s := if !s.requested && e.cancelled then Request(s, Cancelled, e.later) else s;
    var s := if !s.requested && o.deadline.Some? && e.now >= o.deadline.value then Request(s, TimedOut, e.later) else s;
    if s.requested && !s.killSent && e.now - s.startedAt >= o.grace then s.(killSent := true, sent := s.sent + [Kill(e.now)]) else s
  }

  function Pipes(o: Options, s: State, e: Round): State {
    match e.poll
    case Interrupted => s
    case PollFailed => Request(s.(failed := true), Cancelled, e.later)
    case Polled(output, error) =>
      var s := ReadOutput(o, s, output, e.later);
      var s := ReadError(o, s, error);
      var s := if s.outOpen && output.invalid then s.(outOpen := false) else s;
      if s.errOpen && error.invalid then s.(errOpen := false) else s
  }

  function Waited(s: State, e: Round): State {
    if s.reaped then s
    else match e.wait
      case Ended(code) => s.(reaped := true, exitCode := code)
      case Killed(n) => s.(reaped := true, signal := n, exitCode := 128 + n,
                           termination := if s.requested then s.termination else Signaled)
      case Reaped => s.(reaped := true)
      case WaitFailed => Request(s.(failed := true), Cancelled, e.later).(reaped := true)
      case Running => s
      case WaitInterrupted => s
  }

  /** One round of the loop. An interrupted poll ends the round early. */
  function Step(o: Options, s: State, e: Round): State {
    var s := Pipes(o, Deadlines(o, s, e), e);
    if e.poll.Interrupted? then s else Waited(s, e)
  }

  /** The state after the rounds, stopping as soon as the loop is done. */
  function Run(o: Options, rounds: seq<Round>): State {
    if rounds == [] then START
    else
      var s := Run(o, rounds[..|rounds| - 1]);
      if Done(s) then s else Step(o, s, rounds[|rounds| - 1])
  }

  // ---- the program

  /** The supervision loop. The rounds are what the system would report; the loop uses as many as
      it needs. */
  method Supervise(o: Options, rounds: seq<Round>) returns (finished: bool, result: State)
    ensures result == Run(o, rounds)
    ensures finished <==> Done(result)
  {
    hide Deadlines, ReadOutput, ReadError, Waited;
    var s := START;
    var n := 0;
    while (!s.reaped || s.outOpen || s.errOpen) && n < |rounds|
      invariant n <= |rounds| && s == Run(o, rounds[..n])
    {
      var e := rounds[n];
      assert rounds[..n + 1][..n] == rounds[..n];
      n := n + 1;
      s := CheckDeadlines(o, s, e);
      if e.poll.Interrupted? { continue; }
      if e.poll.PollFailed? { s := Request(s.(failed := true), Cancelled, e.later); }
      if e.poll.Polled? {
        s := ReadOutput(o, s, e.poll.output, e.later);
        s := ReadError(o, s, e.poll.error);
        if s.outOpen && e.poll.output.invalid { s := s.(outOpen := false); }
        if s.errOpen && e.poll.error.invalid { s := s.(errOpen := false); }
      }
      s := CheckChild(s, e);
    }
    StopsWhenDone(o, rounds, n);
    assert rounds[..|rounds|] == rounds;
    finished, result := Done(s), s;
  }

  method CheckDeadlines(o: Options, before: State, e: Round) returns (s: State)
    ensures s == Deadlines(o, before, e)
  {
    s := before;
    if !s.requested && e.cancelled { s := Request(s, Cancelled, e.later); }
    if !s.requested && o.deadline.Some? && e.now >= o.deadline.value { s := Request(s, TimedOut, e.later); }
    if s.requested && !s.killSent && e.now - s.startedAt >= o.grace {
      s := s.(killSent := true, sent := s.sent + [Kill(e.now)]);
    }
  }

  method CheckChild(before: State, e: Round) returns (s: State)
    ensures s == Waited(before, e)
  {
    s := before;
    if !s.reaped {
      if e.wait.Ended? || e.wait.Killed? || e.wait.Reaped? {
        s := s.(reaped := true);
        if e.wait.Ended? {
          s := s.(exitCode := e.wait.code);
        } else if e.wait.Killed? {
          s := s.(signal := e.wait.number, exitCode := 128 + e.wait.number);
          if !s.requested { s := s.(termination := Signaled); }
        }
      } else if e.wait.WaitFailed? {
        s := Request(s.(failed := true), Cancelled, e.later);
        s := s.(reaped := true);
      }
    }
  }

  lemma {:induction false} StopsWhenDone(o: Options, rounds: seq<Round>, n: nat)
    requires n <= |rounds| && (Done(Run(o, rounds[..n])) || n == |rounds|)
    ensures Run(o, rounds) == Run(o, rounds[..n])
  {
    hide Step;
    if n < |rounds| {
      assert rounds[..|rounds| - 1][..n] == rounds[..n];
      StopsWhenDone(o, rounds[..|rounds| - 1], n);
    } else {
      assert rounds[..n] == rounds;
    }
  }

  // ---- what every run keeps

  /** The first min(limit, n) of n bytes, or all of them without a limit. */
  function Prefix(read: string, limit: nat): string {
    if limit != 0 && |read| > limit then read[..limit] else read
  }

  ghost predicate KeepsPrefix(o: Options, s: State) {
    s.output == Prefix(s.outRead, o.outputLimit) && s.error == Prefix(s.errRead, o.errorLimit)
  }

  /** At most one termination signal, then at most one kill, after the grace period. */
  ghost predicate SignalsInOrder(o: Options, s: State) {
    if !s.requested then s.sent == [] && !s.killSent
    else if !s.killSent then s.sent == [Terminate(s.startedAt)]
    else |s.sent| == 2 && s.sent[0] == Terminate(s.startedAt) && s.sent[1].Kill? && s.sent[1].at - s.startedAt >= o.grace
  }

  /** Without a request, the reason is the child's own end; too much output leads to a request. */
  ghost predicate ReasonFits(o: Options, s: State) {
    && (!s.requested ==> s.termination == if s.signal != 0 then Signaled else Exited)
    && (s.requested ==> s.termination == Cancelled || s.termination == TimedOut || s.termination == OutputLimitExceeded)
    && (s.termination == OutputLimitExceeded ==> o.outputLimit != 0 && |s.outRead| > o.outputLimit)
    && (o.outputLimit != 0 && |s.outRead| > o.outputLimit ==> s.requested)
    && (s.termination == TimedOut ==> o.deadline.Some?)
    && (s.failed ==> s.requested)
    && (s.signal != 0 ==> s.reaped)
  }

  ghost predicate Invariant(o: Options, s: State) {
    KeepsPrefix(o, s) && SignalsInOrder(o, s) && ReasonFits(o, s)
  }

  lemma KeepIsPrefix(read: string, bytes: string, limit: nat)
    ensures var (kept, exceeded) := Keep(Prefix(read, limit), bytes, limit);
            kept == Prefix(read + bytes, limit) && (exceeded ==> limit != 0) && (exceeded <== limit != 0 && |read + bytes| > limit && bytes != [])
    ensures Keep(Prefix(read, limit), bytes, limit).1 && bytes != [] ==> |read + bytes| > limit
  {
    var p := Prefix(read, limit);
    if limit != 0 && |read| > limit {
      assert bytes[..0] == [] && p + [] == p;
      assert (read + bytes)[..limit] == read[..limit];
    } else if limit != 0 && |read + bytes| > limit {
      assert (read + bytes)[..limit] == read + bytes[..limit - |read|];
    }
  }

  /** A read gives at least one byte, and a signal number is not zero. */
  predicate Plausible(e: Round) {
    && (e.poll.Polled? ==> (e.poll.output.read.Data? ==> e.poll.output.read.bytes != []) && (e.poll.error.read.Data? ==> e.poll.error.read.bytes != []))
    && (e.wait.Killed? ==> e.wait.number != 0)
  }

  lemma OutputKept(o: Options, s: State, r: Ready, at: int)
    requires Invariant(o, s) && (r.read.Data? ==> r.read.bytes != [])
    ensures Invariant(o, ReadOutput(o, s, r, at))
  {
    hide Keep;
    if s.outOpen && r.readable && r.read.Data? { KeepIsPrefix(s.outRead, r.read.bytes, o.outputLimit); }
  }

  lemma ErrorKept(o: Options, s: State, r: Ready)
    requires Invariant(o, s) && (r.read.Data? ==> r.read.bytes != [])
    ensures Invariant(o, ReadError(o, s, r))
  {
    hide Keep;
    if s.errOpen && r.readable && r.read.Data? { KeepIsPrefix(s.errRead, r.read.bytes, o.errorLimit); }
  }

  /** Only too much output is a reason that says something about the output. */
  lemma RequestKept(o: Options, s: State, reason: Termination, at: int)
    requires KeepsPrefix(o, s) && SignalsInOrder(o, s) && (reason == Cancelled || (reason == TimedOut && o.deadline.Some?))
    requires ReasonFits(o, s.(failed := false))
    ensures Invariant(o, Request(s, reason, at))
  {
  }

  lemma DeadlinesKept(o: Options, s: State, e: Round)
    requires Invariant(o, s)
    ensures Invariant(o, Deadlines(o, s, e))
  {
    hide Prefix;
  }

  lemma PipesKept(o: Options, s: State, e: Round)
    requires Invariant(o, s) && Plausible(e)
    ensures Invariant(o, Pipes(o, s, e))
  {
    hide ReadOutput, ReadError, Prefix;
    match e.poll
    case Interrupted =>
    case PollFailed => RequestKept(o, s.(failed := true), Cancelled, e.later);
    case Polled(output, error) =>
      OutputKept(o, s, output, e.later);
      ErrorKept(o, ReadOutput(o, s, output, e.later), error);
  }

  lemma WaitedKept(o: Options, s: State, e: Round)
    requires Invariant(o, s) && Plausible(e)
    ensures Invariant(o, Waited(s, e))
  {
    hide Prefix;
    if !s.reaped && e.wait.WaitFailed? { RequestKept(o, s.(failed := true), Cancelled, e.later); }
  }

  lemma StepKeeps(o: Options, s: State, e: Round)
    requires Invariant(o, s) && Plausible(e)
    ensures Invariant(o, Step(o, s, e))
  {
    hide Deadlines, Pipes, Waited, Invariant, Plausible;
    DeadlinesKept(o, s, e);
    PipesKept(o, Deadlines(o, s, e), e);
    WaitedKept(o, Pipes(o, Deadlines(o, s, e), e), e);
  }

  /** In every run, whatever the system reports: the output kept is the first part of the output
      read; there is at most one termination signal and at most one kill, in that order and with
      the grace period between them; and the reason is that of the request, or else the child's. */
  lemma {:induction false} RunKeeps(o: Options, rounds: seq<Round>)
    requires forall i :: 0 <= i < |rounds| ==> Plausible(rounds[i])
    ensures Invariant(o, Run(o, rounds))
  {
    hide Step, Plausible;
    if rounds != [] {
      RunKeeps(o, rounds[..|rounds| - 1]);
      StepKeeps(o, Run(o, rounds[..|rounds| - 1]), rounds[|rounds| - 1]);
    }
  }

  // ---- requests are final

  /** The request of s stands in t. */
  predicate SameRequest(s: State, t: State) {
    t.requested && t.termination == s.termination && t.startedAt == s.startedAt
  }

  lemma DeadlinesKeepReason(o: Options, s: State, e: Round)
    requires s.requested
    ensures SameRequest(s, Deadlines(o, s, e))
  {
  }

  lemma ReadsKeepReason(o: Options, s: State, r: Ready, at: int)
    requires s.requested
    ensures SameRequest(s, ReadOutput(o, s, r, at)) && SameRequest(s, ReadError(o, s, r))
  {
    hide Keep;
  }

  lemma PipesKeepReason(o: Options, s: State, e: Round)
    requires s.requested
    ensures SameRequest(s, Pipes(o, s, e))
  {
    hide ReadOutput, ReadError;
    if e.poll.Polled? {
      ReadsKeepReason(o, s, e.poll.output, e.later);
      ReadsKeepReason(o, ReadOutput(o, s, e.poll.output, e.later), e.poll.error, e.later);
    }
  }

  lemma StepKeepsReason(o: Options, s: State, e: Round)
    requires s.requested
    ensures SameRequest(s, Step(o, s, e))
  {
    hide Deadlines, Pipes;
    DeadlinesKeepReason(o, s, e);
    PipesKeepReason(o, Deadlines(o, s, e), e);
  }

  /** Once a termination has been requested, its reason never changes. */
  lemma {:induction false} RequestIsFinal(o: Options, rounds: seq<Round>, n: nat)
    requires n <= |rounds| && Run(o, rounds[..n]).requested
    ensures Run(o, rounds).requested && Run(o, rounds).termination == Run(o, rounds[..n]).termination
    ensures Run(o, rounds).startedAt == Run(o, rounds[..n]).startedAt
  {
    hide Step;
    if n < |rounds| {
      var init := rounds[..|rounds| - 1];
      assert init[..n] == rounds[..n];
      RequestIsFinal(o, init, n);
      StepKeepsReason(o, Run(o, init), rounds[|rounds| - 1]);
    } else {
      assert rounds[..n] == rounds;
    }
  }

  // ---- a child's own signal is not final

  const IDLE := Ready(false, false, Retry)

  /** Killed by a signal in the first round, with its pipes still open; cancelled in the second. */
  const LATE_CANCEL := [
    Round(0, 0, false, Polled(IDLE, IDLE), Killed(9)),
    Round(10, 10, true, Polled(Ready(true, false, EndOfFile), Ready(true, false, EndOfFile)), Running)]

  /** The reason "signaled" can still be replaced: the child has died of a signal before anything
      was requested, and the result says that it was cancelled. */
  lemma SignaledCanBeReplaced(o: Options)
    requires o.deadline.None? && o.grace > 10
    ensures var first, last := Run(o, LATE_CANCEL[..1]), Run(o, LATE_CANCEL);
            && first.termination == Signaled && first.reaped && !first.requested
            && Done(last) && last.termination == Cancelled && last.signal == 9 && |last.sent| == 1
  {
    assert LATE_CANCEL[..1][..0] == [];
    assert LATE_CANCEL[..|LATE_CANCEL| - 1] == LATE_CANCEL[..1];
    assert Run(o, []) == START;
    var first := Step(o, START, LATE_CANCEL[0]);
    assert Run(o, LATE_CANCEL[..1]) == first;
    assert Run(o, LATE_CANCEL) == Step(o, first, LATE_CANCEL[1]);
  }
}
