/**
 Bounded startup of an owned process: at most two launches, each probed until it is ready, fails for
 good, or its time is up. The operating system, the probe and the passing of time are inputs, read in
 order; the launcher records what it did. Times are in milliseconds, processes are numbered by launch.
 */
module Startup {
  import opened Wrappers

  datatype ErrorKind = ConnectionRefused | TimedOut | WouldBlock | ConnectionReset | ConnectionAborted | Interrupted | OtherKind

  datatype IoError = IoError(kind: ErrorKind, message: string)

  const ATTEMPT_BUDGET := 6000
  const PROBE_INTERVAL := 75
  const PROBE_BUDGET := 500
  const CLEANUP_RESERVE := 250

  /** A startup transport error: the process may still be on its way. */
  predicate TransportPending(error: IoError) {
    error.kind in {ConnectionRefused, TimedOut, WouldBlock, ConnectionReset, ConnectionAborted}
  }

  /** A launch error after which the system asks to try again; no child exists. */
  predicate SpawnPending(error: IoError) {
    error.kind in {WouldBlock, Interrupted}
  }

  /** Of transport errors only an interrupted call is not retried; of launch errors only one that would block or was interrupted is. */
  lemma RetriedErrors(error: IoError)
    ensures TransportPending(error) <==> error.kind != Interrupted && error.kind != OtherKind
    ensures SpawnPending(error) <==> error.kind == WouldBlock || error.kind == Interrupted
  {
  }

  datatype WaitOutcome = Running | Exited(status: string) | WaitFailed(error: IoError)

  /**
   What the surroundings answer, by position: how much time passes at each reading of the clock and
   each probe, how launches, waits, probes and cleanups end.
   */
  datatype Surroundings<T> = Surroundings(
    elapse: nat -> nat,
    spawn: nat -> Option<IoError>,
    wait: nat -> WaitOutcome,
    probe: (nat, nat) -> Result<T, IoError>,
    cleanup: nat -> Option<IoError>)

  datatype Event =
    | Launched(process: nat, since: nat)
    | LaunchFailed(error: IoError)
    | Waited(process: nat, outcome: WaitOutcome)
    | Probed(process: nat, at: nat, until: nat, failure: Option<IoError>)
    | Cleaned(process: nat)
    | CleanupFailed(process: nat, error: IoError)

  datatype StartupError = StartupError(first: Option<string>, last: IoError, cleanup: Option<IoError>)

  datatype Outcome<T> = Ready(process: nat, value: T) | NotReady(error: StartupError)

  /******* What a record says *******/

  /** A launch error that does not ask to try again, an exit or wait failure, or a probe error other than transport. */
  predicate Final(e: Event) {
    match e
    case LaunchFailed(error) => !SpawnPending(error)
    case Waited(_, outcome) => !outcome.Running?
    case Probed(_, _, _, failure) => failure.Some? && !TransportPending(failure.value)
    case _ => false
  }

  /** A launch error that asks to try again, or a startup transport error. */
  predicate Transient(e: Event) {
    || (e.LaunchFailed? && SpawnPending(e.error))
    || (e.Probed? && e.failure.Some? && TransportPending(e.failure.value))
  }

  predicate LaunchAttempt(e: Event) {
    e.Launched? || e.LaunchFailed?
  }

  function Launches(trace: seq<Event>): nat {
    if trace == [] then 0
    else Launches(trace[..|trace| - 1]) + if trace[|trace| - 1].Launched? then 1 else 0
  }

  function Probes(trace: seq<Event>, process: nat): nat {
    if trace == [] then 0
    else
      Probes(trace[..|trace| - 1], process)
      + if trace[|trace| - 1].Probed? && trace[|trace| - 1].process == process then 1 else 0
  }

  /** Every launched process has a confirmed cleanup. */
  ghost predicate AllGone(trace: seq<Event>) {
    forall p: nat :: p < Launches(trace) ==> Cleaned(p) in trace
  }

  /** Launches are numbered, and each comes after the confirmed cleanup of every earlier process. */
  ghost predicate CleanBeforeLaunch(trace: seq<Event>) {
    forall k :: 0 <= k < |trace| && trace[k].Launched? ==>
      trace[k].process == Launches(trace[..k]) && AllGone(trace[..k])
  }

  /** After a final event nothing is launched, awaited or probed; only cleanup follows. */
  ghost predicate NothingAfterFinal(trace: seq<Event>) {
    forall i, j :: 0 <= i < j < |trace| && Final(trace[i]) ==> !LaunchAttempt(trace[j]) && !trace[j].Probed? && !trace[j].Waited?
  }

  ghost predicate NoneFinal(trace: seq<Event>) {
    forall i :: 0 <= i < |trace| ==> !Final(trace[i])
  }

  ghost predicate SomeTransient(trace: seq<Event>) {
    exists i :: 0 <= i < |trace| && Transient(trace[i])
  }

  /** Whatever is attempted after another launch attempt has a transport or pending launch error before it. */
  ghost predicate RetriesHaveCause(trace: seq<Event>) {
    forall i, k :: 0 <= i < k < |trace| && LaunchAttempt(trace[i]) && LaunchAttempt(trace[k]) ==> SomeTransient(trace[..k])
  }

  /** No process is probed more often than one attempt's time allows. */
  ghost predicate FewProbes(trace: seq<Event>) {
    forall p: nat :: Probes(trace, p) <= 80
  }

  function Earlier(a: nat, b: nat): nat {
    if a < b then a else b
  }

  /** An attempt ends after its budget, or early enough to clean up before the deadline. */
  function AttemptDeadline(since: nat, deadline: nat): nat {
    Earlier(since + 6000, if deadline >= 250 then deadline - 250 else deadline)
  }

  /** Every probe may take half a second, but not longer than the attempt of its process. */
  ghost predicate ProbesInTime(trace: seq<Event>, deadline: nat) {
    forall k :: 0 <= k < |trace| && trace[k].Probed? ==>
      exists j :: 0 <= j < k && trace[j].Launched? && trace[j].process == trace[k].process
               && trace[k].until == Earlier(trace[k].at + 500, AttemptDeadline(trace[j].since, deadline))
  }

  /** What may come next: each process is awaited before every probe, and cleaned up unless it got ready. */
  predicate Follows(before: Event, e: Event) {
    match before
    case Launched(process, _) => e.Waited? && e.process == process
    case Waited(process, outcome) =>
      ((e.Cleaned? || e.CleanupFailed?) && e.process == process) || (outcome.Running? && e.Probed? && e.process == process)
    case Probed(process, _, _, failure) =>
      && failure.Some?
      && if TransportPending(failure.value) then e.Waited? && e.process == process
         else (e.Cleaned? || e.CleanupFailed?) && e.process == process
    case Cleaned(_) => LaunchAttempt(e)
    case LaunchFailed(_) => LaunchAttempt(e)
    case CleanupFailed(_, _) => false
  }

  ghost predicate Orderly(trace: seq<Event>) {
    && (trace != [] ==> LaunchAttempt(trace[0]))
    && (forall k :: 0 < k < |trace| ==> Follows(trace[k - 1], trace[k]))
  }

  /** The process is running and is to be awaited next. */
  ghost predicate AwaitsNext(trace: seq<Event>, process: nat) {
    && Orderly(trace) && trace != []
    && var last := trace[|trace| - 1];
      || (last.Launched? && last.process == process)
      || (last.Probed? && last.process == process && last.failure.Some? && TransportPending(last.failure.value))
  }

  ghost predicate LaunchedSince(trace: seq<Event>, process: nat, since: nat) {
    Launched(process, since) in trace
  }

  const EXPIRED := IoError(TimedOut, "Host startup deadline expired")

  /** The error of an attempt, by the events that it ends with: when its time is up, the last probe's if there was one. */
  function AttemptError(trace: seq<Event>): IoError {
    if trace == [] then EXPIRED
    else
      match trace[|trace| - 1]
      case Waited(_, Exited(status)) => IoError(OtherKind, "owned Host process exited before readiness: " + status)
      case Waited(_, WaitFailed(error)) => error
      case Probed(_, _, _, Some(error)) => error
      case _ =>
        if RetryIsOpen(trace) then trace[|trace| - 2].failure.value else EXPIRED
  }

  /** The attempt's time is up after a transport error: the process was still running when last awaited. */
  predicate RetryIsOpen(trace: seq<Event>) {
    && |trace| >= 2 && trace[|trace| - 1].Waited? && trace[|trace| - 1].outcome.Running?
    && trace[|trace| - 2].Probed? && trace[|trace| - 2].failure.Some?
  }

  function MessageOf(e: Event): string
    requires Transient(e)
  {
    if e.LaunchFailed? then e.error.message else e.failure.value.message
  }

  /** The message of the first transient event. */
  function FirstMessage(trace: seq<Event>): Option<string> {
    if trace == [] then None
    else
      var earlier := FirstMessage(trace[..|trace| - 1]);
      var last := trace[|trace| - 1];
      if earlier.Some? then earlier else if Transient(last) then Some(MessageOf(last)) else None
  }

  lemma FirstMessageStep(trace: seq<Event>, e: Event)
    ensures FirstMessage(trace + [e])
         == if FirstMessage(trace).Some? then FirstMessage(trace) else if Transient(e) then Some(MessageOf(e)) else None
  {
    assert (trace + [e])[..|trace|] == trace;
  }

  lemma OrderlyStep(trace: seq<Event>, e: Event)
    requires Orderly(trace)
    requires if trace == [] then LaunchAttempt(e) else Follows(trace[|trace| - 1], e)
    ensures Orderly(trace + [e])
  {
    hide Follows, LaunchAttempt;
  }

  lemma InTimeStep(trace: seq<Event>, e: Event, deadline: nat)
    requires ProbesInTime(trace, deadline) && !e.Probed?
    ensures ProbesInTime(trace + [e], deadline)
  {
    hide AttemptDeadline;
    var all := trace + [e];
    assert forall k :: 0 <= k < |trace| ==> all[k] == trace[k];
  }

  lemma InTimeProbe(trace: seq<Event>, e: Event, since: nat, deadline: nat)
    requires ProbesInTime(trace, deadline) && e.Probed? && LaunchedSince(trace, e.process, since)
    requires e.until == Earlier(e.at + PROBE_BUDGET, AttemptDeadline(since, deadline))
    ensures ProbesInTime(trace + [e], deadline) && LaunchedSince(trace + [e], e.process, since)
  {
    hide AttemptDeadline;
    var all := trace + [e];
    assert forall k :: 0 <= k < |trace| ==> all[k] == trace[k];
    var j :| 0 <= j < |trace| && trace[j] == Launched(e.process, since);
    assert all[j] == trace[j];
  }

  ghost predicate Lawful(trace: seq<Event>) {
    CleanBeforeLaunch(trace) && NothingAfterFinal(trace) && RetriesHaveCause(trace) && Launches(trace) <= 2
  }

  lemma LawfulStep(trace: seq<Event>, e: Event)
    requires Lawful(trace)
    requires e.Launched? ==> e.process == Launches(trace) && AllGone(trace) && Launches(trace) < 2
    requires LaunchAttempt(e) || e.Probed? || e.Waited? ==> NoneFinal(trace)
    requires LaunchAttempt(e) ==> trace == [] || SomeTransient(trace)
    ensures Lawful(trace + [e])
    ensures NoneFinal(trace) && !Final(e) ==> NoneFinal(trace + [e])
    ensures SomeTransient(trace) || Transient(e) ==> SomeTransient(trace + [e])
    ensures Launches(trace + [e]) == Launches(trace) + if e.Launched? then 1 else 0
    ensures AllGone(trace) && !e.Launched? ==> AllGone(trace + [e])
    ensures forall p :: Cleaned(p) in trace + [e] <==> Cleaned(p) in trace || e == Cleaned(p)
  {
    var all := trace + [e];
    forall k | 0 <= k < |all| ensures all[..k] == trace[..k] {
    }
    assert trace[..|trace|] == trace;
    hide Final, Transient, AllGone;
    assert NothingAfterFinal(all);
    if Transient(e) {
      assert all[|trace|] == e;
    }
    if SomeTransient(trace) {
      var i :| 0 <= i < |trace| && Transient(trace[i]);
      assert all[i] == trace[i];
    }
    hide SomeTransient;
    forall i, k | 0 <= i < k < |all| && LaunchAttempt(all[i]) && LaunchAttempt(all[k]) ensures SomeTransient(all[..k]) {
      assert k < |trace| ==> SomeTransient(trace[..k]);
    }
  }

  /** Nothing runs, nothing has failed for good, and only earlier processes have been probed. */
  ghost predicate Quiet(trace: seq<Event>) {
    && Lawful(trace) && NoneFinal(trace) && AllGone(trace) && FewProbes(trace) && (trace == [] || SomeTransient(trace))
    && (forall p: nat :: p >= Launches(trace) ==> Probes(trace, p) == 0 && Cleaned(p) !in trace)
  }

  lemma QuietLaunchFailure(trace: seq<Event>, error: IoError)
    requires Quiet(trace)
    ensures var after := trace + [LaunchFailed(error)];
      && Lawful(after) && AllGone(after) && FewProbes(after) && Launches(after) == Launches(trace)
      && (SpawnPending(error) ==> Quiet(after))
  {
    var e := LaunchFailed(error);
    LawfulStep(trace, e);
    forall p: nat ensures Probes(trace + [e], p) == Probes(trace, p) {
    }
  }

  /** Only process p runs; every earlier one is gone, and so far it has been probed n times. */
  ghost predicate OneRuns(trace: seq<Event>, process: nat, n: nat) {
    && Lawful(trace) && Launches(trace) == process + 1
    && Probes(trace, process) == n <= ATTEMPT_BUDGET / PROBE_INTERVAL
    && FewProbes(trace)
    && (forall p: nat :: p != process ==> (Cleaned(p) in trace <==> p < process))
    && Cleaned(process) !in trace
    && (forall p: nat :: p > process ==> Probes(trace, p) == 0)
  }

  ghost predicate StillRuns(trace: seq<Event>, process: nat) {
    exists n: nat :: OneRuns(trace, process, n)
  }

  lemma RunningIsLawful(trace: seq<Event>, process: nat, n: nat)
    requires OneRuns(trace, process, n)
    ensures StillRuns(trace, process)
    ensures Lawful(trace) && FewProbes(trace) && Launches(trace) == process + 1
  {
  }

  lemma WatchedIsLawful(trace: seq<Event>, process: nat)
    requires StillRuns(trace, process)
    ensures Lawful(trace) && FewProbes(trace) && Launches(trace) == process + 1
  {
  }

  lemma QuietAtFirst()
    ensures Quiet([]) && Lawful([]) && FewProbes([]) && AllGone([]) && Launches([]) == 0
  {
  }

  lemma LaunchWhenQuiet(trace: seq<Event>, since: nat)
    requires Quiet(trace) && Launches(trace) < 2
    ensures OneRuns(trace + [Launched(Launches(trace), since)], Launches(trace), 0)
    ensures NoneFinal(trace + [Launched(Launches(trace), since)])
  {
    var e := Launched(Launches(trace), since);
    LawfulStep(trace, e);
    forall p: nat ensures Probes(trace + [e], p) == Probes(trace, p) {
    }
  }

  lemma ProbeRunning(trace: seq<Event>, process: nat, n: nat, e: Event)
    requires OneRuns(trace, process, n) && NoneFinal(trace) && n < ATTEMPT_BUDGET / PROBE_INTERVAL
    requires e.Probed? && e.process == process
    ensures OneRuns(trace + [e], process, n + 1)
    ensures e.failure.None? || TransportPending(e.failure.value) ==> NoneFinal(trace + [e])
    ensures SomeTransient(trace) || (e.failure.Some? && TransportPending(e.failure.value)) ==> SomeTransient(trace + [e])
  {
    LawfulStep(trace, e);
    forall p: nat ensures Probes(trace + [e], p) == Probes(trace, p) + if p == process then 1 else 0 {
    }
  }

  lemma WaitRunning(trace: seq<Event>, process: nat, n: nat, outcome: WaitOutcome)
    requires OneRuns(trace, process, n) && NoneFinal(trace)
    ensures OneRuns(trace + [Waited(process, outcome)], process, n)
    ensures outcome.Running? ==> NoneFinal(trace + [Waited(process, outcome)])
    ensures SomeTransient(trace) ==> SomeTransient(trace + [Waited(process, outcome)])
  {
    var e := Waited(process, outcome);
    LawfulStep(trace, e);
    forall p: nat ensures Probes(trace + [e], p) == Probes(trace, p) {
    }
  }

  /** A confirmed cleanup leaves nothing running; a failed one leaves the process where it was. */
  lemma CleanRunning(trace: seq<Event>, process: nat, e: Event)
    requires StillRuns(trace, process)
    requires e == Cleaned(process) || (e.CleanupFailed? && e.process == process)
    ensures var after := trace + [e];
      && Lawful(after) && FewProbes(after) && Launches(after) == process + 1
      && (e.Cleaned? ==> AllGone(after))
      && (e.Cleaned? && NoneFinal(trace) && SomeTransient(trace) ==> Quiet(after))
  {
    var after := trace + [e];
    LawfulStep(trace, e);
    forall p: nat ensures Probes(after, p) == Probes(trace, p) {
    }
    if NoneFinal(trace) {
      assert NoneFinal(after);
    }
  }

  /******* Record and surroundings *******/

  /** How often each part of the surroundings was called. */
  datatype Calls = Calls(spawn: nat, wait: nat, probe: nat, cleanup: nat)

  function OneMoreCall(calls: Calls, e: Event): Calls {
    match e
    case Launched(_, _) => calls.(spawn := calls.spawn + 1)
    case LaunchFailed(_) => calls.(spawn := calls.spawn + 1)
    case Waited(_, _) => calls.(wait := calls.wait + 1)
    case Probed(_, _, _, _) => calls.(probe := calls.probe + 1)
    case Cleaned(_) => calls.(cleanup := calls.cleanup + 1)
    case CleanupFailed(_, _) => calls.(cleanup := calls.cleanup + 1)
  }

  function CallsIn(trace: seq<Event>): Calls {
    if trace == [] then Calls(0, 0, 0, 0)
    else OneMoreCall(CallsIn(trace[..|trace| - 1]), trace[|trace| - 1])
  }

  function FailureOf<T>(result: Result<T, IoError>): Option<IoError> {
    if result.Success? then None else Some(result.error)
  }

  /** The event is what the surroundings answered to the call it records. */
  ghost predicate Answered<T(!new)>(surroundings: Surroundings<T>, calls: Calls, e: Event) {
    match e {
      case Launched(_, _) => surroundings.spawn(calls.spawn).None?
      case LaunchFailed(error) => surroundings.spawn(calls.spawn) == Some(error)
      case Waited(_, outcome) => surroundings.wait(calls.wait) == outcome
      case Probed(_, _, until, failure) => FailureOf(surroundings.probe(calls.probe, until)) == failure
      case Cleaned(_) => surroundings.cleanup(calls.cleanup).None?
      case CleanupFailed(_, error) => surroundings.cleanup(calls.cleanup) == Some(error)
    }
  }

  /** Every event in the record is a call that was made, in order, with the answer it got. */
  ghost predicate Replays<T(!new)>(surroundings: Surroundings<T>, trace: seq<Event>) {
    forall k :: 0 <= k < |trace| ==> Answered(surroundings, CallsIn(trace[..k]), trace[k])
  }

  lemma ReplayStep<T(!new)>(surroundings: Surroundings<T>, trace: seq<Event>, e: Event)
    requires Replays(surroundings, trace) && Answered(surroundings, CallsIn(trace), e)
    ensures Replays(surroundings, trace + [e]) && CallsIn(trace + [e]) == OneMoreCall(CallsIn(trace), e)
  {
    hide Answered;
    var all := trace + [e];
    assert all[..|trace|] == trace;
    forall k | 0 <= k < |all| ensures Answered(surroundings, CallsIn(all[..k]), all[k]) {
      if k < |trace| {
        assert all[..k] == trace[..k];
      }
    }
  }

  /******* Recording one event *******/

  lemma LastIsFinal(trace: seq<Event>, e: Event)
    ensures NoneFinal(trace + [e]) <==> NoneFinal(trace) && !Final(e)
  {
    hide Final;
    var all := trace + [e];
    assert all[|trace|] == e && forall k :: 0 <= k < |trace| ==> all[k] == trace[k];
  }

  ghost predicate Kept<T(!new)>(surroundings: Surroundings<T>, trace: seq<Event>, calls: Calls, deadline: nat) {
    Replays(surroundings, trace) && CallsIn(trace) == calls && Orderly(trace) && ProbesInTime(trace, deadline)
  }

  lemma NothingKept<T(!new)>(surroundings: Surroundings<T>, deadline: nat)
    ensures BetweenAttempts(surroundings, [], Calls(0, 0, 0, 0), deadline, 0, None)
  {
    QuietAtFirst();
  }

  /** The record is in order and a launch may come next. */
  ghost predicate AwaitsLaunch(trace: seq<Event>) {
    Orderly(trace) && (trace == [] || trace[|trace| - 1].Cleaned? || trace[|trace| - 1].LaunchFailed?)
  }

  /** The process is not ready and is to be cleaned up. */
  ghost predicate AwaitsCleanup(trace: seq<Event>, process: nat) {
    && trace != []
    && var last := trace[|trace| - 1];
      || (last.Waited? && last.process == process)
      || (last.Probed? && last.process == process && last.failure.Some? && !TransportPending(last.failure.value))
  }

  lemma KeptStep<T(!new)>(surroundings: Surroundings<T>, trace: seq<Event>, calls: Calls, deadline: nat, e: Event)
    requires Kept(surroundings, trace, calls, deadline) && Answered(surroundings, calls, e) && !e.Probed?
    requires if trace == [] then LaunchAttempt(e) else Follows(trace[|trace| - 1], e)
    ensures Kept(surroundings, trace + [e], OneMoreCall(calls, e), deadline) && Orderly(trace + [e])
  {
    ReplayStep(surroundings, trace, e);
    OrderlyStep(trace, e);
    InTimeStep(trace, e, deadline);
    hide Replays, CallsIn, Orderly, ProbesInTime;
  }

  lemma KeptProbe<T(!new)>(surroundings: Surroundings<T>, trace: seq<Event>, calls: Calls, deadline: nat, e: Event, since: nat)
    requires Kept(surroundings, trace, calls, deadline) && Answered(surroundings, calls, e) && e.Probed?
    requires trace != [] && Follows(trace[|trace| - 1], e) && LaunchedSince(trace, e.process, since)
    requires e.until == Earlier(e.at + PROBE_BUDGET, AttemptDeadline(since, deadline))
    ensures Kept(surroundings, trace + [e], OneMoreCall(calls, e), deadline) && Orderly(trace + [e])
    ensures LaunchedSince(trace + [e], e.process, since)
  {
    ReplayStep(surroundings, trace, e);
    OrderlyStep(trace, e);
    InTimeProbe(trace, e, since, deadline);
    hide Replays, CallsIn, Orderly, ProbesInTime, LaunchedSince, AttemptDeadline;
  }

  lemma RecordRefusal<T(!new)>(surroundings: Surroundings<T>, trace: seq<Event>, calls: Calls, deadline: nat, error: IoError)
    requires Kept(surroundings, trace, calls, deadline) && Quiet(trace) && AwaitsLaunch(trace)
    requires surroundings.spawn(calls.spawn) == Some(error)
    ensures var after := trace + [LaunchFailed(error)];
      && Kept(surroundings, after, calls.(spawn := calls.spawn + 1), deadline) && Launches(after) == Launches(trace)
      && Lawful(after) && AllGone(after) && FewProbes(after) && AwaitsLaunch(after)
      && (SpawnPending(error) ==> Quiet(after))
      && (!SpawnPending(error) ==> !NoneFinal(after))
      && (SpawnPending(error) ==>
            FirstMessage(after) == if FirstMessage(trace).Some? then FirstMessage(trace) else Some(error.message))
  {
    var e := LaunchFailed(error);
    QuietLaunchFailure(trace, error);
    LastIsFinal(trace, e);
    FirstMessageStep(trace, e);
    KeptStep(surroundings, trace, calls, deadline, e);
    hide Kept, Quiet, Lawful, AllGone, FewProbes, NoneFinal, FirstMessage, Orderly, ProbesInTime, Launches;
  }

  lemma RecordLaunch<T(!new)>(surroundings: Surroundings<T>, trace: seq<Event>, calls: Calls, deadline: nat, since: nat)
    requires Kept(surroundings, trace, calls, deadline) && Quiet(trace) && AwaitsLaunch(trace) && Launches(trace) < 2
    requires surroundings.spawn(calls.spawn).None?
    ensures var process := Launches(trace); var after := trace + [Launched(process, since)];
      && Kept(surroundings, after, calls.(spawn := calls.spawn + 1), deadline) && Launches(after) == process + 1
      && OneRuns(after, process, 0) && NoneFinal(after) && AwaitsNext(after, process) && LaunchedSince(after, process, since)
      && FirstMessage(after) == FirstMessage(trace)
  {
    var process := Launches(trace);
    var e := Launched(process, since);
    LaunchWhenQuiet(trace, since);
    RunningIsLawful(trace + [e], process, 0);
    FirstMessageStep(trace, e);
    KeptStep(surroundings, trace, calls, deadline, e);
    assert (trace + [e])[|trace|] == e;
    hide Kept, Quiet, Lawful, NoneFinal, OneRuns, FirstMessage, Orderly, ProbesInTime, Launches;
  }

  lemma LaunchedStays(trace: seq<Event>, e: Event, process: nat, since: nat)
    requires LaunchedSince(trace, process, since)
    ensures LaunchedSince(trace + [e], process, since)
  {
    var j :| 0 <= j < |trace| && trace[j] == Launched(process, since);
    assert (trace + [e])[j] == trace[j];
  }

  lemma RecordWait<T(!new)>(surroundings: Surroundings<T>, trace: seq<Event>, calls: Calls, deadline: nat,
                            process: nat, n: nat, since: nat)
    requires Kept(surroundings, trace, calls, deadline) && OneRuns(trace, process, n) && NoneFinal(trace)
    requires AwaitsNext(trace, process) && LaunchedSince(trace, process, since)
    ensures var status := surroundings.wait(calls.wait); var after := trace + [Waited(process, status)];
      && Kept(surroundings, after, calls.(wait := calls.wait + 1), deadline)
      && OneRuns(after, process, n) && StillRuns(after, process) && LaunchedSince(after, process, since)
      && FirstMessage(after) == FirstMessage(trace) && (status.Running? <==> NoneFinal(after))
      && (SomeTransient(trace) ==> SomeTransient(after))
  {
    var status := surroundings.wait(calls.wait);
    var e := Waited(process, status);
    hide *;
    WaitRunning(trace, process, n, status);
    RunningIsLawful(trace + [e], process, n);
    LaunchedStays(trace, e, process, since);
    LastIsFinal(trace, e);
    FirstMessageStep(trace, e);
    AfterWait(surroundings, trace, calls, process);
    KeptStep(surroundings, trace, calls, deadline, e);
  }

  lemma AfterWait<T(!new)>(surroundings: Surroundings<T>, trace: seq<Event>, calls: Calls, process: nat)
    requires AwaitsNext(trace, process)
    ensures var status := surroundings.wait(calls.wait); var e := Waited(process, status);
      && Answered(surroundings, calls, e) && OneMoreCall(calls, e) == calls.(wait := calls.wait + 1)
      && trace != [] && Follows(trace[|trace| - 1], e) && !Transient(e) && (Final(e) <==> !status.Running?)
  {
  }

  lemma AfterProbe<T(!new)>(surroundings: Surroundings<T>, trace: seq<Event>, calls: Calls, process: nat, at: nat, until: nat)
    ensures var result := surroundings.probe(calls.probe, until); var e := Probed(process, at, until, FailureOf(result));
      && Answered(surroundings, calls, e) && OneMoreCall(calls, e) == calls.(probe := calls.probe + 1)
      && Follows(Waited(process, Running), e) && e.failure == FailureOf(result)
      && (e.failure.Some? <==> result.Failure?) && (result.Failure? ==> e.failure == Some(result.error))
      && (Final(e) <==> result.Failure? && !TransportPending(result.error))
      && (Transient(e) <==> result.Failure? && TransportPending(result.error))
      && (Transient(e) ==> MessageOf(e) == result.error.message)
      && (Transient(e) && Orderly(trace + [e]) ==> AwaitsNext(trace + [e], process))
  {
    var result := surroundings.probe(calls.probe, until);
    var e := Probed(process, at, until, FailureOf(result));
    hide TransportPending, Orderly;
    assert (trace + [e])[|trace|] == e;
  }

  lemma RecordCleanup<T(!new)>(surroundings: Surroundings<T>, trace: seq<Event>, calls: Calls, deadline: nat, process: nat)
    requires Kept(surroundings, trace, calls, deadline) && StillRuns(trace, process) && AwaitsCleanup(trace, process)
    ensures var error := surroundings.cleanup(calls.cleanup);
      var after := trace + [if error.None? then Cleaned(process) else CleanupFailed(process, error.value)];
      && Kept(surroundings, after, calls.(cleanup := calls.cleanup + 1), deadline) && FirstMessage(after) == FirstMessage(trace)
      && Lawful(after) && FewProbes(after) && Launches(after) == process + 1
      && (error.None? ==> AllGone(after) && AwaitsLaunch(after))
      && (error.None? && NoneFinal(trace) && SomeTransient(trace) ==> Quiet(after))
      && (NoneFinal(trace) <==> NoneFinal(after))
  {
    var error := surroundings.cleanup(calls.cleanup);
    var e := if error.None? then Cleaned(process) else CleanupFailed(process, error.value);
    hide *;
    CleanRunning(trace, process, e);
    LastIsFinal(trace, e);
    FirstMessageStep(trace, e);
    AfterCleanup(surroundings, trace, calls, process);
    KeptStep(surroundings, trace, calls, deadline, e);
  }

  lemma AfterCleanup<T(!new)>(surroundings: Surroundings<T>, trace: seq<Event>, calls: Calls, process: nat)
    requires AwaitsCleanup(trace, process)
    ensures var error := surroundings.cleanup(calls.cleanup);
      var e := if error.None? then Cleaned(process) else CleanupFailed(process, error.value);
      && Answered(surroundings, calls, e) && OneMoreCall(calls, e) == calls.(cleanup := calls.cleanup + 1)
      && trace != [] && Follows(trace[|trace| - 1], e) && !Transient(e) && !Final(e)
      && (error.None? && Orderly(trace + [e]) ==> AwaitsLaunch(trace + [e]))
  {
    hide Orderly;
  }

  /******* One attempt *******/

  /** A transport error is pending after the probe that met it, and none after the launch. */
  predicate Pending(e: Event, pending: Option<IoError>) {
    if pending.Some? then e.Probed? && e.failure == pending else e.Launched?
  }

  /** The process is to be awaited next. */
  ghost predicate Underway<T(!new)>(surroundings: Surroundings<T>, trace: seq<Event>, calls: Calls, deadline: nat, process: nat,
                                    n: nat, since: nat, pending: Option<IoError>, first: Option<string>)
  {
    && Kept(surroundings, trace, calls, deadline) && OneRuns(trace, process, n) && NoneFinal(trace)
    && AwaitsNext(trace, process) && LaunchedSince(trace, process, since) && first == FirstMessage(trace)
    && trace != [] && Pending(trace[|trace| - 1], pending) && (pending.Some? ==> SomeTransient(trace) && first.Some?)
  }

  /** The process has just been awaited. */
  ghost predicate Awaited<T(!new)>(surroundings: Surroundings<T>, trace: seq<Event>, calls: Calls, deadline: nat, process: nat,
                                   n: nat, since: nat, pending: Option<IoError>, first: Option<string>, status: WaitOutcome)
  {
    && Kept(surroundings, trace, calls, deadline) && OneRuns(trace, process, n) && StillRuns(trace, process)
    && LaunchedSince(trace, process, since) && first == FirstMessage(trace)
    && |trace| >= 2 && trace[|trace| - 1] == Waited(process, status) && Pending(trace[|trace| - 2], pending)
    && (status.Running? <==> NoneFinal(trace)) && (pending.Some? ==> SomeTransient(trace) && first.Some?)
  }

  /** The attempt has ended without a ready process, for the reason that is recorded last. */
  ghost predicate GivenUp<T(!new)>(surroundings: Surroundings<T>, trace: seq<Event>, calls: Calls, deadline: nat, process: nat,
                                   error: IoError, canRetry: bool, first: Option<string>)
  {
    && Kept(surroundings, trace, calls, deadline) && StillRuns(trace, process) && AwaitsCleanup(trace, process)
    && first == FirstMessage(trace) && error == AttemptError(trace)
    && (canRetry <==> NoneFinal(trace) && RetryIsOpen(trace)) && (canRetry ==> SomeTransient(trace) && first.Some?)
    && (NoneFinal(trace) && !canRetry ==> |trace| >= 2 && trace[|trace| - 2].Launched?)
  }

  /** The last event is the probe of this process that found it ready, with this value. */
  ghost predicate GotReady<T(!new)>(surroundings: Surroundings<T>, trace: seq<Event>, calls: Calls, deadline: nat, process: nat, value: T) {
    && Kept(surroundings, trace, calls, deadline) && StillRuns(trace, process) && NoneFinal(trace)
    && trace != [] && trace[|trace| - 1].Probed? && trace[|trace| - 1].process == process
    && calls.probe > 0 && surroundings.probe(calls.probe - 1, trace[|trace| - 1].until) == Success(value)
  }

  lemma WaitOnce<T(!new)>(surroundings: Surroundings<T>, trace: seq<Event>, calls: Calls, deadline: nat, process: nat,
                          n: nat, since: nat, pending: Option<IoError>, first: Option<string>)
    requires Underway(surroundings, trace, calls, deadline, process, n, since, pending, first)
    ensures var status := surroundings.wait(calls.wait);
      Awaited(surroundings, trace + [Waited(process, status)], calls.(wait := calls.wait + 1), deadline, process, n, since, pending, first, status)
  {
    RecordWait(surroundings, trace, calls, deadline, process, n, since);
    hide Kept, OneRuns, NoneFinal, StillRuns, AwaitsNext, LaunchedSince, FirstMessage, SomeTransient, Pending;
  }

  /** What an attempt reports that ends after this wait: an exit, a failing wait, or the end of its time. */
  function WaitError(status: WaitOutcome, pending: Option<IoError>): IoError {
    match status
    case Exited(code) => IoError(OtherKind, "owned Host process exited before readiness: " + code)
    case WaitFailed(error) => error
    case Running => if pending.Some? then pending.value else EXPIRED
  }

  lemma EndsAwaited<T(!new)>(surroundings: Surroundings<T>, trace: seq<Event>, calls: Calls, deadline: nat, process: nat,
                             n: nat, since: nat, pending: Option<IoError>, first: Option<string>, status: WaitOutcome)
    requires Awaited(surroundings, trace, calls, deadline, process, n, since, pending, first, status)
    ensures
      && GivenUp(surroundings, trace, calls, deadline, process, WaitError(status, pending), status.Running? && pending.Some?, first)
      && (NoneFinal(trace) <==> status.Running?)
  {
    hide Kept, OneRuns, NoneFinal, StillRuns, LaunchedSince, FirstMessage, SomeTransient;
  }

  lemma ProbeOnce<T(!new)>(surroundings: Surroundings<T>, trace: seq<Event>, calls: Calls, deadline: nat, process: nat,
                           n: nat, since: nat, pending: Option<IoError>, first: Option<string>, at: nat, until: nat)
    requires Awaited(surroundings, trace, calls, deadline, process, n, since, pending, first, Running)
    requires n < ATTEMPT_BUDGET / PROBE_INTERVAL && until == Earlier(at + PROBE_BUDGET, AttemptDeadline(since, deadline))
    ensures var result := surroundings.probe(calls.probe, until);
      var after, counted := trace + [Probed(process, at, until, FailureOf(result))], calls.(probe := calls.probe + 1);
      && (result.Success? ==> GotReady(surroundings, after, counted, deadline, process, result.value))
      && (result.Failure? && TransportPending(result.error) ==>
            Underway(surroundings, after, counted, deadline, process, n + 1, since, Some(result.error),
                     if first.Some? then first else Some(result.error.message)))
      && (result.Failure? && !TransportPending(result.error) ==>
            GivenUp(surroundings, after, counted, deadline, process, result.error, false, first) && !NoneFinal(after))
  {
    hide *;
    AwaitedMeans(surroundings, trace, calls, deadline, process, n, since, pending, first, Running);
    var result := surroundings.probe(calls.probe, until);
    var e := Probed(process, at, until, FailureOf(result));
    var after, counted := trace + [e], calls.(probe := calls.probe + 1);
    ProbeRunning(trace, process, n, e);
    RunningIsLawful(after, process, n + 1);
    LastIsFinal(trace, e);
    FirstMessageStep(trace, e);
    AfterProbe(surroundings, trace, calls, process, at, until);
    KeptProbe(surroundings, trace, calls, deadline, e, since);
    ProbeEnds(surroundings, after, counted, deadline, process, n + 1, since, at, until, FirstMessage(after), result);
  }

  lemma AwaitedMeans<T(!new)>(surroundings: Surroundings<T>, trace: seq<Event>, calls: Calls, deadline: nat, process: nat,
                              n: nat, since: nat, pending: Option<IoError>, first: Option<string>, status: WaitOutcome)
    requires Awaited(surroundings, trace, calls, deadline, process, n, since, pending, first, status)
    ensures Kept(surroundings, trace, calls, deadline) && OneRuns(trace, process, n) && LaunchedSince(trace, process, since)
    ensures trace != [] && trace[|trace| - 1] == Waited(process, status) && first == FirstMessage(trace)
    ensures status.Running? <==> NoneFinal(trace)
  {
    hide Kept, OneRuns, StillRuns, LaunchedSince, FirstMessage, NoneFinal, SomeTransient, Pending;
  }

  /** What a probe's answer leads to. */
  lemma ProbeEnds<T(!new)>(surroundings: Surroundings<T>, after: seq<Event>, calls: Calls, deadline: nat, process: nat,
                           n: nat, since: nat, at: nat, until: nat, first: Option<string>, result: Result<T, IoError>)
    requires calls.probe > 0 && result == surroundings.probe(calls.probe - 1, until)
    requires after != [] && after[|after| - 1] == Probed(process, at, until, FailureOf(result))
    requires Kept(surroundings, after, calls, deadline) && OneRuns(after, process, n) && StillRuns(after, process)
    requires LaunchedSince(after, process, since) && first == FirstMessage(after)
    requires result.Success? || TransportPending(result.error) <==> NoneFinal(after)
    requires result.Failure? && TransportPending(result.error) ==> SomeTransient(after) && AwaitsNext(after, process) && first.Some?
    ensures result.Success? ==> GotReady(surroundings, after, calls, deadline, process, result.value)
    ensures result.Failure? && TransportPending(result.error) ==>
      Underway(surroundings, after, calls, deadline, process, n, since, Some(result.error), first)
    ensures result.Failure? && !TransportPending(result.error) ==>
      GivenUp(surroundings, after, calls, deadline, process, result.error, false, first)
  {
    hide Kept, OneRuns, NoneFinal, StillRuns, AwaitsNext, LaunchedSince, FirstMessage, SomeTransient, TransportPending;
  }

  /** Between attempts: nothing runs, and a launch may come next. */
  ghost predicate BetweenAttempts<T(!new)>(surroundings: Surroundings<T>, trace: seq<Event>, calls: Calls, deadline: nat,
                                           started: nat, first: Option<string>)
  {
    Kept(surroundings, trace, calls, deadline) && Quiet(trace) && AwaitsLaunch(trace) && Launches(trace) == started
    && first == FirstMessage(trace)
  }

  lemma LaunchOnce<T(!new)>(surroundings: Surroundings<T>, trace: seq<Event>, calls: Calls, deadline: nat,
                            started: nat, first: Option<string>, since: nat)
    requires BetweenAttempts(surroundings, trace, calls, deadline, started, first) && started < 2
    requires surroundings.spawn(calls.spawn).None?
    ensures var after := trace + [Launched(started, since)];
      && Underway(surroundings, after, calls.(spawn := calls.spawn + 1), deadline, started, 0, since, None, first)
      && Launches(after) == started + 1
  {
    RecordLaunch(surroundings, trace, calls, deadline, since);
    hide Kept, Quiet, OneRuns, NoneFinal, AwaitsNext, AwaitsLaunch, LaunchedSince, FirstMessage, SomeTransient, Launches;
  }

  lemma RefuseOnce<T(!new)>(surroundings: Surroundings<T>, trace: seq<Event>, calls: Calls, deadline: nat,
                            started: nat, first: Option<string>, refused: IoError)
    requires BetweenAttempts(surroundings, trace, calls, deadline, started, first)
    requires surroundings.spawn(calls.spawn) == Some(refused)
    ensures var after, counted := trace + [LaunchFailed(refused)], calls.(spawn := calls.spawn + 1);
      && InOrder(surroundings, after, counted, deadline, started) && AllGone(after)
      && (SpawnPending(refused) ==>
            BetweenAttempts(surroundings, after, counted, deadline, started, if first.Some? then first else Some(refused.message)))
      && (!SpawnPending(refused) ==> !NoneFinal(after))
  {
    RecordRefusal(surroundings, trace, calls, deadline, refused);
    hide Kept, Quiet, NoneFinal, AwaitsLaunch, FirstMessage, Launches, SpawnPending;
  }

  lemma CleanOnce<T(!new)>(surroundings: Surroundings<T>, trace: seq<Event>, calls: Calls, deadline: nat, process: nat,
                           error: IoError, canRetry: bool, first: Option<string>)
    requires GivenUp(surroundings, trace, calls, deadline, process, error, canRetry, first)
    ensures var failure := surroundings.cleanup(calls.cleanup); var counted := calls.(cleanup := calls.cleanup + 1);
      var after := trace + [CleanupEvent(process, failure)];
      && InOrder(surroundings, after, counted, deadline, process + 1) && first == FirstMessage(after)
      && (failure.None? ==> AllGone(after))
      && (failure.None? && canRetry ==> BetweenAttempts(surroundings, after, counted, deadline, process + 1, first))
      && (NoneFinal(trace) <==> NoneFinal(after))
  {
    RecordCleanup(surroundings, trace, calls, deadline, process);
    hide Kept, StillRuns, Quiet, NoneFinal, AwaitsLaunch, AwaitsCleanup, FirstMessage, Launches, SomeTransient, AttemptError, RetryIsOpen;
  }

  /******* Giving up *******/

  /** The record is true, in order and lawful. */
  ghost predicate InOrder<T(!new)>(surroundings: Surroundings<T>, trace: seq<Event>, calls: Calls, deadline: nat, started: nat) {
    Kept(surroundings, trace, calls, deadline) && Lawful(trace) && FewProbes(trace) && Launches(trace) == started
  }

  /**
   It gives up only after a final event, a failed cleanup, when time is up, or when every attempt has had
   its time and there were two, or the last had no probe at all.
   */
  ghost predicate MayGiveUp(trace: seq<Event>, spawns: nat, begun: nat, now: nat, deadline: nat) {
    || !NoneFinal(trace)
    || (trace != [] && trace[|trace| - 1].CleanupFailed?)
    || now + 250 >= deadline
    || (&& now >= begun + 6000 * Launches(trace)
        && (spawns == 2 || (|trace| >= 3 && trace[|trace| - 3].Launched?)))
  }

  /** What it reports: the first transient error, the error of the last attempt or launch, and that of the cleanup. */
  ghost predicate Reports(trace: seq<Event>, now: nat, deadline: nat, error: StartupError) {
    || (now >= deadline && AwaitsLaunch(trace) && error == StartupError(FirstMessage(trace), EXPIRED, None))
    || (&& trace != []
        && var last, before := trace[|trace| - 1], trace[..|trace| - 1];
          match last
          case LaunchFailed(refused) => error == StartupError(FirstMessage(before), refused, None)
          case Cleaned(_) => error == StartupError(FirstMessage(trace), AttemptError(before), None)
          case CleanupFailed(_, failure) => error == StartupError(FirstMessage(trace), AttemptError(before), Some(failure))
          case _ => false)
  }

  /** It has failed for a reason, reports it, and everything it launched is gone unless a cleanup failed. */
  ghost predicate Failed(trace: seq<Event>, spawns: nat, begun: nat, now: nat, deadline: nat, error: StartupError) {
    MayGiveUp(trace, spawns, begun, now, deadline) && Reports(trace, now, deadline, error)
    && (error.cleanup.None? ==> AllGone(trace))
  }

  lemma GivesUpExpired(trace: seq<Event>, spawns: nat, begun: nat, now: nat, deadline: nat)
    requires now >= deadline && AwaitsLaunch(trace) && AllGone(trace)
    ensures Failed(trace, spawns, begun, now, deadline, StartupError(FirstMessage(trace), EXPIRED, None))
  {
    hide AllGone, AwaitsLaunch, FirstMessage, NoneFinal, Launches;
  }

  lemma GivesUpRefused(was: seq<Event>, refused: IoError, spawns: nat, begun: nat, now: nat, deadline: nat)
    requires var trace := was + [LaunchFailed(refused)];
      && AllGone(trace)
      && (|| !NoneFinal(trace) || now + CLEANUP_RESERVE >= deadline
          || (spawns == 2 && now >= begun + ATTEMPT_BUDGET * Launches(trace)))
    ensures Failed(was + [LaunchFailed(refused)], spawns, begun, now, deadline, StartupError(FirstMessage(was), refused, None))
  {
    hide NoneFinal, FirstMessage, AwaitsLaunch, AttemptError, Launches, AllGone;
    assert (was + [LaunchFailed(refused)])[..|was|] == was;
  }

  function CleanupEvent(process: nat, failure: Option<IoError>): Event {
    if failure.None? then Cleaned(process) else CleanupFailed(process, failure.value)
  }

  lemma GivesUpCleaned(was: seq<Event>, process: nat, failure: Option<IoError>, spawns: nat, begun: nat, now: nat, deadline: nat)
    requires var trace := was + [CleanupEvent(process, failure)];
      && (failure.None? ==> AllGone(trace))
      && (|| failure.Some? || !NoneFinal(trace) || now + CLEANUP_RESERVE >= deadline
          || (&& now >= begun + ATTEMPT_BUDGET * Launches(trace)
              && (spawns == 2 || (|was| >= 2 && was[|was| - 2].Launched?))))
    ensures var trace := was + [CleanupEvent(process, failure)];
      Failed(trace, spawns, begun, now, deadline, StartupError(FirstMessage(trace), AttemptError(was), failure))
  {
    hide NoneFinal, FirstMessage, AwaitsLaunch, AttemptError, Launches, AllGone;
    var trace := was + [CleanupEvent(process, failure)];
    assert trace[..|was|] == was;
    assert |was| >= 2 ==> trace[|trace| - 3] == was[|was| - 2];
  }

  lemma LaunchesWhen<T(!new)>(surroundings: Surroundings<T>, trace: seq<Event>, calls: Calls, deadline: nat, started: nat)
    requires InOrder(surroundings, trace, calls, deadline, started)
    ensures Launches(trace) == started
  {
  }

  lemma BetweenIsLawful<T(!new)>(surroundings: Surroundings<T>, trace: seq<Event>, calls: Calls, deadline: nat,
                                 started: nat, first: Option<string>)
    requires BetweenAttempts(surroundings, trace, calls, deadline, started, first)
    ensures InOrder(surroundings, trace, calls, deadline, started)
    ensures AllGone(trace) && AwaitsLaunch(trace) && first == FirstMessage(trace)
  {
    hide Kept, Lawful, FewProbes, AllGone, Launches, AwaitsLaunch, FirstMessage;
  }

  lemma ReadyIsLawful<T(!new)>(surroundings: Surroundings<T>, trace: seq<Event>, calls: Calls, deadline: nat, process: nat, value: T)
    requires GotReady(surroundings, trace, calls, deadline, process, value)
    ensures InOrder(surroundings, trace, calls, deadline, process + 1)
  {
    WatchedIsLawful(trace, process);
    hide Kept, Lawful, FewProbes, Launches;
  }

  lemma WhyGivenUp<T(!new)>(surroundings: Surroundings<T>, trace: seq<Event>, calls: Calls, deadline: nat, process: nat,
                            error: IoError, canRetry: bool, first: Option<string>)
    requires GivenUp(surroundings, trace, calls, deadline, process, error, canRetry, first)
    ensures first == FirstMessage(trace) && error == AttemptError(trace) && (canRetry ==> first.Some?)
    ensures canRetry ==> NoneFinal(trace)
    ensures NoneFinal(trace) && !canRetry ==> |trace| >= 2 && trace[|trace| - 2].Launched?
  {
    hide Kept, StillRuns, AwaitsCleanup, FirstMessage, AttemptError, NoneFinal, SomeTransient, RetryIsOpen;
  }

  lemma AttemptIsShort(since: nat, deadline: nat)
    ensures AttemptDeadline(since, deadline) <= since + ATTEMPT_BUDGET
  {
  }

  /******* The launcher *******/

  class Launcher<T(!new)> {
    const surroundings: Surroundings<T>
    var now: nat
    var readings: nat
    var spawns: nat
    var started: nat
    var waits: nat
    var probes: nat
    var cleanups: nat
    ghost var trace: seq<Event>

    constructor (surroundings: Surroundings<T>)
      ensures trace == [] && started == 0 && spawns == waits == probes == cleanups == 0
      ensures this.surroundings == surroundings
    {
      this.surroundings := surroundings;
      now, readings, spawns, started, waits, probes, cleanups := 0, 0, 0, 0, 0, 0, 0;
      trace := [];
    }

    ghost function Made(): Calls
      reads this
    {
      Calls(spawns, waits, probes, cleanups)
    }

    method ReadClock()
      modifies this`now, this`readings
      ensures now == old(now) + surroundings.elapse(old(readings))
    {
      now := now + surroundings.elapse(readings);
      readings := readings + 1;
    }

    /** Time left before the deadline, or None once it has passed. */
    method Remaining(deadline: nat) returns (left: Option<nat>)
      modifies this`now, this`readings
      ensures now == old(now) + surroundings.elapse(old(readings))
      ensures left == if deadline > now then Some(deadline - now) else None
    {
      ReadClock();
      left := if deadline > now then Some(deadline - now) else None;
    }

    /** Sleeps one probe interval, or what is left before the deadline. */
    method Pause(deadline: nat)
      modifies this`now, this`readings
      ensures now >= old(now)
      ensures now >= deadline || now >= old(now) + 75
      ensures var read := old(now) + surroundings.elapse(old(readings));
        now == if read < deadline then Earlier(read + 75, deadline) else read
    {
      var left := Remaining(deadline);
      if left.Some? {
        now := now + if left.value < PROBE_INTERVAL then left.value else PROBE_INTERVAL;
      }
    }

    /** Launches a process, numbered by the successful launches before it, or reports why none exists. */
    method Spawn(ghost deadline: nat, ghost first: Option<string>) returns (refused: Option<IoError>)
      requires BetweenAttempts(surroundings, trace, Made(), deadline, started, first) && started < 2
      modifies this`spawns, this`started, this`trace, this`now, this`readings
      ensures now >= old(now) && spawns == old(spawns) + 1
      ensures trace == old(trace) + [if refused.Some? then LaunchFailed(refused.value) else Launched(old(started), now)]
      ensures started == if refused.None? then old(started) + 1 else old(started)
      ensures refused.None? ==> Underway(surroundings, trace, Made(), deadline, old(started), 0, now, None, first)
      ensures refused.Some? ==> InOrder(surroundings, trace, Made(), deadline, started) && AllGone(trace)
      ensures refused.Some? && SpawnPending(refused.value) ==>
        BetweenAttempts(surroundings, trace, Made(), deadline, started, if first.Some? then first else Some(refused.value.message))
      ensures refused.Some? && !SpawnPending(refused.value) ==> !NoneFinal(trace)
    {
      hide BetweenAttempts, Underway, InOrder, AllGone, NoneFinal, SpawnPending, Launches;
      refused := surroundings.spawn(spawns);
      if refused.Some? {
        RefuseOnce(surroundings, trace, Made(), deadline, started, first, refused.value);
        trace := trace + [LaunchFailed(refused.value)];
      } else {
        ReadClock();
        LaunchOnce(surroundings, trace, Made(), deadline, started, first, now);
        trace := trace + [Launched(started, now)];
        started := started + 1;
      }
      spawns := spawns + 1;
    }

    method TryWait(process: nat, ghost since: nat, ghost deadline: nat, ghost n: nat,
                   ghost pending: Option<IoError>, ghost first: Option<string>) returns (status: WaitOutcome)
      requires Underway(surroundings, trace, Made(), deadline, process, n, since, pending, first)
      modifies this`waits, this`trace
      ensures Awaited(surroundings, trace, Made(), deadline, process, n, since, pending, first, status)
      ensures NoneFinal(trace) <==> status.Running?
      ensures GivenUp(surroundings, trace, Made(), deadline, process, WaitError(status, pending), status.Running? && pending.Some?, first)
    {
      hide Underway, Awaited, GivenUp, NoneFinal, WaitError;
      WaitOnce(surroundings, trace, Made(), deadline, process, n, since, pending, first);
      status := surroundings.wait(waits);
      waits := waits + 1;
      trace := trace + [Waited(process, status)];
      EndsAwaited(surroundings, trace, Made(), deadline, process, n, since, pending, first, status);
    }

    method Probe(process: nat, until: nat, ghost since: nat, ghost deadline: nat, ghost n: nat,
                 ghost pending: Option<IoError>, ghost first: Option<string>) returns (result: Result<T, IoError>)
      requires Awaited(surroundings, trace, Made(), deadline, process, n, since, pending, first, Running)
      requires n < ATTEMPT_BUDGET / PROBE_INTERVAL && until == Earlier(now + PROBE_BUDGET, AttemptDeadline(since, deadline))
      modifies this`now, this`readings, this`probes, this`trace
      ensures now >= old(now)
      ensures result.Success? ==> GotReady(surroundings, trace, Made(), deadline, process, result.value)
      ensures result.Failure? && TransportPending(result.error) ==>
        Underway(surroundings, trace, Made(), deadline, process, n + 1, since, Some(result.error),
                 if first.Some? then first else Some(result.error.message))
      ensures result.Failure? && !TransportPending(result.error) ==>
        GivenUp(surroundings, trace, Made(), deadline, process, result.error, false, first) && !NoneFinal(trace)
    {
      hide Underway, Awaited, GivenUp, GotReady, NoneFinal, TransportPending, AttemptDeadline;
      ProbeOnce(surroundings, trace, Made(), deadline, process, n, since, pending, first, now, until);
      result := surroundings.probe(probes, until);
      trace := trace + [Probed(process, now, until, FailureOf(result))];
      probes := probes + 1;
      ReadClock();
    }

    /**
     Probes one launched process until it is ready, fails for good, exits or runs out of time, and gives
     up for no other reason. Only a transport error left over when time runs out makes a retry possible.
     */
    method Watch(process: nat, ghost since: nat, ghost deadline: nat, attemptDeadline: nat, first: Option<string>)
      returns (ready: Option<T>, error: IoError, canRetry: bool, firstError: Option<string>)
      requires Underway(surroundings, trace, Made(), deadline, process, 0, since, None, first)
      requires attemptDeadline == AttemptDeadline(since, deadline) && since <= now
      modifies this`now, this`readings, this`waits, this`probes, this`trace
      ensures now >= old(now)
      ensures ready.Some? ==> GotReady(surroundings, trace, Made(), deadline, process, ready.value)
      ensures ready.None? ==> GivenUp(surroundings, trace, Made(), deadline, process, error, canRetry, firstError)
      ensures ready.None? ==> !NoneFinal(trace) || now >= attemptDeadline
    {
      hide Underway, Awaited, GotReady, GivenUp, NoneFinal, TransportPending, AttemptDeadline;
      AttemptIsShort(since, deadline);
      ready, firstError := None, first;
      var pending: Option<IoError> := None;
      ghost var count: nat := 0;
      while true
        invariant Underway(surroundings, trace, Made(), deadline, process, count, since, pending, firstError)
        invariant now >= attemptDeadline || now >= old(now) + PROBE_INTERVAL * count
        invariant now >= old(now)
        decreases attemptDeadline - now
      {
        var status := TryWait(process, since, deadline, count, pending, firstError);
        if status.Exited? {
          return None, IoError(OtherKind, "owned Host process exited before readiness: " + status.status), false, firstError;
        }
        if status.WaitFailed? {
          return None, status.error, false, firstError;
        }
        var left := Remaining(attemptDeadline);
        if left.None? {
          var timeout := IoError(TimedOut, "Host startup deadline expired");
          return None, if pending.Some? then pending.value else timeout, pending.Some?, firstError;
        }
        ReadClock();
        var until := if attemptDeadline < now + PROBE_BUDGET then attemptDeadline else now + PROBE_BUDGET;
        var result := Probe(process, until, since, deadline, count, pending, firstError);
        count := count + 1;
        if result.Success? {
          return Some(result.value), IoError(OtherKind, ""), false, firstError;
        }
        if !TransportPending(result.error) {
          return None, result.error, false, firstError;
        }
        if firstError.None? {
          firstError := Some(result.error.message);
        }
        pending := Some(result.error);
        Pause(attemptDeadline);
      }
    }

    /** Kills and reaps the process tree; None means that it is gone. */
    method CleanUp(process: nat, ghost deadline: nat, ghost reason: IoError, ghost canRetry: bool, ghost first: Option<string>)
      returns (error: Option<IoError>)
      requires GivenUp(surroundings, trace, Made(), deadline, process, reason, canRetry, first)
      modifies this`trace, this`cleanups, this`now, this`readings
      ensures now >= old(now)
      ensures trace == old(trace) + [CleanupEvent(process, error)] && first == FirstMessage(trace)
      ensures InOrder(surroundings, trace, Made(), deadline, process + 1)
      ensures error.None? ==> AllGone(trace)
      ensures error.None? && canRetry ==> BetweenAttempts(surroundings, trace, Made(), deadline, process + 1, first)
      ensures NoneFinal(old(trace)) <==> NoneFinal(trace)
    {
      hide GivenUp, FirstMessage, InOrder, AllGone, BetweenAttempts, NoneFinal, CleanupEvent;
      CleanOnce(surroundings, trace, Made(), deadline, process, reason, canRetry, first);
      error := surroundings.cleanup(cleanups);
      trace := trace + [CleanupEvent(process, error)];
      cleanups := cleanups + 1;
      ReadClock();
    }

    /** Cleans up after an attempt; None means that another may follow. */
    method EndAttempt(process: nat, deadline: nat, error: IoError, canRetry: bool, last: bool, first: Option<string>, ghost begun: nat)
      returns (failed: Option<StartupError>)
      requires GivenUp(surroundings, trace, Made(), deadline, process, error, canRetry, first)
      requires started == process + 1 && (last ==> spawns == 2)
      requires !NoneFinal(trace) || now + CLEANUP_RESERVE >= deadline || now >= begun + ATTEMPT_BUDGET * started
      modifies this`trace, this`cleanups, this`now, this`readings
      ensures now >= old(now)
      ensures failed.Some? ==>
        InOrder(surroundings, trace, Made(), deadline, started) && Failed(trace, spawns, begun, now, deadline, failed.value)
      ensures failed.None? ==> BetweenAttempts(surroundings, trace, Made(), deadline, started, first) && !last && first.Some?
      ensures failed.None? ==> now + CLEANUP_RESERVE >= deadline || now >= begun + ATTEMPT_BUDGET * started
    {
      hide NoneFinal, AllGone, Launches, FirstMessage, InOrder, BetweenAttempts, GivenUp, AttemptError, Failed, CleanupEvent, Kept;
      ghost var was := trace;
      WhyGivenUp(surroundings, trace, Made(), deadline, process, error, canRetry, first);
      var failure := CleanUp(process, deadline, error, canRetry, first);
      var over := failure.Some? || !canRetry || last;
      if !over {
        var left := Remaining(deadline);
        over := left.None?;
      }
      if over {
        LaunchesWhen(surroundings, trace, Made(), deadline, started);
        GivesUpCleaned(was, process, failure, spawns, begun, now, deadline);
        return Some(StartupError(first, error, failure));
      }
      return None;
    }

    /**
     Always returns. At most two launches are attempted, the second only after a transport or pending
     launch error and with the first process confirmed gone; an exit, a wait failure or any other error
     is final; each process is awaited and probed in turn, at most eighty times, as long as its time
     lasts. On success the returned process, just probed, is the only one not gone; on failure all are
     gone unless a cleanup failed.
     */
    method StartOwnedReady(deadline: nat) returns (outcome: Outcome<T>)
      requires trace == [] && started == 0 && spawns == waits == probes == cleanups == 0
      modifies this
      ensures InOrder(surroundings, trace, Made(), deadline, started) && spawns <= 2
      ensures outcome.Ready? ==> GotReady(surroundings, trace, Made(), deadline, outcome.process, outcome.value)
      ensures outcome.NotReady? ==> Failed(trace, spawns, old(now), now, deadline, outcome.error)
    {
      NothingKept(surroundings, deadline);
      hide SpawnPending, NoneFinal, AllGone, Launches, FirstMessage, InOrder, BetweenAttempts, Underway, GivenUp, GotReady;
      hide AwaitsLaunch, AttemptError, Failed, CleanupEvent, RetryIsOpen, Final, Transient, FailureOf, Replays, CallsIn, Orderly, ProbesInTime;
      hide Kept, StillRuns, OneRuns, AwaitsCleanup, AwaitsNext;
      hide SomeTransient, LaunchedSince, Quiet, Lawful, FewProbes, MayGiveUp, Reports, TransportPending, Pending;
      var first: Option<string> := None;
      var attempt := 0;
      while true
        invariant attempt < 2 && BetweenAttempts(surroundings, trace, Made(), deadline, started, first)
        invariant started <= attempt == spawns && (attempt == 0 ==> first.None?)
        invariant now + CLEANUP_RESERVE >= deadline || now >= old(now) + ATTEMPT_BUDGET * started
        invariant now >= old(now)
        decreases 2 - attempt
      {
        BetweenIsLawful(surroundings, trace, Made(), deadline, started, first);
        var left := Remaining(deadline);
        if left.None? {
          GivesUpExpired(trace, spawns, old(now), now, deadline);
          return NotReady(StartupError(first, IoError(TimedOut, "Host startup deadline expired"), None));
        }
        var process := started;
        ghost var was := trace;
        var refused := Spawn(deadline, first);
        if refused.Some? {
          if attempt == 0 && SpawnPending(refused.value) {
            left := Remaining(deadline);
            if left.Some? {
              first := Some(refused.value.message);
              Pause(deadline);
              attempt := attempt + 1;
              continue;
            }
          }
          LaunchesWhen(surroundings, trace, Made(), deadline, started);
          GivesUpRefused(was, refused.value, spawns, old(now), now, deadline);
          return NotReady(StartupError(first, refused.value, None));
        }
        var latest := if deadline >= CLEANUP_RESERVE then deadline - CLEANUP_RESERVE else deadline;
        var attemptDeadline := if now + ATTEMPT_BUDGET < latest then now + ATTEMPT_BUDGET else latest;
        var ready, error, canRetry, firstError := Watch(process, now, deadline, attemptDeadline, first);
        if ready.Some? {
          ReadyIsLawful(surroundings, trace, Made(), deadline, process, ready.value);
          return Ready(process, ready.value);
        }
        first := firstError;
        var failed := EndAttempt(process, deadline, error, canRetry, attempt == 1, first, old(now));
        if failed.Some? {
          return NotReady(failed.value);
        }
        if first.None? {
          first := Some(error.message);
        }
        Pause(deadline);
        attempt := attempt + 1;
      }
    }
  }

  /******* What a lawful record means *******/

  /** After a process has exited or could not be awaited, nothing more is launched: only transport errors are retried. */
  lemma RetryFollowsTransientOnly(trace: seq<Event>, i: nat, k: nat)
    requires Lawful(trace) && i < k < |trace| && LaunchAttempt(trace[i]) && LaunchAttempt(trace[k])
    ensures exists m :: 0 <= m < k && Transient(trace[m])
    ensures forall m :: 0 <= m < k && trace[m].Waited? ==> trace[m].outcome.Running?
    ensures forall m :: 0 <= m < k && trace[m].Probed? && trace[m].failure.Some? ==> TransportPending(trace[m].failure.value)
  {
    assert SomeTransient(trace[..k]);
    var m :| 0 <= m < k && Transient(trace[..k][m]);
    assert Transient(trace[m]);
    assert forall j :: 0 <= j < k ==> !Final(trace[j]);
  }

  /** A second launch finds the first process already gone, in the order of the record. */
  lemma {:induction false} SecondLaunchFollowsCleanup(trace: seq<Event>, i: nat, j: nat)
    requires Lawful(trace) && i < j < |trace| && trace[i].Launched? && trace[j].Launched?
    ensures trace[i].process == 0 && trace[j].process == 1
    ensures exists k :: 0 <= k < j && trace[k] == Cleaned(0)
    ensures forall k :: 0 <= k < |trace| && trace[k].Launched? ==> k == i || k == j
  {
    assert i < |trace| && trace[i].Launched?;
    LaunchesOfPrefix(trace, i, j);
    LaunchesOfPrefix(trace, j, |trace|);
    LaunchesOfPrefix(trace, 0, i);
    assert trace[..|trace|] == trace;
    assert Cleaned(0) in trace[..j];
    forall k | 0 <= k < |trace| && trace[k].Launched? ensures k == i || k == j {
      if k < i {
        LaunchesOfPrefix(trace, k, i);
      } else if i < k < j {
        LaunchesOfPrefix(trace, i, k);
        LaunchesOfPrefix(trace, k, j);
      } else if j < k {
        LaunchesOfPrefix(trace, j, k);
        LaunchesOfPrefix(trace, k, |trace|);
      }
    }
  }

  lemma {:induction false} LaunchesOfPrefix(trace: seq<Event>, i: nat, j: nat)
    requires i <= j <= |trace|
    ensures Launches(trace[..j]) >= Launches(trace[..i]) + if i < j && trace[i].Launched? then 1 else 0
    decreases j
  {
    if i < j {
      assert trace[..j][..j - 1] == trace[..j - 1];
      LaunchesOfPrefix(trace, i, j - 1);
    }
  }
}
