/**
 The host that owns the native desktop executor. Its mutex makes operations sequential; processes,
 the socket and the clock answer each operation with outcomes given as inputs. The logs record which
 helpers were ever launched and installed, which have a proven exit, and every request frame written. An outcome
 reports an exit only when the operating system proved it for that very process.
 */
module ComputerUse {
  import opened Wrappers
  import opened Distinct

  datatype Connection = Connection(helper: nat, modified: int, failure: Option<string>)

  datatype Input = ReleaseRun | Act(request: string)

  datatype Frame = Frame(helper: nat, input: Input)

  datatype Host = Host(
    slot: Option<Connection>,
    preview: Option<int>,
    launched: seq<nat>,
    installed: seq<nat>,
    exited: set<nat>,
    frames: seq<Frame>)

  /** Shutting the channel down and awaiting the process: proof of exit, or an error. */
  datatype StopOutcome = Stopped | StopFailed(error: string)

  datatype ExitOutcome = HasExited | StillRunning | WaitFailed(error: string)

  /**
   A launch that connected and identified itself; one that did not happen; or one that did, whose helper
   then failed to connect or to identify itself, and may have been seen to exit.
   */
  datatype StartOutcome =
    | Started(helper: nat, endpoint: int)
    | NotLaunched(error: string)
    | Unconnected(helper: nat, exited: bool, error: string)

  datatype ExchangeOutcome = Replied(value: string) | ExchangeFailed(error: string)

  /** Everything the surroundings may answer during one call. */
  datatype CallOutcomes = CallOutcomes(
    modified: Result<int, string>,
    stop: StopOutcome,
    exit: ExitOutcome,
    start: StartOutcome,
    exchange: ExchangeOutcome)

  datatype Reply = Reply(host: Host, result: Result<string, string>)

  const NOT_CONNECTED := "computer_component_not_connected"
  const INVALID_ACTION := "computer_presentation_action_invalid"
  const RELEASED := "released"

  function Initial(): Host {
    Host(None, None, [], [], {}, [])
  }

  /******* Steps shared by the operations *******/

  function Fail(h: Host, error: string): Host
    requires h.slot.Some?
  {
    h.(slot := Some(h.slot.value.(failure := if h.slot.value.failure.Some? then h.slot.value.failure else Some(error))))
  }

  /** The helper leaves the slot together with its preview endpoint. */
  function Vacate(h: Host): Host
    requires h.slot.Some?
  {
    h.(slot := None, preview := None, exited := h.exited + {h.slot.value.helper})
  }

  /** Stops the connected helper; on an error it stays in the slot and the error sticks. */
  function StopHelper(h: Host, outcome: StopOutcome): Host
    requires h.slot.Some?
  {
    match outcome
    case Stopped => Vacate(h)
    case StopFailed(error) => Fail(h, error)
  }

  function Install(h: Host, helper: nat, endpoint: int, modified: int): Host {
    h.(slot := Some(Connection(helper, modified, None)), preview := Some(endpoint),
       launched := h.launched + [helper], installed := h.installed + [helper])
  }

  /** A helper that never got into the slot: its start reports the error and does not stop it. */
  function Abandon(h: Host, helper: nat, exited: bool): Host {
    h.(launched := h.launched + [helper], exited := h.exited + if exited then {helper} else {})
  }

  /** One request frame and one answer; a failed connection answers with its first error instead. */
  function Exchange(h: Host, input: Input, outcome: ExchangeOutcome): Reply
    requires h.slot.Some?
  {
    if h.slot.value.failure.Some? then Reply(h, Failure(h.slot.value.failure.value))
    else
      var sent := h.(frames := h.frames + [Frame(h.slot.value.helper, input)]);
      match outcome
      case Replied(value) => Reply(sent, Success(value))
      case ExchangeFailed(error) => Reply(Fail(sent, error), Failure(error))
  }

  /******* The operations *******/

  function Stop(h: Host, outcome: StopOutcome): Reply {
    if h.slot.None? then Reply(h.(preview := None), Success(""))
    else Reply(StopHelper(h, outcome), if outcome.Stopped? then Success("") else Failure(outcome.error))
  }

  function Release(h: Host, outcomes: CallOutcomes): Reply {
    if h.slot.None? then Reply(h, Success(RELEASED))
    else if h.slot.value.failure.Some? then
      Reply(StopHelper(h, outcomes.stop), if outcomes.stop.Stopped? then Success(RELEASED) else Failure(outcomes.stop.error))
    else Exchange(h, ReleaseRun, outcomes.exchange)
  }

  /** Between calls a helper of a replaced package is stopped, and a failed one that has exited is dropped. */
  function Refresh(h: Host, modified: int, outcomes: CallOutcomes): Result<Host, Reply> {
    if h.slot.Some? && h.slot.value.modified != modified && outcomes.stop.StopFailed? then
      Failure(Reply(StopHelper(h, outcomes.stop), Failure(outcomes.stop.error)))
    else
      var kept := if h.slot.Some? && h.slot.value.modified != modified then Vacate(h) else h;
      if kept.slot.Some? && kept.slot.value.failure.Some? then
        match outcomes.exit
        case HasExited => Success(Vacate(kept))
        case StillRunning => Success(kept)
        case WaitFailed(error) => Failure(Reply(kept, Failure(error)))
      else Success(kept)
  }

  function Perform(h: Host, input: Input, outcomes: CallOutcomes): Reply {
    match outcomes.modified
    case Failure(error) => Reply(h, Failure(error))
    case Success(modified) =>
      match Refresh(h, modified, outcomes)
      case Failure(reply) => reply
      case Success(kept) =>
        if kept.slot.Some? then Exchange(kept, input, outcomes.exchange)
        else
          match outcomes.start
          case NotLaunched(error) => Reply(kept, Failure(error))
          case Unconnected(helper, exited, error) => Reply(Abandon(kept, helper, exited), Failure(error))
          case Started(helper, endpoint) => Exchange(Install(kept, helper, endpoint, modified), input, outcomes.exchange)
  }

  function Call(h: Host, input: Input, outcomes: CallOutcomes): Reply {
    if input.ReleaseRun? then Release(h, outcomes) else Perform(h, input, outcomes)
  }

  /** Presentation requests: a preview image, or bringing a target to the front; anything else is refused. */
  datatype Presentation = Preview | ActivateTarget(target: string) | Other

  /** Waits for the mutex and uses an existing helper only. */
  function CallExisting(h: Host, request: Presentation, exchange: ExchangeOutcome): Reply {
    if !request.ActivateTarget? then Reply(h, Failure(INVALID_ACTION))
    else if h.slot.None? then Reply(h, Failure(NOT_CONNECTED))
    else Exchange(h, Act(request.target), exchange)
  }

  /** Never waits: previews are read beside the execute channel, and a busy mutex gives no answer. */
  function TryCallExisting(h: Host, request: Presentation, busy: bool, read: Result<string, string>, exchange: ExchangeOutcome): Reply {
    match request
    case Other => Reply(h, Failure(INVALID_ACTION))
    case Preview => Reply(h, if h.preview.None? then Failure(NOT_CONNECTED) else read)
    case ActivateTarget(target) =>
      if busy then Reply(h, Success("")) else CallExisting(h, request, exchange)
  }

  /******* The host object *******/

  class ComputerUseHost {
    var connection: Option<Connection>
    var previewEndpoint: Option<int>
    ghost var launched: seq<nat>
    ghost var installed: seq<nat>
    ghost var exited: set<nat>
    ghost var frames: seq<Frame>

    constructor ()
      ensures State() == Initial()
    {
      connection, previewEndpoint := None, None;
      launched, installed, exited, frames := [], [], {}, [];
    }

    ghost function State(): Host
      reads this
    {
      Host(connection, previewEndpoint, launched, installed, exited, frames)
    }

    method RecordFailure(error: string)
      requires connection.Some?
      modifies this`connection
      ensures State() == Fail(old(State()), error)
    {
      if connection.value.failure.None? {
        connection := Some(connection.value.(failure := Some(error)));
      }
    }

    method Clear()
      requires connection.Some?
      modifies this
      ensures State() == Vacate(old(State()))
    {
      exited := exited + {connection.value.helper};
      connection := None;
      previewEndpoint := None;
    }

    method Send(input: Input, outcome: ExchangeOutcome) returns (result: Result<string, string>)
      requires connection.Some?
      modifies this
      ensures Reply(State(), result) == Exchange(old(State()), input, outcome)
    {
      if connection.value.failure.Some? {
        return Failure(connection.value.failure.value);
      }
      frames := frames + [Frame(connection.value.helper, input)];
      match outcome {
        case Replied(value) =>
          result := Success(value);
        case ExchangeFailed(error) =>
          RecordFailure(error);
          result := Failure(error);
      }
    }

    method StopConnected(outcome: StopOutcome) returns (result: Result<string, string>)
      modifies this
      ensures Reply(State(), result) == Stop(old(State()), outcome)
    {
      if connection.Some? {
        match outcome {
          case Stopped =>
            Clear();
          case StopFailed(error) =>
            RecordFailure(error);
            return Failure(error);
        }
      }
      previewEndpoint := None;
      return Success("");
    }

    method HandleCall(input: Input, outcomes: CallOutcomes) returns (result: Result<string, string>)
      modifies this
      ensures Reply(State(), result) == Call(old(State()), input, outcomes)
    {
      if input.ReleaseRun? {
        if connection.None? {
          return Success(RELEASED);
        }
        if connection.value.failure.Some? {
          if outcomes.stop.StopFailed? {
            RecordFailure(outcomes.stop.error);
            return Failure(outcomes.stop.error);
          }
          Clear();
          return Success(RELEASED);
        }
      } else {
        if outcomes.modified.Failure? {
          return Failure(outcomes.modified.error);
        }
        var modified := outcomes.modified.value;
        if connection.Some? && connection.value.modified != modified {
          if outcomes.stop.StopFailed? {
            RecordFailure(outcomes.stop.error);
            return Failure(outcomes.stop.error);
          }
          Clear();
        }
        if connection.Some? && connection.value.failure.Some? {
          if outcomes.exit.WaitFailed? {
            return Failure(outcomes.exit.error);
          }
          if outcomes.exit.HasExited? {
            Clear();
          }
        }
        if connection.None? {
          if outcomes.start.NotLaunched? {
            return Failure(outcomes.start.error);
          }
          launched := launched + [outcomes.start.helper];
          if outcomes.start.Unconnected? {
            exited := exited + if outcomes.start.exited then {outcomes.start.helper} else {};
            return Failure(outcomes.start.error);
          }
          previewEndpoint := Some(outcomes.start.endpoint);
          connection := Some(Connection(outcomes.start.helper, modified, None));
          installed := installed + [outcomes.start.helper];
        }
      }
      result := Send(input, outcomes.exchange);
    }

    method HandleExisting(request: Presentation, exchange: ExchangeOutcome) returns (result: Result<string, string>)
      modifies this
      ensures Reply(State(), result) == CallExisting(old(State()), request, exchange)
    {
      if !request.ActivateTarget? {
        return Failure(INVALID_ACTION);
      }
      if connection.None? {
        return Failure(NOT_CONNECTED);
      }
      result := Send(Act(request.target), exchange);
    }

    /** The preview is read beside the execute channel; only the other requests need the mutex. */
    method TryHandleExisting(request: Presentation, busy: bool, read: Result<string, string>, exchange: ExchangeOutcome)
      returns (result: Result<string, string>)
      modifies this
      ensures Reply(State(), result) == TryCallExisting(old(State()), request, busy, read, exchange)
    {
      if request.Preview? {
        return if previewEndpoint.None? then Failure(NOT_CONNECTED) else read;
      }
      if request.Other? {
        return Failure(INVALID_ACTION);
      }
      if busy {
        return Success("");
      }
      result := HandleExisting(request, exchange);
    }
  }

  /******* Runs *******/

  datatype Event =
    | Stopping(stop: StopOutcome)
    | Calling(input: Input, outcomes: CallOutcomes)
    | CallingExisting(request: Presentation, exchange: ExchangeOutcome)
    | TryingExisting(request: Presentation, busy: bool, read: Result<string, string>, exchange: ExchangeOutcome)

  function Step(h: Host, e: Event): Reply {
    match e
    case Stopping(stop) => Stop(h, stop)
    case Calling(input, outcomes) => Call(h, input, outcomes)
    case CallingExisting(request, exchange) => CallExisting(h, request, exchange)
    case TryingExisting(request, busy, read, exchange) => TryCallExisting(h, request, busy, read, exchange)
  }

  /** A launched helper is a new process, not one that was launched before. */
  ghost predicate FreshStart(h: Host, e: Event) {
    e.Calling? && !e.outcomes.start.NotLaunched? ==> e.outcomes.start.helper !in h.launched
  }

  function Run(h: Host, events: seq<Event>): Host
    decreases |events|
  {
    if events == [] then h else Run(Step(h, events[0]).host, events[1..])
  }

  ghost predicate FreshRun(h: Host, events: seq<Event>)
    decreases |events|
  {
    events != [] ==> FreshStart(h, events[0]) && FreshRun(Step(h, events[0]).host, events[1..])
  }

  /** Every helper ever installed is in the slot or has a proven exit; slot and preview come together. */
  ghost predicate Owned(h: Host) {
    && NoRepeats(h.installed)
    && (h.slot.Some? <==> h.preview.Some?)
    && (h.slot.Some? ==> h.slot.value.helper in h.installed && h.slot.value.helper !in h.exited)
    && (forall p :: p in h.installed ==> p in h.exited || (h.slot.Some? && h.slot.value.helper == p))
    && (forall p :: p in h.exited || p in h.installed ==> p in h.launched)
    && (forall k :: 0 <= k < |h.frames| ==> h.frames[k].helper in h.installed)
  }

  lemma OwnedInstall(h: Host, helper: nat, endpoint: int, modified: int)
    requires Owned(h) && h.slot.None? && helper !in h.launched
    ensures Owned(Install(h, helper, endpoint, modified))
  {
  }

  lemma OwnedExchange(h: Host, input: Input, outcome: ExchangeOutcome)
    requires Owned(h) && h.slot.Some?
    ensures Owned(Exchange(h, input, outcome).host)
  {
  }

  lemma OwnedRefresh(h: Host, modified: int, outcomes: CallOutcomes)
    requires Owned(h)
    ensures match Refresh(h, modified, outcomes)
            case Success(kept) => Owned(kept) && kept.installed == h.installed && kept.launched == h.launched
            case Failure(reply) => Owned(reply.host) && reply.host.installed == h.installed && reply.host.launched == h.launched
  {
  }

  lemma OwnedKept(h: Host, e: Event)
    requires Owned(h) && FreshStart(h, e)
    ensures Owned(Step(h, e).host)
  {
    assert h.slot.None? ==> Owned(h.(preview := None));
    hide Owned, Exchange, Refresh, Install, Vacate, Fail;
    match e {
      case Stopping(stop) =>
      case Calling(input, outcomes) =>
        if input.ReleaseRun? {
          if h.slot.Some? {
            OwnedExchange(h, ReleaseRun, outcomes.exchange);
          }
        } else {
          OwnedPerform(h, input, outcomes);
        }
      case CallingExisting(request, exchange) =>
        if h.slot.Some? && request.ActivateTarget? {
          OwnedExchange(h, Act(request.target), exchange);
        }
      case TryingExisting(request, busy, read, exchange) =>
        if h.slot.Some? && request.ActivateTarget? {
          OwnedExchange(h, Act(request.target), exchange);
        }
    }
  }

  lemma OwnedPerform(h: Host, input: Input, outcomes: CallOutcomes)
    requires Owned(h) && (!outcomes.start.NotLaunched? ==> outcomes.start.helper !in h.launched)
    ensures Owned(Perform(h, input, outcomes).host)
  {
    hide Owned, Exchange, Refresh, Install;
    if outcomes.modified.Success? {
      OwnedRefresh(h, outcomes.modified.value, outcomes);
      var refreshed := Refresh(h, outcomes.modified.value, outcomes);
      if refreshed.Success? {
        var kept := refreshed.value;
        if kept.slot.Some? {
          OwnedExchange(kept, input, outcomes.exchange);
        } else if outcomes.start.Started? {
          var installed := Install(kept, outcomes.start.helper, outcomes.start.endpoint, outcomes.modified.value);
          OwnedInstall(kept, outcomes.start.helper, outcomes.start.endpoint, outcomes.modified.value);
          assert installed.slot.Some? by { InstallConnects(kept, outcomes.start.helper, outcomes.start.endpoint, outcomes.modified.value); }
          OwnedExchange(installed, input, outcomes.exchange);
        } else if outcomes.start.Unconnected? {
          OwnedAbandon(kept, outcomes.start.helper, outcomes.start.exited);
        }
      }
    }
  }

  lemma OwnedAbandon(h: Host, helper: nat, exited: bool)
    requires Owned(h) && helper !in h.launched
    ensures Owned(Abandon(h, helper, exited))
  {
  }

  lemma InstallConnects(h: Host, helper: nat, endpoint: int, modified: int)
    ensures Install(h, helper, endpoint, modified).slot == Some(Connection(helper, modified, None))
  {
  }

  lemma {:induction false} OwnedOverRun(h: Host, events: seq<Event>)
    requires Owned(h) && FreshRun(h, events)
    ensures Owned(Run(h, events))
    decreases |events|
  {
    if events != [] {
      OwnedKept(h, events[0]);
      hide Owned, Step, FreshStart;
      OwnedOverRun(Step(h, events[0]).host, events[1..]);
    }
  }

  /** Of the helpers ever installed at most one is without a proven exit, and it is the connected one. */
  lemma SingleExecutor(events: seq<Event>, p: nat, q: nat)
    requires FreshRun(Initial(), events)
    requires var h := Run(Initial(), events); p in h.installed && q in h.installed && p !in h.exited && q !in h.exited
    ensures var h := Run(Initial(), events);
      p == q && h.slot.Some? && h.slot.value.helper == p && h.preview.Some?
  {
    OwnedOverRun(Initial(), events);
    hide Run, FreshRun;
  }

  /** A helper is launched only by a performing call, one at a time, and only after every installed one has a proven exit. */
  lemma StartsOnlyIntoAnEmptySlot(h: Host, e: Event)
    requires Owned(h) && FreshStart(h, e) && Step(h, e).host.launched != h.launched
    ensures e.Calling? && !e.input.ReleaseRun? && !e.outcomes.start.NotLaunched?
    ensures Step(h, e).host.launched == h.launched + [e.outcomes.start.helper]
    ensures Step(h, e).host.installed == if e.outcomes.start.Started? then h.installed + [e.outcomes.start.helper] else h.installed
    ensures forall p :: p in h.installed ==> p in Step(h, e).host.exited
  {
  }

  /******* Helpers that were launched and never connected *******/

  /** The step launches a helper that neither connects nor is seen to exit. */
  predicate Strays(h: Host, e: Event) {
    Step(h, e).host.launched != h.launched && e.Calling? && e.outcomes.start.Unconnected? && !e.outcomes.start.exited
  }

  predicate NoneStrays(h: Host, events: seq<Event>)
    decreases |events|
  {
    events != [] ==> !Strays(h, events[0]) && NoneStrays(Step(h, events[0]).host, events[1..])
  }

  /** Every helper ever launched, but the connected one, has a proven exit. */
  ghost predicate AllAccounted(h: Host) {
    forall p :: p in h.launched ==> p in h.exited || (h.slot.Some? && h.slot.value.helper == p)
  }

  ghost predicate Stray(h: Host, p: nat) {
    p in h.launched && p !in h.installed && p !in h.exited
  }

  lemma StrayStays(h: Host, e: Event, p: nat)
    requires Owned(h) && FreshStart(h, e) && Stray(h, p)
    ensures Stray(Step(h, e).host, p)
  {
  }

  lemma AccountedKept(h: Host, e: Event)
    requires Owned(h) && FreshStart(h, e) && !Strays(h, e) && AllAccounted(h)
    ensures AllAccounted(Step(h, e).host)
  {
    OwnedKept(h, e);
    LogsGrow(h, e);
    hide Step;
  }

  /** The logs only grow, and a launched helper is installed, seen to exit, or a stray. */
  lemma LogsGrow(h: Host, e: Event)
    ensures var after := Step(h, e).host;
      && h.exited <= after.exited
      && (forall p :: p in h.installed ==> p in after.installed)
      && (forall p :: p in after.launched ==> p in h.launched || p in after.installed || p in after.exited || Strays(h, e))
  {
    ExitsGrow(h, e);
    InstalledGrow(h, e);
    LaunchedGrow(h, e);
    hide *;
  }

  lemma ExitsGrow(h: Host, e: Event)
    ensures h.exited <= Step(h, e).host.exited
  {
  }

  lemma InstalledGrow(h: Host, e: Event)
    ensures h.installed <= Step(h, e).host.installed
  {
  }

  lemma LaunchedGrow(h: Host, e: Event)
    ensures var after := Step(h, e).host;
      forall p :: p in after.launched ==> p in h.launched || p in after.installed || p in after.exited || Strays(h, e)
  {
  }

  lemma {:induction false} StrayForEver(h: Host, events: seq<Event>, p: nat)
    requires Owned(h) && FreshRun(h, events) && Stray(h, p)
    ensures Stray(Run(h, events), p)
    decreases |events|
  {
    if events != [] {
      StrayStays(h, events[0], p);
      OwnedKept(h, events[0]);
      hide Owned, Step, FreshStart, Stray;
      StrayForEver(Step(h, events[0]).host, events[1..], p);
    }
  }

  /**
   Over every run: all launched helpers but the connected one have a proven exit if and only if no start
   failed after launching, except for a helper seen to exit.
   */
  lemma {:induction false} AccountedExactly(h: Host, events: seq<Event>)
    requires Owned(h) && AllAccounted(h) && FreshRun(h, events)
    ensures AllAccounted(Run(h, events)) <==> NoneStrays(h, events)
    decreases |events|
  {
    if events != [] {
      var next := Step(h, events[0]).host;
      OwnedKept(h, events[0]);
      if Strays(h, events[0]) {
        hide Step, Strays, FreshStart, Stray;
        StrayForEver(next, events[1..], events[0].outcomes.start.helper);
        StrayIsUnaccounted(Run(next, events[1..]), events[0].outcomes.start.helper, h, events);
      } else {
        AccountedKept(h, events[0]);
        hide Owned, Step, Strays, FreshStart, AllAccounted;
        AccountedExactly(next, events[1..]);
      }
    }
  }

  lemma StrayIsUnaccounted(end: Host, p: nat, h: Host, events: seq<Event>)
    requires Owned(h) && FreshRun(h, events) && end == Run(h, events) && Stray(end, p)
    ensures !AllAccounted(end)
  {
    OwnedOverRun(h, events);
    hide Run, FreshRun;
  }

  /** A start that fails after launching, then one that succeeds: two helpers without a proven exit. */
  lemma FailedStartLeavesASecondHelper(input: Input, modified: int, endpoint: int, error: string, exchange: ExchangeOutcome)
    returns (events: seq<Event>)
    requires input.Act?
    ensures FreshRun(Initial(), events)
    ensures var h := Run(Initial(), events);
      h.launched == [0, 1] && h.exited == {} && h.slot.Some? && h.slot.value.helper == 1
  {
    var failing := CallOutcomes(Success(modified), Stopped, HasExited, Unconnected(0, false, error), exchange);
    var starting := failing.(start := Started(1, endpoint));
    events := [Calling(input, failing), Calling(input, starting)];
    assert events[1..] == [Calling(input, starting)] && events[1..][1..] == [];
    var first := Step(Initial(), events[0]).host;
    assert first == Initial().(launched := [0]);
    var second := Step(first, events[1]).host;
    assert second.launched == [0, 1] && second.exited == {};
    assert Run(second, []) == second && FreshRun(second, []);
    assert Run(first, events[1..]) == second && FreshRun(first, events[1..]);
  }

  /** Releasing never starts a helper; it reports success without one, after a proven exit, or on the helper's own reply. */
  lemma ReleaseStartsNothing(h: Host, outcomes: CallOutcomes)
    requires Owned(h)
    ensures var reply := Call(h, ReleaseRun, outcomes);
      && reply.host.launched == h.launched && reply.host.installed == h.installed
      && (reply.result.Success? ==>
            || (h.slot.None? && reply.host == h)
            || (h.slot.Some? && h.slot.value.helper in reply.host.exited)
            || (h.slot.Some? && outcomes.exchange.Replied? && reply.host.frames == h.frames + [Frame(h.slot.value.helper, ReleaseRun)]))
  {
  }

  /******* What is sent, and what is answered *******/

  /** No connected helper is of the present package and usable, and none is in the way of a new one. */
  predicate NeedsStart(h: Host, outcomes: CallOutcomes) {
    outcomes.modified.Success?
    && (|| h.slot.None?
        || (h.slot.value.modified != outcomes.modified.value && outcomes.stop.Stopped?)
        || (h.slot.value.modified == outcomes.modified.value && h.slot.value.failure.Some? && outcomes.exit.HasExited?))
  }

  /** The helper that takes the call: the connected one of the present package, or one that has just started. */
  predicate Takes(h: Host, outcomes: CallOutcomes, helper: nat) {
    || (h.slot.Some? && h.slot.value.failure.None? && outcomes.modified == Success(h.slot.value.modified)
        && helper == h.slot.value.helper)
    || (NeedsStart(h, outcomes) && outcomes.start.Started? && helper == outcomes.start.helper)
  }

  /** The request goes to the helper as one frame, and what comes back is the helper's reply or the error. */
  ghost predicate SentTo(h: Host, reply: Reply, helper: nat, input: Input, exchange: ExchangeOutcome) {
    && reply.host.frames == h.frames + [Frame(helper, input)]
    && (match exchange
        case Replied(value) => reply.result == Success(value)
        case ExchangeFailed(error) => reply.result == Failure(error))
  }

  /** A desktop action is sent, as it is, to the helper that takes the call; without one nothing is sent and the call fails. */
  lemma ActionIsSent(h: Host, request: string, outcomes: CallOutcomes)
    ensures var reply := Step(h, Calling(Act(request), outcomes));
      && (forall p :: Takes(h, outcomes, p) ==> SentTo(h, reply, p, Act(request), outcomes.exchange))
      && ((forall p :: !Takes(h, outcomes, p)) ==> reply.host.frames == h.frames && reply.result.Failure?)
  {
    var reply := Step(h, Calling(Act(request), outcomes));
    if h.slot.Some? {
      assert h.slot.value.failure.None? && outcomes.modified == Success(h.slot.value.modified)
        ==> Takes(h, outcomes, h.slot.value.helper);
    }
    if outcomes.start.Started? {
      assert NeedsStart(h, outcomes) ==> Takes(h, outcomes, outcomes.start.helper);
    }
  }

  /** A helper that has just started is the connected one, of the package it was started from, failed only if its first call did. */
  lemma StartedIsConnected(h: Host, request: string, outcomes: CallOutcomes)
    requires NeedsStart(h, outcomes) && outcomes.start.Started?
    ensures var after := Step(h, Calling(Act(request), outcomes)).host;
      && after.slot == Some(Connection(outcomes.start.helper, outcomes.modified.value,
                                       if outcomes.exchange.Replied? then None else Some(outcomes.exchange.error)))
      && after.preview == Some(outcomes.start.endpoint)
      && after.launched == h.launched + [outcomes.start.helper] && after.installed == h.installed + [outcomes.start.helper]
  {
  }

  /** Why an action is not sent, and what is left then. */
  lemma ActionIsRefused(h: Host, request: string, outcomes: CallOutcomes)
    ensures var reply := Step(h, Calling(Act(request), outcomes));
      && (outcomes.modified.Failure? ==> reply == Reply(h, Failure(outcomes.modified.error)))
      && (outcomes.modified.Success? && h.slot.Some? ==>
            && (h.slot.value.modified != outcomes.modified.value && outcomes.stop.StopFailed? ==>
                  && reply.result == Failure(outcomes.stop.error) && reply.host.frames == h.frames
                  && reply.host.slot.Some? && reply.host.slot.value.helper == h.slot.value.helper)
            && (h.slot.value.modified == outcomes.modified.value && h.slot.value.failure.Some? ==>
                  && (outcomes.exit.StillRunning? ==> reply == Reply(h, Failure(h.slot.value.failure.value)))
                  && (outcomes.exit.WaitFailed? ==> reply == Reply(h, Failure(outcomes.exit.error)))))
      && (NeedsStart(h, outcomes) && !outcomes.start.Started? ==>
            && reply.result == Failure(outcomes.start.error)
            && reply.host.slot.None? && reply.host.preview.None? == (h.slot.Some? || h.preview.None?))
  {
  }

  /** A presentation request goes to the connected helper only, unless it is a preview, refused, or the mutex is busy. */
  lemma PresentationIsSent(h: Host, target: string, read: Result<string, string>, exchange: ExchangeOutcome)
    ensures h.slot.Some? && h.slot.value.failure.None? ==>
      && SentTo(h, Step(h, CallingExisting(ActivateTarget(target), exchange)), h.slot.value.helper, Act(target), exchange)
      && SentTo(h, Step(h, TryingExisting(ActivateTarget(target), false, read, exchange)), h.slot.value.helper, Act(target), exchange)
    ensures h.slot.Some? && h.slot.value.failure.Some? ==>
      && Step(h, CallingExisting(ActivateTarget(target), exchange)) == Reply(h, Failure(h.slot.value.failure.value))
      && Step(h, TryingExisting(ActivateTarget(target), false, read, exchange)) == Reply(h, Failure(h.slot.value.failure.value))
    ensures h.slot.None? ==>
      && Step(h, CallingExisting(ActivateTarget(target), exchange)) == Reply(h, Failure("computer_component_not_connected"))
      && Step(h, TryingExisting(ActivateTarget(target), false, read, exchange)) == Reply(h, Failure("computer_component_not_connected"))
    ensures Step(h, TryingExisting(ActivateTarget(target), true, read, exchange)) == Reply(h, Success(""))
    ensures forall busy :: Step(h, TryingExisting(Preview, busy, read, exchange))
                        == Reply(h, if h.preview.Some? then read else Failure("computer_component_not_connected"))
    ensures forall busy :: Step(h, TryingExisting(Other, busy, read, exchange)).result == Failure("computer_presentation_action_invalid")
    ensures Step(h, CallingExisting(Preview, exchange)).result == Failure("computer_presentation_action_invalid")
  {
  }

  /** A release is sent to a healthy helper, stops a failed one, and is done at once without one. */
  lemma ReleaseIsSent(h: Host, outcomes: CallOutcomes)
    ensures var reply := Step(h, Calling(ReleaseRun, outcomes));
      && (h.slot.Some? && h.slot.value.failure.None? ==>
            SentTo(h, reply, h.slot.value.helper, ReleaseRun, outcomes.exchange))
      && (h.slot.Some? && h.slot.value.failure.Some? ==>
            && reply.host.frames == h.frames
            && (outcomes.stop.Stopped? ==>
                  reply.host.slot.None? && h.slot.value.helper in reply.host.exited && reply.result == Success("released"))
            && (outcomes.stop.StopFailed? ==> reply == Reply(h, Failure(outcomes.stop.error))))
      && (h.slot.None? ==> reply == Reply(h, Success("released")))
  {
  }

  /** Stopping ends with no helper connected and its exit proven, or with the error, the helper staying where it was. */
  lemma StoppingMeaning(h: Host, stop: StopOutcome)
    ensures var reply := Step(h, Stopping(stop));
      && reply.host.frames == h.frames && reply.host.launched == h.launched
      && (h.slot.None? ==> reply.result == Success("") && reply.host.slot.None? && reply.host.preview.None?)
      && (h.slot.Some? && stop.Stopped? ==>
            && reply.result == Success("") && reply.host.slot.None? && reply.host.preview.None?
            && h.slot.value.helper in reply.host.exited)
      && (h.slot.Some? && stop.StopFailed? ==>
            && reply.result == Failure(stop.error) && reply.host.preview == h.preview && reply.host.exited == h.exited
            && reply.host.slot.Some? && reply.host.slot.value.helper == h.slot.value.helper
            && reply.host.slot.value.failure == if h.slot.value.failure.Some? then h.slot.value.failure else Some(stop.error))
  {
  }

  /** One operation writes at most one frame, to the helper that is connected when it returns; nothing is resent. */
  lemma AtMostOneFrame(h: Host, e: Event)
    ensures var after := Step(h, e).host;
      || after.frames == h.frames
      || (after.slot.Some? && exists input :: after.frames == h.frames + [Frame(after.slot.value.helper, input)])
  {
  }

  /******* Sticky failure *******/

  /** The helper's connection has failed with this error, or it is gone for good. */
  ghost predicate FailedOrGone(h: Host, helper: nat, error: string) {
    helper in h.installed && (helper in h.exited || (h.slot.Some? && h.slot.value.helper == helper && h.slot.value.failure == Some(error)))
  }

  function FramesTo(frames: seq<Frame>, helper: nat): nat {
    if frames == [] then 0
    else FramesTo(frames[..|frames| - 1], helper) + if frames[|frames| - 1].helper == helper then 1 else 0
  }

  lemma FailureKept(h: Host, e: Event, helper: nat, error: string)
    requires Owned(h) && FreshStart(h, e) && FailedOrGone(h, helper, error)
    ensures FailedOrGone(Step(h, e).host, helper, error)
    ensures FramesTo(Step(h, e).host.frames, helper) == FramesTo(h.frames, helper)
  {
    var after := Step(h, e).host;
    AtMostOneFrame(h, e);
    FailureSticks(h, e, helper, error);
    FailedGetsNoFrame(h, e, helper, error);
    hide Step;
    if after.frames != h.frames {
      var input :| after.frames == h.frames + [Frame(after.slot.value.helper, input)];
    }
  }

  lemma FailureSticks(h: Host, e: Event, helper: nat, error: string)
    requires Owned(h) && FreshStart(h, e) && FailedOrGone(h, helper, error)
    ensures FailedOrGone(Step(h, e).host, helper, error)
  {
    InstalledGrow(h, e);
    ExitsGrow(h, e);
  }

  lemma FailedGetsNoFrame(h: Host, e: Event, helper: nat, error: string)
    requires Owned(h) && FreshStart(h, e) && FailedOrGone(h, helper, error)
    ensures var after := Step(h, e).host;
      after.frames != h.frames ==> after.slot.Some? && after.slot.value.helper != helper
  {
  }

  /** After a connection's first failure no frame ever reaches that helper again. */
  lemma {:induction false} NoFrameAfterFailure(h: Host, events: seq<Event>, helper: nat, error: string)
    requires Owned(h) && FreshRun(h, events) && FailedOrGone(h, helper, error)
    ensures FailedOrGone(Run(h, events), helper, error)
    ensures FramesTo(Run(h, events).frames, helper) == FramesTo(h.frames, helper)
    decreases |events|
  {
    if events != [] {
      OwnedKept(h, events[0]);
      FailureKept(h, events[0], helper, error);
      hide Owned, Step, FreshStart, FailedOrGone, FramesTo;
      NoFrameAfterFailure(Step(h, events[0]).host, events[1..], helper, error);
    }
  }

  /** Until the helper has exited, everything that still reaches its connection is answered with the first error. */
  lemma FirstErrorIsReturned(h: Host, events: seq<Event>, helper: nat, error: string, input: Input, outcome: ExchangeOutcome)
    requires Owned(h) && FreshRun(h, events) && FailedOrGone(h, helper, error)
    requires var later := Run(h, events); later.slot.Some? && later.slot.value.helper == helper
    ensures Exchange(Run(h, events), input, outcome) == Reply(Run(h, events), Failure(error))
  {
    NoFrameAfterFailure(h, events, helper, error);
    OwnedOverRun(h, events);
    hide Run, FreshRun;
  }

  /** The error with which this operation's exchange with the connected helper, or its stop, fails. */
  function ConnectedFailure(h: Host, e: Event): Option<string>
    requires h.slot.Some?
  {
    match e
    case Stopping(stop) => FailedStop(stop)
    case CallingExisting(request, exchange) =>
      if request.ActivateTarget? then FailedExchange(exchange) else None
    case TryingExisting(request, busy, _, exchange) =>
      if request.ActivateTarget? && !busy then FailedExchange(exchange) else None
    case Calling(input, outcomes) =>
      if !input.ReleaseRun? && outcomes.modified.Failure? then None
      else if !input.ReleaseRun? && outcomes.modified.value != h.slot.value.modified then FailedStop(outcomes.stop)
      else FailedExchange(outcomes.exchange)
  }

  function FailedStop(outcome: StopOutcome): Option<string> {
    if outcome.StopFailed? then Some(outcome.error) else None
  }

  function FailedExchange(outcome: ExchangeOutcome): Option<string> {
    if outcome.ExchangeFailed? then Some(outcome.error) else None
  }

  /**
   While the helper's connection has not failed, an operation records an error on it exactly when its
   exchange or its stop fails, and then returns that error.
   */
  lemma FirstFailureIsRecorded(h: Host, e: Event)
    requires Owned(h) && FreshStart(h, e)
    requires h.slot.Some? && h.slot.value.failure.None?
    ensures var after, failure := Step(h, e), ConnectedFailure(h, e);
      && (failure.Some? ==>
            && after.host.slot == Some(h.slot.value.(failure := failure))
            && after.result == Failure(failure.value)
            && FailedOrGone(after.host, h.slot.value.helper, failure.value))
      && (failure.None? && after.host.slot.Some? && after.host.slot.value.helper == h.slot.value.helper ==>
            after.host.slot == h.slot)
  {
  }
}
