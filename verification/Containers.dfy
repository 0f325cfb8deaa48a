/**
 Temporary containers and the registry of those this object caused to exist. A name is registered
 before the create client runs, so a client that fails or is aborted cannot orphan a container;
 disposal lists the containers labelled with each name and forgets a name only when all are gone.
 The engine and the command-line client are inputs: what they do and what they print.
 */
module Containers {
  import opened Wrappers
  import opened Whitespace
  import opened TextLines
  import opened Distinct

  datatype OwnedContainer = OwnedContainer(context: string, engine: string, id: string)

  /** A container as the engine behind a Docker context knows it; `owner` is its label. */
  datatype Container = Container(context: string, id: string, owner: string)

  /** `issued` are the names generated so far. */
  datatype State = State(owned: map<string, OwnedContainer>, engine: set<Container>, issued: set<string>)

  /** One run of the command-line client: it could not be run, or it ended and left its output. */
  datatype Client = Broken(error: string) | Ran(failed: Option<string>, stdout: string, truncated: bool)

  datatype Request = Request(context: Option<string>, engine: string, workRoot: Option<string>, project: Option<string>)

  /** `made` is the id of the container that the engine created, whatever the client reported. */
  datatype CreateAnswers = CreateAnswers(
    name: Result<string, string>,
    folder: Option<string>,
    create: Client,
    made: Option<string>,
    start: Client)

  datatype Created = ClientFailed(error: string) | Started(id: string)

  /** How one removal ended and whether the container is gone. */
  datatype Removal = Removal(client: Client, gone: bool)

  datatype DisposeAnswers = DisposeAnswers(list: string -> Client, remove: (string, string) -> Removal)

  /******* Reading the client's output *******/

  function Metadata(client: Client): Result<string, string> {
    if client.Broken? then Failure(client.error)
    else if client.failed.Some? then Failure(client.failed.value)
    else if client.truncated then Failure("Docker metadata exceeded output limit")
    else Success(Trim(client.stdout))
  }

  /** The client ran, ended without an error, and all it printed was kept. */
  predicate Works(client: Client) {
    client.Ran? && client.failed.None? && !client.truncated
  }

  /** What is wrong with a run of the client that does not work. */
  predicate IsErrorOf(client: Client, error: string) {
    || client == Broken(error)
    || (client.Ran? && client.failed == Some(error))
    || (client.Ran? && client.failed.None? && client.truncated && error == "Docker metadata exceeded output limit")
  }

  lemma MetadataExactly(client: Client)
    ensures Metadata(client).Success? <==> Works(client)
    ensures Metadata(client).Success? ==> IsCore(client.stdout, Metadata(client).value)
    ensures Metadata(client).Failure? ==> IsErrorOf(client, Metadata(client).error)
  {
    if Works(client) {
      TrimIsCore(client.stdout);
    }
  }

  function Unbroken(line: string): string {
    if !Ended(line) then line
    else if |line| > 1 && line[|line| - 2] == '\r' then line[..|line| - 2]
    else line[..|line| - 1]
  }

  /** The lines of a text without their line breaks. */
  function Lines(text: string): seq<string> {
    var lines := SplitInclusive(text);
    seq(|lines|, i requires 0 <= i < |lines| => Unbroken(lines[i]))
  }

  predicate PlainId(id: string) {
    id != "" && forall i :: 0 <= i < |id| ==> !IsWhitespace(id[i])
  }

  ghost predicate PlainIds(ids: seq<string>) {
    forall i :: 0 <= i < |ids| ==> PlainId(ids[i])
  }

  /** The client prints one id a line. */
  function Printed(ids: seq<string>): string {
    Join(seq(|ids|, i requires 0 <= i < |ids| => ids[i] + "\n"))
  }

  /** What is printed without the last line break. */
  function Trimmed(ids: seq<string>): seq<string>
    requires ids != []
  {
    seq(|ids|, i requires 0 <= i < |ids| => if i < |ids| - 1 then ids[i] + "\n" else ids[i])
  }

  lemma TrimmedLines(ids: seq<string>)
    requires ids != [] && PlainIds(ids)
    ensures IsLines(Trimmed(ids))
    ensures Lines(Join(Trimmed(ids))) == ids
  {
    forall i | 0 <= i < |ids| ensures IsLine(Trimmed(ids)[i]) && Unbroken(Trimmed(ids)[i]) == ids[i]
    ensures i < |ids| - 1 ==> Ended(Trimmed(ids)[i])
    {
    }
    hide Unbroken, IsLine, Ended;
    JoinThenSplit(Trimmed(ids));
  }

  lemma PrintedIsTrimmed(ids: seq<string>)
    requires ids != []
    ensures Printed(ids) == Join(Trimmed(ids)) + "\n"
  {
    var n := |ids| - 1;
    var all := seq(|ids|, i requires 0 <= i < |ids| => ids[i] + "\n");
    var head := all[..n];
    assert all == head + [all[n]] && Trimmed(ids) == head + [ids[n]];
    JoinConcat(head, [all[n]]);
    JoinConcat(head, [ids[n]]);
    assert Join([all[n]]) == all[n] by { JoinOfOne(all[n]); }
    assert Join([ids[n]]) == ids[n] by { JoinOfOne(ids[n]); }
    assert Join(head) + (ids[n] + "\n") == Join(head) + ids[n] + "\n";
  }

  lemma JoinOfOne(line: string)
    ensures Join([line]) == line
  {
  }

  lemma {:induction false} JoinEnds(lines: seq<string>)
    requires IsLines(lines) && lines != []
    ensures Join(lines) != "" && Join(lines)[0] == lines[0][0]
    ensures Join(lines)[|Join(lines)| - 1] == lines[|lines| - 1][|lines[|lines| - 1]| - 1]
  {
    var n := |lines| - 1;
    assert lines == lines[..n] + [lines[n]];
    JoinConcat(lines[..n], [lines[n]]);
    JoinOfOne(lines[n]);
    assert Join(lines) == lines[0] + Join(lines[1..]);
  }

  /** Trimming and cutting into lines recovers every printed id, in order. */
  lemma ListingIsReadBack(ids: seq<string>)
    requires PlainIds(ids)
    ensures Trim(Printed(ids)) == "" <==> ids == []
    ensures Lines(Trim(Printed(ids))) == ids
  {
    if ids != [] {
      var text := Join(Trimmed(ids));
      TrimmedLines(ids);
      JoinEnds(Trimmed(ids));
      PrintedIsTrimmed(ids);
      assert PlainId(ids[0]) && PlainId(ids[|ids| - 1]);
      assert Trimmed(ids)[0][0] == ids[0][0];
      hide Trim, Lines, Join, Printed, Trimmed, IsLines;
      TrimKeepsCore(text, "\n");
    }
  }

  /** A line and its break, written either way. */
  function WithBreak(line: string, carriageReturn: bool): string {
    line + if carriageReturn then "\r\n" else "\n"
  }

  /** Lines are read back without their breaks, of whichever kind. */
  lemma LineBreaksAreDropped(lines: seq<string>, carriageReturns: seq<bool>)
    requires |lines| == |carriageReturns|
    requires forall i :: 0 <= i < |lines| ==> '\n' !in lines[i] && (lines[i] != "" ==> lines[i][|lines[i]| - 1] != '\r')
    ensures Lines(Join(seq(|lines|, i requires 0 <= i < |lines| => WithBreak(lines[i], carriageReturns[i])))) == lines
  {
    var all := seq(|lines|, i requires 0 <= i < |lines| => WithBreak(lines[i], carriageReturns[i]));
    forall i | 0 <= i < |lines| ensures IsLine(all[i]) && Ended(all[i]) && Unbroken(all[i]) == lines[i] {
      OneLineBreak(lines[i], carriageReturns[i]);
    }
    hide Unbroken, IsLine, Ended, WithBreak;
    JoinThenSplit(all);
  }

  lemma OneLineBreak(line: string, carriageReturn: bool)
    requires '\n' !in line && (line != "" ==> line[|line| - 1] != '\r')
    ensures var all := WithBreak(line, carriageReturn); IsLine(all) && Ended(all) && Unbroken(all) == line
  {
    var all := WithBreak(line, carriageReturn);
    assert all[..|line|] == line;
    assert forall i :: 0 <= i < |line| ==> all[i] == line[i] && line[i] in line;
  }

  /******* Creating *******/

  /** The engine after the create client ran: the container is there if the engine made it. */
  function Made(engine: set<Container>, context: string, name: string, made: Option<string>): set<Container> {
    engine + if made.Some? then {Container(context, made.value, name)} else {}
  }

  /** Registers the name, runs the client, records the id it printed and starts the container. */
  function Create(s: State, request: Request, answers: CreateAnswers): (State, Result<Created, string>) {
    if request.context.None? then (s, Failure("Docker context missing"))
    else if answers.name.Failure? then (s, Failure(answers.name.error))
    else
      var name := answers.name.value;
      var named := s.(issued := s.issued + {name});
      if request.workRoot.None? then (named, Failure("Session work root missing"))
      else if answers.folder.Some? then (named, Failure(answers.folder.value))
      else if request.project.None? then (named, Failure("Project root missing"))
      else if ',' in request.project.value || ',' in request.workRoot.value + "/" + name then
        (named, Failure("Docker mount paths containing commas are unsupported"))
      else
        var context := request.context.value;
        var entry := OwnedContainer(context, request.engine, name);
        var ran := named.(owned := s.owned[name := entry], engine := Made(s.engine, context, name, answers.made));
        match answers.create
        case Broken(error) => (ran, Failure(error))
        case Ran(failed, stdout, _) =>
          if failed.Some? then (ran, Success(ClientFailed(failed.value)))
          else if Trim(stdout) == "" then (ran, Failure("Docker create returned no container ID"))
          else
            var id := Trim(stdout);
            var known := ran.(owned := s.owned[name := entry.(id := id)]);
            match Metadata(answers.start)
            case Failure(error) => (known, Failure(error))
            case Success(_) => (known, Success(Started(id)))
  }

  /******* Disposing *******/

  function Without(engine: set<Container>, context: string, id: string): set<Container> {
    set c | c in engine && !(c.context == context && c.id == id)
  }

  /** Removes the listed ids one by one and stops at the first failure. */
  function RemoveAll(engine: set<Container>, context: string, ids: seq<string>, remove: string -> Removal): (set<Container>, Option<string>)
    decreases |ids|
  {
    if ids == [] then (engine, None)
    else
      var removal := remove(ids[0]);
      var left := if removal.gone then Without(engine, context, ids[0]) else engine;
      match Metadata(removal.client)
      case Failure(error) => (left, Some(error))
      case Success(_) => RemoveAll(left, context, ids[1..], remove)
  }

  /** Lists and removes what one name labels; None when all of it succeeded. */
  function DisposeOne(engine: set<Container>, name: string, context: string, answers: DisposeAnswers): (set<Container>, Option<string>) {
    match Metadata(answers.list(name))
    case Failure(error) => (engine, Some(error))
    case Success(text) =>
      if text == "" then (engine, None)
      else RemoveAll(engine, context, Lines(text), id => answers.remove(name, id))
  }

  datatype Sweep = Sweep(engine: set<Container>, kept: seq<string>, failures: seq<string>)

  /** Disposes of the names in order; those that failed are kept, with one message each. */
  function SweepAll(owned: map<string, OwnedContainer>, engine: set<Container>, order: seq<string>, answers: DisposeAnswers): Sweep
    requires forall n :: n in order ==> n in owned
  {
    if order == [] then Sweep(engine, [], [])
    else
      var last := order[|order| - 1];
      assert forall n :: n in order[..|order| - 1] ==> n in order;
      var before := SweepAll(owned, engine, order[..|order| - 1], answers);
      var (left, failure) := DisposeOne(before.engine, last, owned[last].context, answers);
      match failure
      case None => before.(engine := left)
      case Some(error) => Sweep(left, before.kept + [last], before.failures + [error])
  }

  function Joined(parts: seq<string>): string {
    if parts == [] then ""
    else if |parts| == 1 then parts[0]
    else parts[0] + "; " + Joined(parts[1..])
  }

  /** What is left of a map when its `done` keys are dropped unless kept. */
  function Retained<K(==), V>(m: map<K, V>, done: seq<K>, kept: seq<K>): map<K, V> {
    map n | n in m && (n in done ==> n in kept) :: m[n]
  }

  lemma RetainedStep<K(!new), V>(m: map<K, V>, order: seq<K>, i: nat, kept: seq<K>)
    requires i < |order| && NoRepeats(order) && order[i] in m
    requires forall n :: n in kept ==> n in order[..i]
    ensures order[i] !in kept && order[..i + 1] == order[..i] + [order[i]]
    ensures order[i] in Retained(m, order[..i], kept) && Retained(m, order[..i], kept)[order[i]] == m[order[i]]
    ensures Retained(m, order[..i + 1], kept + [order[i]]) == Retained(m, order[..i], kept)
    ensures Retained(m, order[..i + 1], kept) == Retained(m, order[..i], kept) - {order[i]}
  {
  }

  lemma SweepStep(owned: map<string, OwnedContainer>, engine: set<Container>, order: seq<string>, i: nat, answers: DisposeAnswers)
    requires (forall n :: n in order ==> n in owned) && i < |order|
    requires forall n :: n in order[..i] ==> n in owned
    requires forall n :: n in order[..i + 1] ==> n in owned
    ensures
      var before := SweepAll(owned, engine, order[..i], answers);
      var (left, failure) := DisposeOne(before.engine, order[i], owned[order[i]].context, answers);
      SweepAll(owned, engine, order[..i + 1], answers)
        == if failure.None? then before.(engine := left)
           else Sweep(left, before.kept + [order[i]], before.failures + [failure.value])
  {
    assert order[..i + 1][..i] == order[..i];
  }

  lemma SweepOfNothing(owned: map<string, OwnedContainer>, engine: set<Container>, answers: DisposeAnswers)
    ensures SweepAll(owned, engine, [], answers) == Sweep(engine, [], [])
    ensures Retained(owned, [], []) == owned
  {
  }

  /** `order` lists the registered names in the order in which the map is walked. */
  function Dispose(s: State, order: seq<string>, answers: DisposeAnswers): (State, Result<(), string>)
    requires forall n :: n in order ==> n in s.owned
  {
    var sweep := SweepAll(s.owned, s.engine, order, answers);
    (s.(owned := Retained(s.owned, order, sweep.kept), engine := sweep.engine),
     if sweep.failures == [] then Success(()) else Failure(Joined(sweep.failures)))
  }

  function Owns(s: State, id: string, engine: string): bool {
    exists n :: n in s.owned && s.owned[n].id == id && s.owned[n].engine == engine
  }

  /******* The owning object *******/

  class ContainerRegistry {
    var owned: map<string, OwnedContainer>
    ghost var engine: set<Container>
    ghost var issued: set<string>

    constructor (engine: set<Container>)
      ensures Now() == State(map[], engine, {})
    {
      owned, this.engine, issued := map[], engine, {};
    }

    ghost function Now(): State
      reads this
    {
      State(owned, engine, issued)
    }

    method CreateContainer(request: Request, answers: CreateAnswers) returns (result: Result<Created, string>)
      modifies this
      ensures (Now(), result) == Create(old(Now()), request, answers)
    {
      if request.context.None? {
        return Failure("Docker context missing");
      }
      if answers.name.Failure? {
        return Failure(answers.name.error);
      }
      var name := answers.name.value;
      issued := issued + {name};
      if request.workRoot.None? {
        return Failure("Session work root missing");
      }
      var work := request.workRoot.value + "/" + name;
      if answers.folder.Some? {
        return Failure(answers.folder.value);
      }
      if request.project.None? {
        return Failure("Project root missing");
      }
      if ',' in request.project.value || ',' in work {
        return Failure("Docker mount paths containing commas are unsupported");
      }
      var entry := OwnedContainer(request.context.value, request.engine, name);
      owned := owned[name := entry];
      engine := Made(engine, request.context.value, name, answers.made);
      if answers.create.Broken? {
        return Failure(answers.create.error);
      }
      if answers.create.failed.Some? {
        return Success(ClientFailed(answers.create.failed.value));
      }
      var id := Trim(answers.create.stdout);
      if id == "" {
        return Failure("Docker create returned no container ID");
      }
      owned := owned[name := owned[name].(id := id)];
      assert owned == old(owned)[name := entry.(id := id)];
      var started := Metadata(answers.start);
      if started.Failure? {
        return Failure(started.error);
      }
      return Success(Started(id));
    }

    /** One name: the listing, then each removal until one fails. */
    method ClearName(name: string, context: string, answers: DisposeAnswers) returns (failure: Option<string>)
      modifies this`engine
      ensures (engine, failure) == DisposeOne(old(engine), name, context, answers)
    {
      var listed := Metadata(answers.list(name));
      if listed.Failure? {
        return Some(listed.error);
      }
      if listed.value == "" {
        return None;
      }
      var ids := Lines(listed.value);
      var i := 0;
      while i < |ids|
        invariant i <= |ids|
        invariant RemoveAll(old(engine), context, ids, id => answers.remove(name, id))
               == RemoveAll(engine, context, ids[i..], id => answers.remove(name, id))
      {
        assert ids[i..][0] == ids[i] && ids[i..][1..] == ids[i + 1..];
        var removal := answers.remove(name, ids[i]);
        if removal.gone {
          engine := Without(engine, context, ids[i]);
        }
        var removed := Metadata(removal.client);
        if removed.Failure? {
          return Some(removed.error);
        }
        i := i + 1;
      }
      return None;
    }

    method DisposeAll(order: seq<string>, answers: DisposeAnswers) returns (result: Result<(), string>)
      requires NoRepeats(order) && forall n :: n in order <==> n in owned
      modifies this
      ensures (Now(), result) == Dispose(old(Now()), order, answers)
    {
      hide DisposeOne, SweepAll, Retained, Joined, NoRepeats;
      var failures: seq<string> := [];
      ghost var kept: seq<string> := [];
      ghost var registry := owned;
      var i := 0;
      SweepOfNothing(owned, engine, answers);
      while i < |order|
        invariant i <= |order| && issued == old(issued)
        invariant forall n :: n in kept ==> n in order[..i]
        invariant Sweep(engine, kept, failures) == SweepAll(registry, old(engine), order[..i], answers)
        invariant owned == Retained(registry, order[..i], kept)
      {
        var name := order[i];
        RetainedStep(registry, order, i, kept);
        SweepStep(registry, old(engine), order, i, answers);
        var failure := ClearName(name, owned[name].context, answers);
        if failure.Some? {
          failures := failures + [failure.value];
          kept := kept + [name];
        } else {
          owned := owned - {name};
        }
        i := i + 1;
      }
      assert order[..|order|] == order;
      return if failures == [] then Success(()) else Failure(Joined(failures));
    }
  }

  /******* How a creation ends *******/

  /** Everything a creation needs before the client is run. */
  ghost predicate CanCreate(request: Request, answers: CreateAnswers) {
    && request.context.Some? && answers.name.Success? && request.workRoot.Some? && answers.folder.None? && request.project.Some?
    && ',' !in request.project.value && ',' !in request.workRoot.value + "/" + answers.name.value
  }

  /** The client printed this id. */
  ghost predicate PrintsId(answers: CreateAnswers, id: string) {
    answers.create.Ran? && answers.create.failed.None? && id == Trim(answers.create.stdout) && id != ""
  }

  /** Without what it needs a creation runs no client and registers nothing. */
  lemma CreationRefused(s: State, request: Request, answers: CreateAnswers)
    requires !CanCreate(request, answers)
    ensures var (t, result) := Create(s, request, answers);
      result.Failure? && t.owned == s.owned && t.engine == s.engine
  {
  }

  /** The created container and its entry, under the id that the client printed if it did. */
  ghost predicate Registers(s: State, t: State, request: Request, answers: CreateAnswers, id: string)
    requires CanCreate(request, answers)
  {
    var name, context := answers.name.value, request.context.value;
    && t.owned == s.owned[name := OwnedContainer(context, request.engine, id)] && t.issued == s.issued + {name}
    && (forall c :: c in t.engine <==> c in s.engine || (answers.made.Some? && c == Container(context, answers.made.value, name)))
  }

  /** Otherwise the name is registered, and the result follows from the clients, one after the other. */
  lemma CreationExactly(s: State, request: Request, answers: CreateAnswers)
    requires CanCreate(request, answers)
    ensures var (t, result) := Create(s, request, answers); var name := answers.name.value;
      && (forall id :: PrintsId(answers, id) ==>
            && Registers(s, t, request, answers, id) && IsCore(answers.create.stdout, id)
            && (result == Success(Started(id)) <==> Works(answers.start))
            && (result.Failure? <==> !Works(answers.start)) && (result.Failure? ==> IsErrorOf(answers.start, result.error)))
      && ((forall id :: !PrintsId(answers, id)) ==>
            && Registers(s, t, request, answers, name)
            && (answers.create.Broken? ==> result == Failure(answers.create.error))
            && (answers.create.Ran? && answers.create.failed.Some? ==> result == Success(ClientFailed(answers.create.failed.value)))
            && (answers.create.Ran? && answers.create.failed.None? ==> result == Failure("Docker create returned no container ID")))
  {
    MetadataExactly(answers.start);
    if answers.create.Ran? {
      TrimIsCore(answers.create.stdout);
      assert PrintsId(answers, Trim(answers.create.stdout)) <==> answers.create.failed.None? && Trim(answers.create.stdout) != "";
    }
    hide Trim, IsCore, Metadata, Works, IsErrorOf;
  }

  /** A container is recognised by the id it was registered under, for its engine, and by nothing else. */
  lemma OwnedExactly(s: State, request: Request, answers: CreateAnswers, id: string, registered: string, engine: string)
    requires CanCreate(request, answers) && answers.name.value !in s.owned
    requires Registers(s, Create(s, request, answers).0, request, answers, registered)
    ensures Owns(Create(s, request, answers).0, id, engine) <==> Owns(s, id, engine) || (id == registered && engine == request.engine)
    ensures !Owns(State(map[], s.engine, s.issued), id, engine)
  {
    var t, name := Create(s, request, answers).0, answers.name.value;
    hide Create, CanCreate;
    assert t.owned[name].id == registered && t.owned[name].engine == request.engine;
    if Owns(s, id, engine) {
      var n :| n in s.owned && s.owned[n].id == id && s.owned[n].engine == engine;
      assert t.owned[n] == s.owned[n];
    }
  }

  /** One of the first n removals was of this id and took it away. */
  ghost predicate TakenAway(ids: seq<string>, n: nat, remove: string -> Removal, id: string)
    requires n <= |ids|
  {
    exists i :: 0 <= i < n && ids[i] == id && remove(ids[i]).gone
  }

  lemma TakenAwayMore(ids: seq<string>, n: nat, remove: string -> Removal, id: string)
    requires n < |ids|
    ensures TakenAway(ids, n + 1, remove, id) <==> (ids[0] == id && remove(id).gone) || TakenAway(ids[1..], n, remove, id)
  {
    var rest := ids[1..];
    if i :| 0 <= i < n && rest[i] == id && remove(rest[i]).gone {
      assert ids[i + 1] == id;
    }
    if i :| 0 <= i < n + 1 && ids[i] == id && remove(ids[i]).gone {
      assert i > 0 ==> rest[i - 1] == id;
    }
  }

  /** Every removal but the last one tried worked. */
  ghost predicate WorkedBefore(ids: seq<string>, tried: nat, remove: string -> Removal)
    requires tried <= |ids|
  {
    forall i :: 0 <= i < tried - 1 ==> Works(remove(ids[i]).client)
  }

  /** Removal goes on up to the first id whose client fails; exactly those tried and gone are missing afterwards. */
  lemma {:induction false} RemovalsExactly(engine: set<Container>, context: string, ids: seq<string>, remove: string -> Removal)
    returns (tried: nat)
    ensures tried <= |ids| && WorkedBefore(ids, tried, remove)
    ensures
      var (left, failure) := RemoveAll(engine, context, ids, remove);
      && (failure.None? ==> tried == |ids| && (tried > 0 ==> Works(remove(ids[tried - 1]).client)))
      && (failure.Some? ==> tried > 0 && IsErrorOf(remove(ids[tried - 1]).client, failure.value))
      && (forall c :: c in left <==> c in engine && !(c.context == context && TakenAway(ids, tried, remove, c.id)))
    decreases |ids|
  {
    tried := 0;
    if ids != [] {
      var removal, rest := remove(ids[0]), ids[1..];
      MetadataExactly(removal.client);
      hide Works, IsErrorOf, Metadata, IsCore, TakenAway, WorkedBefore;
      if Metadata(removal.client).Success? {
        var left := if removal.gone then Without(engine, context, ids[0]) else engine;
        var more := RemovalsExactly(left, context, rest, remove);
        tried := more + 1;
        WorkedBeforeMore(ids, more, remove);
        forall c: Container ensures
          TakenAway(ids, tried, remove, c.id) <==> (ids[0] == c.id && removal.gone) || TakenAway(rest, more, remove, c.id)
        {
          TakenAwayMore(ids, more, remove, c.id);
        }
      } else {
        tried := 1;
        OneTried(ids, remove);
        forall c: Container ensures TakenAway(ids, 1, remove, c.id) <==> ids[0] == c.id && removal.gone {
          TakenAwayMore(ids, 0, remove, c.id);
          NoneTried(rest, remove, c.id);
        }
      }
    } else {
      NothingTried(ids, engine, remove);
    }
  }

  lemma WorkedBeforeMore(ids: seq<string>, more: nat, remove: string -> Removal)
    requires more < |ids| && WorkedBefore(ids[1..], more, remove) && Works(remove(ids[0]).client)
    ensures WorkedBefore(ids, more + 1, remove)
  {
    hide Works;
    assert forall i :: 1 <= i < |ids| ==> ids[i] == ids[1..][i - 1];
  }

  lemma OneTried(ids: seq<string>, remove: string -> Removal)
    requires ids != []
    ensures WorkedBefore(ids, 1, remove)
  {
  }

  lemma NoneTried(ids: seq<string>, remove: string -> Removal, id: string)
    ensures !TakenAway(ids, 0, remove, id)
  {
  }

  lemma NothingTried(ids: seq<string>, engine: set<Container>, remove: string -> Removal)
    ensures WorkedBefore(ids, 0, remove) && forall id :: !TakenAway(ids, 0, remove, id)
  {
  }

  /** The listing's error, or that of some removal. */
  ghost predicate ErrorFor(name: string, answers: DisposeAnswers, error: string) {
    IsErrorOf(answers.list(name), error) || exists id :: IsErrorOf(answers.remove(name, id).client, error)
  }

  lemma DisposalReports(engine: set<Container>, name: string, context: string, answers: DisposeAnswers)
    ensures var failure := DisposeOne(engine, name, context, answers).1;
      failure.Some? ==> ErrorFor(name, answers, failure.value)
  {
    MetadataExactly(answers.list(name));
    hide Works, IsErrorOf, Metadata, IsCore, Lines;
    var listed := Metadata(answers.list(name));
    if listed.Success? && listed.value != "" {
      var ids := Lines(listed.value);
      var tried := RemovalsExactly(engine, context, ids, id => answers.remove(name, id));
    }
  }

  /** A failing disposal has one message for each name it keeps, in the order of the walk. */
  lemma {:induction false} SweepReports(owned: map<string, OwnedContainer>, engine: set<Container>, order: seq<string>, answers: DisposeAnswers)
    requires forall n :: n in order ==> n in owned
    ensures var sweep := SweepAll(owned, engine, order, answers);
      && |sweep.kept| == |sweep.failures|
      && forall k :: 0 <= k < |sweep.kept| ==> ErrorFor(sweep.kept[k], answers, sweep.failures[k])
  {
    if order != [] {
      var front, last := order[..|order| - 1], order[|order| - 1];
      assert forall n :: n in front ==> n in order;
      SweepReports(owned, engine, front, answers);
      var before := SweepAll(owned, engine, front, answers);
      DisposalReports(before.engine, last, owned[last].context, answers);
      SweepOfLast(owned, engine, order, answers);
      hide ErrorFor, SweepAll, DisposeOne;
    }
  }

  lemma DisposalMessage(s: State, order: seq<string>, answers: DisposeAnswers) returns (kept: seq<string>, messages: seq<string>)
    requires forall n :: n in order ==> n in s.owned
    ensures |kept| == |messages| && forall k :: 0 <= k < |kept| ==> ErrorFor(kept[k], answers, messages[k])
    ensures Dispose(s, order, answers).1 == if messages == [] then Success(()) else Failure(Joined(messages))
    ensures forall n :: n in order && n in Dispose(s, order, answers).0.owned <==> n in kept && n in order
  {
    SweepReports(s.owned, s.engine, order, answers);
    var sweep := SweepAll(s.owned, s.engine, order, answers);
    kept, messages := sweep.kept, sweep.failures;
    hide SweepAll, ErrorFor, Joined;
  }

  lemma SweepOfLast(owned: map<string, OwnedContainer>, engine: set<Container>, order: seq<string>, answers: DisposeAnswers)
    requires order != [] && (forall n :: n in order ==> n in owned) && forall n :: n in order[..|order| - 1] ==> n in owned
    ensures var last := order[|order| - 1]; var before := SweepAll(owned, engine, order[..|order| - 1], answers);
      var (left, failure) := DisposeOne(before.engine, last, owned[last].context, answers);
      SweepAll(owned, engine, order, answers)
        == if failure.None? then before.(engine := left) else Sweep(left, before.kept + [last], before.failures + [failure.value])
  {
  }

  lemma {:induction false} JoinedExactly(a: seq<string>, b: seq<string>)
    requires a != [] && b != []
    ensures Joined(a + b) == Joined(a) + "; " + Joined(b) && (|a| == 1 ==> Joined(a) == a[0])
  {
    assert (a + b)[1..] == a[1..] + b;
    if |a| > 1 {
      JoinedExactly(a[1..], b);
    }
  }

  /******* Truthful surroundings *******/

  /** A container is known by its id within its context. */
  ghost predicate KnownById(engine: set<Container>) {
    forall c, d :: c in engine && d in engine && c.context == d.context && c.id == d.id ==> c == d
  }

  ghost predicate ListsLabelled(engine: set<Container>, context: string, name: string, ids: seq<string>) {
    PlainIds(ids) && forall id :: id in ids <==> Container(context, id, name) in engine
  }

  /** A successful listing prints exactly the ids of the containers with that label. */
  ghost predicate ListingSays(engine: set<Container>, context: string, name: string, client: Client) {
    Works(client) ==> exists ids :: client.stdout == Printed(ids) && ListsLabelled(engine, context, name, ids)
  }

  ghost predicate RemovalSays(removal: Removal) {
    Works(removal.client) ==> removal.gone
  }

  ghost predicate Truthful(owned: map<string, OwnedContainer>, engine: set<Container>, answers: DisposeAnswers) {
    && KnownById(engine)
    && (forall n :: n in owned ==> ListingSays(engine, owned[n].context, n, answers.list(n)))
    && (forall n, id :: RemovalSays(answers.remove(n, id)))
  }

  ghost predicate SomeRemovalFails(ids: seq<string>, remove: string -> Removal) {
    exists id :: id in ids && !Works(remove(id).client)
  }

  /** The listing of the name, or the removal of an id that it lists, fails. */
  ghost predicate FailsFor(name: string, answers: DisposeAnswers) {
    || !Works(answers.list(name))
    || SomeRemovalFails(Lines(Trim(answers.list(name).stdout)), id => answers.remove(name, id))
  }

  predicate Labelled(c: Container, context: string, name: string) {
    c.context == context && c.owner == name
  }

  /******* What disposal does *******/

  lemma {:induction false} RemoveAllMeaning(engine: set<Container>, context: string, ids: seq<string>, remove: string -> Removal)
    requires forall id :: RemovalSays(remove(id))
    ensures
      var (left, failure) := RemoveAll(engine, context, ids, remove);
      && left <= engine
      && (failure.Some? <==> SomeRemovalFails(ids, remove))
      && (forall c :: c in engine && c !in left ==> c.context == context && c.id in ids)
      && (failure.None? ==> forall c :: c in left && c.context == context ==> c.id !in ids)
    decreases |ids|
  {
    if ids != [] {
      var removal := remove(ids[0]);
      assert RemovalSays(remove(ids[0]));
      var left := if removal.gone then Without(engine, context, ids[0]) else engine;
      assert forall id :: id in ids <==> id == ids[0] || id in ids[1..];
      if Metadata(removal.client).Success? {
        RemoveAllMeaning(left, context, ids[1..], remove);
        assert SomeRemovalFails(ids, remove) <==> SomeRemovalFails(ids[1..], remove);
      }
    }
  }

  lemma DisposeOneMeaning(engine: set<Container>, name: string, context: string, answers: DisposeAnswers)
    requires KnownById(engine) && ListingSays(engine, context, name, answers.list(name))
    requires forall id :: RemovalSays(answers.remove(name, id))
    ensures
      var (left, failure) := DisposeOne(engine, name, context, answers);
      && left <= engine
      && (failure.Some? <==> FailsFor(name, answers))
      && (forall c :: c in engine && c !in left ==> Labelled(c, context, name))
      && (failure.None? ==> forall c :: c in left ==> !Labelled(c, context, name))
  {
    var listed := Metadata(answers.list(name));
    if listed.Success? {
      var ids :| answers.list(name).stdout == Printed(ids) && ListsLabelled(engine, context, name, ids);
      ListingIsReadBack(ids);
      hide Trim, Lines, Printed, PlainIds, RemoveAll, Metadata;
      RemoveAllMeaning(engine, context, ids, id => answers.remove(name, id));
      assert forall c :: c in engine && Labelled(c, context, name) ==> c == Container(context, c.id, name);
    }
  }

  /** What disposal of other names leaves is still listed truthfully. */
  lemma StillListed(engine: set<Container>, left: set<Container>, context: string, name: string, client: Client)
    requires ListingSays(engine, context, name, client) && KnownById(engine)
    requires left <= engine && forall c :: c in engine && c !in left ==> c.owner != name
    ensures ListingSays(left, context, name, client) && KnownById(left)
  {
  }

  ghost predicate Swept(owned: map<string, OwnedContainer>, engine: set<Container>, order: seq<string>, answers: DisposeAnswers, sweep: Sweep)
    requires forall n :: n in order ==> n in owned
  {
    && sweep.engine <= engine && |sweep.kept| == |sweep.failures|
    && (forall c :: c in engine && c !in sweep.engine ==> c.owner in order && c.context == owned[c.owner].context)
    && (forall n :: n in sweep.kept <==> n in order && FailsFor(n, answers))
    && (forall c :: c in sweep.engine && c.owner in order && c.context == owned[c.owner].context ==> FailsFor(c.owner, answers))
  }

  /** Sweeping one name more. */
  lemma SweptOneMore(owned: map<string, OwnedContainer>, engine: set<Container>, front: seq<string>, last: string,
                     answers: DisposeAnswers, before: Sweep, left: set<Container>, failure: Option<string>)
    requires (forall n :: n in front ==> n in owned) && last in owned && last !in front
    requires Swept(owned, engine, front, answers, before)
    requires left <= before.engine && (failure.Some? <==> FailsFor(last, answers))
    requires forall c :: c in before.engine && c !in left ==> Labelled(c, owned[last].context, last)
    requires failure.None? ==> forall c :: c in left ==> !Labelled(c, owned[last].context, last)
    ensures Swept(owned, engine, front + [last], answers,
      match failure
      case None => before.(engine := left)
      case Some(error) => Sweep(left, before.kept + [last], before.failures + [error]))
  {
    hide FailsFor;
    assert forall n :: n in front + [last] <==> n in front || n == last;
  }

  lemma {:induction false} SweepMeaning(owned: map<string, OwnedContainer>, engine: set<Container>, order: seq<string>, answers: DisposeAnswers)
    requires NoRepeats(order) && (forall n :: n in order ==> n in owned) && Truthful(owned, engine, answers)
    ensures Swept(owned, engine, order, answers, SweepAll(owned, engine, order, answers))
  {
    hide FailsFor, ListingSays, RemovalSays, DisposeOne;
    if order != [] {
      var front, last := order[..|order| - 1], order[|order| - 1];
      assert order == front + [last];
      NoRepeatsAppend(front, last);
      SweepMeaning(owned, engine, front, answers);
      hide NoRepeats;
      var before := SweepAll(owned, engine, front, answers);
      StillListed(engine, before.engine, owned[last].context, last, answers.list(last));
      DisposeOneMeaning(before.engine, last, owned[last].context, answers);
      var (left, failure) := DisposeOne(before.engine, last, owned[last].context, answers);
      hide Swept;
      SweptOneMore(owned, engine, front, last, answers, before, left, failure);
    }
  }

  /******* Nothing is orphaned *******/

  /** Every container this object caused to exist has its label registered, with the right context. */
  ghost predicate Registered(s: State) {
    && (forall n :: n in s.owned ==> n in s.issued)
    && (forall c :: c in s.engine && c.owner in s.issued ==> c.owner in s.owned && s.owned[c.owner].context == c.context)
  }

  /**
   Disposal keeps exactly the names whose listing or removal failed, with their entries, and succeeds
   if and only if there are none; what it forgets is gone and what is not its own is untouched.
   */
  lemma DisposeKeepsExactlyTheFailures(s: State, order: seq<string>, answers: DisposeAnswers)
    requires NoRepeats(order) && (forall n :: n in order <==> n in s.owned)
    requires Registered(s) && Truthful(s.owned, s.engine, answers)
    ensures
      var (t, result) := Dispose(s, order, answers);
      && (forall n :: n in t.owned <==> n in s.owned && FailsFor(n, answers))
      && (forall n :: n in t.owned ==> t.owned[n] == s.owned[n])
      && (result.Success? <==> t.owned == map[])
      && (result.Success? ==> forall c :: c in t.engine ==> c.owner !in s.issued)
      && (forall c: Container :: c.owner !in s.issued ==> (c in t.engine <==> c in s.engine))
      && t.issued == s.issued && Registered(t)
  {
    hide FailsFor, Truthful, NoRepeats, SweepAll;
    SweepMeaning(s.owned, s.engine, order, answers);
    var sweep := SweepAll(s.owned, s.engine, order, answers);
    var (t, result) := Dispose(s, order, answers);
    if sweep.kept != [] {
      assert sweep.kept[0] in t.owned;
    }
  }

  /** The generated name is new, and nobody else uses it as a label. */
  ghost predicate FreshName(s: State, name: string) {
    name !in s.issued && forall c :: c in s.engine ==> c.owner != name
  }

  /** However creation ends, the container that it may have left is registered; earlier entries stay. */
  lemma CreateRegisters(s: State, request: Request, answers: CreateAnswers)
    requires Registered(s) && (answers.name.Success? ==> FreshName(s, answers.name.value))
    ensures
      var (t, result) := Create(s, request, answers);
      && Registered(t) && s.engine <= t.engine
      && (forall n :: n in s.owned ==> n in t.owned && t.owned[n] == s.owned[n])
      && (forall c :: c in t.engine && c !in s.engine ==> c.owner in t.owned && c.owner !in s.owned)
  {
    hide Trim;
  }

  /** The client that succeeds prints the id of the container it had the engine make. */
  ghost predicate CreateSays(answers: CreateAnswers) {
    answers.create.Ran? && answers.create.failed.None? ==>
      exists id :: PlainId(id) && answers.made == Some(id) && answers.create.stdout == Printed([id])
  }

  /** A started container is the one the engine made, and is recognised as owned. */
  lemma StartedIsOwned(s: State, request: Request, answers: CreateAnswers)
    requires CreateSays(answers) && Create(s, request, answers).1.Success? && Create(s, request, answers).1.value.Started?
    ensures
      var (t, result) := Create(s, request, answers);
      && answers.made == Some(result.value.id) && Owns(t, result.value.id, request.engine)
      && exists c :: c in t.engine && c.id == result.value.id && Some(c.context) == request.context
  {
    var id :| PlainId(id) && answers.made == Some(id) && answers.create.stdout == Printed([id]);
    var name := answers.name.value;
    JoinOfOne(id + "\n");
    assert seq(|[id]|, i requires 0 <= i < 1 => [id][i] + "\n") == [id + "\n"];
    TrimKeepsCore(id, "\n");
    hide Trim, Printed, Metadata;
    var t := Create(s, request, answers).0;
    assert t.owned[name].id == id && t.owned[name].engine == request.engine;
    assert Container(request.context.value, id, name) in t.engine;
  }

  /******* Runs *******/

  datatype Event =
    | Creating(request: Request, creation: CreateAnswers)
    | Disposing(order: seq<string>, disposal: DisposeAnswers)
    | Elsewhere(engine: set<Container>)

  /** Others never use the generated names as labels; they may remove any container. */
  ghost predicate Admissible(s: State, e: Event) {
    match e
    case Creating(_, answers) => answers.name.Success? ==> FreshName(s, answers.name.value)
    case Disposing(order, answers) =>
      NoRepeats(order) && (forall n :: n in order <==> n in s.owned) && Truthful(s.owned, s.engine, answers)
    case Elsewhere(engine) => forall c :: c in engine && c.owner in s.issued ==> c in s.engine
  }

  ghost function Step(s: State, e: Event): State
    requires Admissible(s, e)
  {
    match e
    case Creating(request, answers) => Create(s, request, answers).0
    case Disposing(order, answers) => Dispose(s, order, answers).0
    case Elsewhere(engine) => s.(engine := engine)
  }

  ghost predicate AdmissibleRun(s: State, events: seq<Event>)
    decreases |events|
  {
    events != [] ==> Admissible(s, events[0]) && AdmissibleRun(Step(s, events[0]), events[1..])
  }

  ghost function Run(s: State, events: seq<Event>): State
    requires AdmissibleRun(s, events)
    decreases |events|
  {
    if events == [] then s else Run(Step(s, events[0]), events[1..])
  }

  lemma RegisteredKept(s: State, e: Event)
    requires Registered(s) && Admissible(s, e)
    ensures Registered(Step(s, e))
  {
    match e {
      case Creating(request, answers) => CreateRegisters(s, request, answers);
      case Disposing(order, answers) => DisposeKeepsExactlyTheFailures(s, order, answers);
      case Elsewhere(_) =>
    }
  }

  /** Over every run, whatever this object caused to exist and still exists is registered. */
  lemma {:induction false} RegisteredOverRun(s: State, events: seq<Event>)
    requires Registered(s) && AdmissibleRun(s, events)
    ensures Registered(Run(s, events))
    decreases |events|
  {
    if events != [] {
      hide Registered, Step;
      RegisteredKept(s, events[0]);
      RegisteredOverRun(Step(s, events[0]), events[1..]);
    }
  }

  /** A registered entry stays as it is until nothing with its label is left. */
  lemma OwnedUntilGone(s: State, e: Event, name: string)
    requires Registered(s) && Admissible(s, e) && name in s.owned
    ensures
      var t := Step(s, e);
      (name in t.owned && t.owned[name] == s.owned[name]) || forall c :: c in t.engine ==> c.owner != name
  {
    match e {
      case Creating(request, answers) => CreateRegisters(s, request, answers);
      case Disposing(order, answers) => DisposeKeepsExactlyTheFailures(s, order, answers);
      case Elsewhere(_) =>
    }
  }

  /** A run that ends in a successful disposal leaves no container behind that it caused to exist. */
  lemma SuccessfulDisposalLeavesNothing(engine: set<Container>, events: seq<Event>, order: seq<string>, answers: DisposeAnswers)
    requires AdmissibleRun(State(map[], engine, {}), events)
    requires Admissible(Run(State(map[], engine, {}), events), Disposing(order, answers))
    requires Dispose(Run(State(map[], engine, {}), events), order, answers).1.Success?
    ensures
      var end := Dispose(Run(State(map[], engine, {}), events), order, answers).0;
      end.owned == map[] && forall c :: c in end.engine ==> c.owner !in end.issued
  {
    var start := State(map[], engine, {});
    RegisteredOverRun(start, events);
    DisposeKeepsExactlyTheFailures(Run(start, events), order, answers);
  }
}
