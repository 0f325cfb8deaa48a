/**
 Publishing a staged build over an installed one. Program entries and artifacts are moved aside and
 replaced one rename at a time, each of which can raise without effect; four undo lists say what to
 take back. The run is a function of the disk and of which operations raise, and the publisher
 class performs it in place. Renames follow POSIX: a file name in the way is replaced silently.
 */
module Publish {
  import opened Distinct

  datatype Path = Path(directory: string, name: string)

  /** A finished file to be moved to its published place. */
  datatype Artifact = Artifact(source: Path, target: Path)

  /**
   The directories a run touches: the destination, the stage, `previous` in the temporary directory,
   plain files by path, and the saved artifacts in the temporary directory.
   */
  datatype Disk<T> = Disk(
    dest: map<string, T>,
    stage: map<string, T>,
    previous: map<string, T>,
    files: map<Path, T>,
    saved: map<string, T>)

  /** Every operation that can raise; undo operations name the position in their list. */
  datatype Operation =
    | MoveAside(name: string)
    | Install(name: string)
    | SaveArtifact(index: nat)
    | PlaceArtifact(index: nat)
    | UnlinkArtifact(position: nat)
    | RestoreArtifact(position: nat)
    | TakeBack(position: nat)
    | PutBack(position: nat)

  type Faults = Operation -> bool

  /** A run under way with its undo lists; `failed` once an operation has raised. */
  datatype Run<T> = Run(
    disk: Disk<T>,
    moved: seq<string>,
    installed: seq<string>,
    movedArtifacts: seq<Path>,
    installedArtifacts: seq<Path>,
    failed: bool)

  /******* Single renames *******/

  function SetAside<T>(d: Disk<T>, name: string): Disk<T>
    requires name in d.dest
  {
    d.(dest := d.dest - {name}, previous := d.previous[name := d.dest[name]])
  }

  function MoveIn<T>(d: Disk<T>, name: string): Disk<T>
    requires name in d.stage
  {
    d.(stage := d.stage - {name}, dest := d.dest[name := d.stage[name]])
  }

  function MoveOut<T>(d: Disk<T>, name: string): Disk<T>
    requires name in d.dest
  {
    d.(dest := d.dest - {name}, stage := d.stage[name := d.dest[name]])
  }

  function BringBack<T>(d: Disk<T>, name: string): Disk<T>
    requires name in d.previous
  {
    d.(previous := d.previous - {name}, dest := d.dest[name := d.previous[name]])
  }

  function SaveFile<T>(d: Disk<T>, path: Path): Disk<T>
    requires path in d.files
  {
    d.(files := d.files - {path}, saved := d.saved[path.name := d.files[path]])
  }

  function MoveFile<T>(d: Disk<T>, from: Path, to: Path): Disk<T>
    requires from in d.files
  {
    d.(files := (d.files - {from})[to := d.files[from]])
  }

  function RestoreFile<T>(d: Disk<T>, path: Path): Disk<T>
    requires path.name in d.saved
  {
    d.(saved := d.saved - {path.name}, files := d.files[path := d.saved[path.name]])
  }

  /******* The forward run *******/

  function MoveAll<T>(r: Run<T>, names: seq<string>, faults: Faults): Run<T>
    decreases |names|
  {
    if r.failed || names == [] then r
    else if names[0] !in r.disk.dest then MoveAll(r, names[1..], faults)
    else if faults(MoveAside(names[0])) then r.(failed := true)
    else MoveAll(r.(disk := SetAside(r.disk, names[0]), moved := r.moved + [names[0]]), names[1..], faults)
  }

  function InstallAll<T>(r: Run<T>, names: seq<string>, faults: Faults): Run<T>
    decreases |names|
  {
    if r.failed || names == [] then r
    else if faults(Install(names[0])) || names[0] !in r.disk.stage then r.(failed := true)
    else InstallAll(r.(disk := MoveIn(r.disk, names[0]), installed := r.installed + [names[0]]), names[1..], faults)
  }

  /** Moves an existing artifact aside. */
  function Save<T>(r: Run<T>, artifact: Artifact, index: nat, faults: Faults): Run<T> {
    if artifact.target !in r.disk.files then r
    else if faults(SaveArtifact(index)) then r.(failed := true)
    else r.(disk := SaveFile(r.disk, artifact.target), movedArtifacts := r.movedArtifacts + [artifact.target])
  }

  /** Puts the new artifact in place; its source may have gone. */
  function Place<T>(r: Run<T>, artifact: Artifact, index: nat, faults: Faults): Run<T> {
    if r.failed then r
    else if faults(PlaceArtifact(index)) || artifact.source !in r.disk.files then r.(failed := true)
    else r.(disk := MoveFile(r.disk, artifact.source, artifact.target),
            installedArtifacts := r.installedArtifacts + [artifact.target])
  }

  function PlaceAll<T>(r: Run<T>, artifacts: seq<Artifact>, index: nat, faults: Faults): Run<T>
    requires index <= |artifacts|
    decreases |artifacts| - index
  {
    if r.failed || index == |artifacts| then r
    else PlaceAll(Place(Save(r, artifacts[index], index, faults), artifacts[index], index, faults), artifacts, index + 1, faults)
  }

  function Start<T>(d: Disk<T>): Run<T> {
    Run(d, [], [], [], [], false)
  }

  function Forward<T>(d: Disk<T>, names: seq<string>, entries: seq<string>, artifacts: seq<Artifact>, faults: Faults): Run<T> {
    PlaceAll(InstallAll(MoveAll(Start(d), names, faults), entries, faults), artifacts, 0, faults)
  }

  /******* The undo *******/

  /** The disk during the undo; `stuck` once an undo operation has raised, which ends the undo. */
  datatype Undo<T> = Undo(disk: Disk<T>, stuck: bool)

  function UnlinkAll<T>(u: Undo<T>, targets: seq<Path>, faults: Faults): Undo<T>
    decreases |targets|
  {
    if u.stuck || targets == [] then u
    else
      var last := |targets| - 1;
      if faults(UnlinkArtifact(last)) || targets[last] !in u.disk.files then u.(stuck := true)
      else UnlinkAll(u.(disk := u.disk.(files := u.disk.files - {targets[last]})), targets[..last], faults)
  }

  function RestoreAll<T>(u: Undo<T>, targets: seq<Path>, faults: Faults): Undo<T>
    decreases |targets|
  {
    if u.stuck || targets == [] then u
    else
      var last := |targets| - 1;
      if faults(RestoreArtifact(last)) || targets[last].name !in u.disk.saved then u.(stuck := true)
      else RestoreAll(u.(disk := RestoreFile(u.disk, targets[last])), targets[..last], faults)
  }

  function TakeBackAll<T>(u: Undo<T>, names: seq<string>, faults: Faults): Undo<T>
    decreases |names|
  {
    if u.stuck || names == [] then u
    else
      var last := |names| - 1;
      if faults(TakeBack(last)) || names[last] !in u.disk.dest then u.(stuck := true)
      else TakeBackAll(u.(disk := MoveOut(u.disk, names[last])), names[..last], faults)
  }

  function PutBackAll<T>(u: Undo<T>, names: seq<string>, faults: Faults): Undo<T>
    decreases |names|
  {
    if u.stuck || names == [] then u
    else
      var last := |names| - 1;
      if faults(PutBack(last)) || names[last] !in u.disk.previous then u.(stuck := true)
      else PutBackAll(u.(disk := BringBack(u.disk, names[last])), names[..last], faults)
  }

  function UndoAll<T>(r: Run<T>, faults: Faults): Undo<T> {
    var artifacts := RestoreAll(UnlinkAll(Undo(r.disk, false), r.installedArtifacts, faults), r.movedArtifacts, faults);
    PutBackAll(TakeBackAll(artifacts, r.installed, faults), r.moved, faults)
  }

  /** The temporary directory is removed unless it still holds original program entries of a failed run. */
  function Cleanup<T>(d: Disk<T>, published: bool): Disk<T> {
    if published || d.previous == map[] then d.(previous := map[], saved := map[]) else d
  }

  datatype Outcome<T> = Outcome(disk: Disk<T>, published: bool)

  function Published<T>(d: Disk<T>, names: seq<string>, entries: seq<string>, artifacts: seq<Artifact>, faults: Faults): Outcome<T> {
    var run := Forward(d, names, entries, artifacts, faults);
    if run.failed then Outcome(Cleanup(UndoAll(run, faults).disk, false), false)
    else Outcome(Cleanup(run.disk, true), true)
  }

  /******* The inputs of a run *******/

  /** A fresh temporary directory; the owned and staged names in some order, and the stage in some order. */
  ghost predicate Ready<T>(d: Disk<T>, names: seq<string>, entries: seq<string>) {
    && d.previous == map[] && d.saved == map[]
    && NoRepeats(names) && NoRepeats(entries)
    && (forall n :: n in entries <==> n in d.stage)
    && (forall n :: n in entries ==> n in names)
  }

  ghost predicate UndoSucceeds(faults: Faults) {
    forall i :: !faults(UnlinkArtifact(i)) && !faults(RestoreArtifact(i)) && !faults(TakeBack(i)) && !faults(PutBack(i))
  }

  /******* The publisher *******/

  /** Performs the run in place on its directories. */
  class Publisher<T> {
    var dest: map<string, T>
    var stage: map<string, T>
    var previous: map<string, T>
    var files: map<Path, T>
    var saved: map<string, T>

    ghost function State(): Disk<T>
      reads this
    {
      Disk(dest, stage, previous, files, saved)
    }

    /** Moves every existing entry of `names` aside and every staged entry in; reports what was done. */
    method ReplaceEntries(names: seq<string>, entries: seq<string>, faults: Faults)
      returns (moved: seq<string>, installed: seq<string>, failed: bool)
      modifies this
      ensures Run(State(), moved, installed, [], [], failed)
           == InstallAll(MoveAll(Start(old(State())), names, faults), entries, faults)
    {
      moved, installed, failed := [], [], false;
      var i := 0;
      while i < |names| && !failed
        invariant i <= |names|
        invariant MoveAll(Run(State(), moved, [], [], [], failed), names[i..], faults)
               == MoveAll(Start(old(State())), names, faults)
      {
        var name := names[i];
        assert names[i..][1..] == names[i + 1..];
        if name in dest {
          if faults(MoveAside(name)) {
            failed := true;
          } else {
            dest, previous := dest - {name}, previous[name := dest[name]];
            moved := moved + [name];
          }
        }
        i := i + 1;
      }
      ghost var aside := Run(State(), moved, [], [], [], failed);
      assert names[i..] == [] || failed;
      i := 0;
      while i < |entries| && !failed
        invariant i <= |entries|
        invariant InstallAll(Run(State(), moved, installed, [], [], failed), entries[i..], faults)
               == InstallAll(aside, entries, faults)
      {
        var name := entries[i];
        assert entries[i..][1..] == entries[i + 1..];
        if faults(Install(name)) || name !in stage {
          failed := true;
        } else {
          stage, dest := stage - {name}, dest[name := stage[name]];
          installed := installed + [name];
        }
        i := i + 1;
      }
    }

    method ReplaceArtifacts(artifacts: seq<Artifact>, faults: Faults, ghost start: Run<T>)
      returns (movedArtifacts: seq<Path>, installedArtifacts: seq<Path>, failed: bool)
      requires start.disk == State() && start.movedArtifacts == start.installedArtifacts == [] && !start.failed
      modifies this
      ensures Run(State(), start.moved, start.installed, movedArtifacts, installedArtifacts, failed)
           == PlaceAll(start, artifacts, 0, faults)
    {
      movedArtifacts, installedArtifacts, failed := [], [], false;
      var i := 0;
      while i < |artifacts| && !failed
        invariant i <= |artifacts|
        invariant PlaceAll(Run(State(), start.moved, start.installed, movedArtifacts, installedArtifacts, failed), artifacts, i, faults)
               == PlaceAll(start, artifacts, 0, faults)
      {
        var source, target := artifacts[i].source, artifacts[i].target;
        if target in files {
          if faults(SaveArtifact(i)) {
            failed := true;
          } else {
            files, saved := files - {target}, saved[target.name := files[target]];
            movedArtifacts := movedArtifacts + [target];
          }
        }
        if !failed {
          if faults(PlaceArtifact(i)) || source !in files {
            failed := true;
          } else {
            files := (files - {source})[target := files[source]];
            installedArtifacts := installedArtifacts + [target];
          }
        }
        i := i + 1;
      }
    }

    /** First half of the handler: new artifacts are unlinked, saved ones restored, last first. */
    method TakeArtifactsBack(placed: seq<Path>, moved: seq<Path>, faults: Faults) returns (stuck: bool)
      modifies this
      ensures Undo(State(), stuck) == RestoreAll(UnlinkAll(Undo(old(State()), false), placed, faults), moved, faults)
    {
      stuck := false;
      var k := |placed|;
      assert placed[..k] == placed;
      while k > 0 && !stuck
        invariant k <= |placed|
        invariant UnlinkAll(Undo(State(), stuck), placed[..k], faults) == UnlinkAll(Undo(old(State()), false), placed, faults)
        decreases k, !stuck
      {
        var target := placed[k - 1];
        assert placed[..k][..k - 1] == placed[..k - 1];
        if faults(UnlinkArtifact(k - 1)) || target !in files {
          stuck := true;
        } else {
          files := files - {target};
          k := k - 1;
        }
      }
      ghost var unlinked := Undo(State(), stuck);
      k := |moved|;
      assert moved[..k] == moved;
      while k > 0 && !stuck
        invariant k <= |moved|
        invariant RestoreAll(Undo(State(), stuck), moved[..k], faults) == RestoreAll(unlinked, moved, faults)
        decreases k, !stuck
      {
        var target := moved[k - 1];
        assert moved[..k][..k - 1] == moved[..k - 1];
        if faults(RestoreArtifact(k - 1)) || target.name !in saved {
          stuck := true;
        } else {
          saved, files := saved - {target.name}, files[target := saved[target.name]];
          k := k - 1;
        }
      }
    }

    /** Second half: staged entries go back to the stage, originals back to the destination, last first. */
    method TakeEntriesBack(installed: seq<string>, moved: seq<string>, faults: Faults, wasStuck: bool)
      modifies this
      ensures State() == PutBackAll(TakeBackAll(Undo(old(State()), wasStuck), installed, faults), moved, faults).disk
    {
      var stuck := wasStuck;
      var k := |installed|;
      assert installed[..k] == installed;
      while k > 0 && !stuck
        invariant k <= |installed|
        invariant TakeBackAll(Undo(State(), stuck), installed[..k], faults) == TakeBackAll(Undo(old(State()), wasStuck), installed, faults)
        decreases k, !stuck
      {
        var name := installed[k - 1];
        assert installed[..k][..k - 1] == installed[..k - 1];
        if faults(TakeBack(k - 1)) || name !in dest {
          stuck := true;
        } else {
          dest, stage := dest - {name}, stage[name := dest[name]];
          k := k - 1;
        }
      }
      ghost var taken := Undo(State(), stuck);
      k := |moved|;
      assert moved[..k] == moved;
      while k > 0 && !stuck
        invariant k <= |moved|
        invariant PutBackAll(Undo(State(), stuck), moved[..k], faults) == PutBackAll(taken, moved, faults)
        decreases k, !stuck
      {
        var name := moved[k - 1];
        assert moved[..k][..k - 1] == moved[..k - 1];
        if faults(PutBack(k - 1)) || name !in previous {
          stuck := true;
        } else {
          previous, dest := previous - {name}, dest[name := previous[name]];
          k := k - 1;
        }
      }
    }

    method Publish(names: seq<string>, entries: seq<string>, artifacts: seq<Artifact>, faults: Faults) returns (published: bool)
      modifies this
      ensures Outcome(State(), published) == Published(old(State()), names, entries, artifacts, faults)
    {
      hide MoveAll, InstallAll, PlaceAll, UnlinkAll, RestoreAll, TakeBackAll, PutBackAll;
      var moved, installed, failed := ReplaceEntries(names, entries, faults);
      var movedArtifacts: seq<Path>, installedArtifacts: seq<Path> := [], [];
      ghost var replaced := Run(State(), moved, installed, [], [], failed);
      if failed {
        FailedRunPlacesNothing(replaced, artifacts, faults);
      } else {
        movedArtifacts, installedArtifacts, failed := ReplaceArtifacts(artifacts, faults, replaced);
      }
      published := !failed;
      if failed {
        var stuck := TakeArtifactsBack(installedArtifacts, movedArtifacts, faults);
        TakeEntriesBack(installed, moved, faults, stuck);
      }
      if published || previous == map[] {
        previous, saved := map[], map[];
      }
    }
  }

  lemma FailedRunPlacesNothing<T>(r: Run<T>, artifacts: seq<Artifact>, faults: Faults)
    requires r.failed
    ensures PlaceAll(r, artifacts, 0, faults) == r
  {
  }
}
