/**
 What a publishing run guarantees, for every disk, every schedule of raising operations and every
 order of the entries: a failed run is rolled back exactly, and no program entry is ever lost, not
 even when the undo itself raises.
 */
module PublishRollback {
  import opened Distinct
  import opened Publish

  /******* Program entries are never lost *******/

  /**
   Where every program entry is: originals in the destination or in `previous`, staged ones in the
   stage or in the destination, and no installed name hides an original.
   */
  ghost predicate Accounted<T>(d: Disk<T>, start: Disk<T>, moved: seq<string>, installed: seq<string>) {
    && NoRepeats(moved) && NoRepeats(installed)
    && (forall n :: n in moved ==> n in start.dest)
    && (forall n :: n in installed ==> n in start.stage && (n in start.dest ==> n in moved))
    && (forall n :: n in d.dest <==> n in installed || (n in start.dest && n !in moved))
    && (forall n :: n in d.dest ==> d.dest[n] == if n in installed then start.stage[n] else start.dest[n])
    && (forall n :: n in d.stage <==> n in start.stage && n !in installed)
    && (forall n :: n in d.stage ==> d.stage[n] == start.stage[n])
    && (forall n :: n in d.previous <==> n in moved)
    && (forall n :: n in d.previous ==> d.previous[n] == start.dest[n])
  }

  lemma AccountedAside<T>(d: Disk<T>, start: Disk<T>, moved: seq<string>, installed: seq<string>, name: string)
    requires Accounted(d, start, moved, installed) && name in start.dest && name !in moved && name !in installed
    ensures name in d.dest && Accounted(SetAside(d, name), start, moved + [name], installed)
  {
  }

  lemma AccountedInstall<T>(d: Disk<T>, start: Disk<T>, moved: seq<string>, installed: seq<string>, name: string)
    requires Accounted(d, start, moved, installed) && name in d.stage && (name in start.dest ==> name in moved)
    ensures name !in d.dest
    ensures Accounted(MoveIn(d, name), start, moved, installed + [name])
  {
  }

  lemma AccountedTakeBack<T>(d: Disk<T>, start: Disk<T>, moved: seq<string>, installed: seq<string>)
    requires Accounted(d, start, moved, installed) && installed != []
    ensures var last := |installed| - 1;
      && installed[last] in d.dest && installed[last] !in d.stage
      && Accounted(MoveOut(d, installed[last]), start, moved, installed[..last])
  {
  }

  lemma {:induction false} MoveAllAccounted<T>(r: Run<T>, start: Disk<T>, names: seq<string>, faults: Faults)
    requires Accounted(r.disk, start, r.moved, []) && r.installed == []
    requires NoRepeats(names) && forall n :: n in names ==> n !in r.moved
    ensures var after := MoveAll(r, names, faults);
      && Accounted(after.disk, start, after.moved, []) && after.installed == []
      && (!after.failed ==> forall n :: n in names && n in start.dest ==> n in after.moved)
      && (forall n :: n in after.moved ==> n in r.moved || n in names)
      && (forall n :: n in r.moved ==> n in after.moved)
      && after.disk.files == r.disk.files && after.disk.saved == r.disk.saved
      && after.movedArtifacts == r.movedArtifacts && after.installedArtifacts == r.installedArtifacts
    decreases |names|
  {
    if !r.failed && names != [] {
      var name, rest := names[0], names[1..];
      NoRepeatsTail(names);
      if name !in r.disk.dest {
        MoveAllAccounted(r, start, rest, faults);
      } else if !faults(MoveAside(name)) {
        AccountedAside(r.disk, start, r.moved, [], name);
        MoveAllAccounted(r.(disk := SetAside(r.disk, name), moved := r.moved + [name]), start, rest, faults);
      }
    }
  }

  lemma NoRepeatsTail<T(!new)>(s: seq<T>)
    requires s != [] && NoRepeats(s)
    ensures NoRepeats(s[1..]) && s[0] !in s[1..] && forall x :: x in s <==> x == s[0] || x in s[1..]
  {
  }

  lemma {:induction false} InstallAllAccounted<T>(r: Run<T>, start: Disk<T>, entries: seq<string>, faults: Faults)
    requires Accounted(r.disk, start, r.moved, r.installed)
    requires NoRepeats(entries) && forall n :: n in entries ==> (n in start.dest ==> n in r.moved)
    ensures var after := InstallAll(r, entries, faults);
      && Accounted(after.disk, start, after.moved, after.installed) && after.moved == r.moved
      && (!r.failed && !after.failed ==> forall n :: n in entries ==> n in after.installed)
      && (forall n :: n in r.installed ==> n in after.installed)
      && (forall n :: n in after.installed ==> n in r.installed || n in entries)
      && after.disk.files == r.disk.files && after.disk.saved == r.disk.saved
      && after.movedArtifacts == r.movedArtifacts && after.installedArtifacts == r.installedArtifacts
    decreases |entries|
  {
    if !r.failed && entries != [] {
      var name := entries[0];
      NoRepeatsTail(entries);
      if !faults(Install(name)) && name in r.disk.stage {
        AccountedInstall(r.disk, start, r.moved, r.installed, name);
        InstallAllAccounted(r.(disk := MoveIn(r.disk, name), installed := r.installed + [name]), start, entries[1..], faults);
      }
    }
  }

  /** The entries' half of the disk. */
  ghost predicate SameEntries<T>(a: Disk<T>, b: Disk<T>) {
    a.dest == b.dest && a.stage == b.stage && a.previous == b.previous
  }

  lemma {:induction false} PlaceAllKeepsEntries<T>(r: Run<T>, artifacts: seq<Artifact>, index: nat, faults: Faults)
    requires index <= |artifacts|
    ensures var after := PlaceAll(r, artifacts, index, faults);
      SameEntries(after.disk, r.disk) && after.moved == r.moved && after.installed == r.installed
    decreases |artifacts| - index
  {
    if !r.failed && index < |artifacts| {
      var next := Place(Save(r, artifacts[index], index, faults), artifacts[index], index, faults);
      PlaceAllKeepsEntries(next, artifacts, index + 1, faults);
    }
  }

  lemma {:induction false} UnlinkAllKeepsEntries<T>(u: Undo<T>, targets: seq<Path>, faults: Faults)
    ensures SameEntries(UnlinkAll(u, targets, faults).disk, u.disk)
    decreases |targets|
  {
    if !u.stuck && targets != [] {
      var last := |targets| - 1;
      UnlinkAllKeepsEntries(u.(disk := u.disk.(files := u.disk.files - {targets[last]})), targets[..last], faults);
    }
  }

  lemma {:induction false} RestoreAllKeepsEntries<T>(u: Undo<T>, targets: seq<Path>, faults: Faults)
    ensures SameEntries(RestoreAll(u, targets, faults).disk, u.disk)
    decreases |targets|
  {
    if !u.stuck && targets != [] && targets[|targets| - 1].name in u.disk.saved {
      var last := |targets| - 1;
      RestoreAllKeepsEntries(u.(disk := RestoreFile(u.disk, targets[last])), targets[..last], faults);
    }
  }

  lemma {:induction false} TakeBackAllAccounted<T>(u: Undo<T>, start: Disk<T>, moved: seq<string>, installed: seq<string>, faults: Faults)
    returns (left: seq<string>)
    requires Accounted(u.disk, start, moved, installed)
    ensures var after := TakeBackAll(u, installed, faults);
      && Accounted(after.disk, start, moved, left) && (!after.stuck ==> left == [])
      && (!u.stuck && UndoSucceeds(faults) ==> !after.stuck)
      && after.disk.files == u.disk.files && after.disk.saved == u.disk.saved
    decreases |installed|
  {
    left := installed;
    if !u.stuck && installed != [] {
      var last := |installed| - 1;
      AccountedTakeBack(u.disk, start, moved, installed);
      if !faults(TakeBack(last)) {
        left := TakeBackAllAccounted(u.(disk := MoveOut(u.disk, installed[last])), start, moved, installed[..last], faults);
      }
    }
  }

  lemma AccountedBringBack<T>(d: Disk<T>, start: Disk<T>, moved: seq<string>)
    requires Accounted(d, start, moved, []) && moved != []
    ensures var last := |moved| - 1;
      && moved[last] in d.previous
      && Accounted(BringBack(d, moved[last]), start, moved[..last], [])
  {
  }

  lemma {:induction false} PutBackAllAccounted<T>(u: Undo<T>, start: Disk<T>, moved: seq<string>, faults: Faults)
    returns (left: seq<string>)
    requires Accounted(u.disk, start, moved, [])
    ensures var after := PutBackAll(u, moved, faults);
      && Accounted(after.disk, start, left, []) && (!after.stuck ==> left == [])
      && (forall n :: n in left ==> n in moved)
      && (!u.stuck && UndoSucceeds(faults) ==> !after.stuck)
      && after.disk.files == u.disk.files && after.disk.saved == u.disk.saved
    decreases |moved|
  {
    hide Accounted;
    left := moved;
    if !u.stuck && moved != [] {
      var last := |moved| - 1;
      AccountedBringBack(u.disk, start, moved);
      if !faults(PutBack(last)) {
        left := PutBackAllAccounted(u.(disk := BringBack(u.disk, moved[last])), start, moved[..last], faults);
      }
    }
  }

  lemma StartIsAccounted<T>(d: Disk<T>)
    requires d.previous == map[]
    ensures Accounted(d, d, [], [])
  {
  }

  /** After the forward part, however far it got, every entry is accounted for by the two lists. */
  lemma ForwardAccounted<T>(d: Disk<T>, names: seq<string>, entries: seq<string>, artifacts: seq<Artifact>, faults: Faults)
    requires Ready(d, names, entries)
    ensures var run := Forward(d, names, entries, artifacts, faults);
      && Accounted(run.disk, d, run.moved, run.installed)
      && (!run.failed ==> forall n :: n in entries ==> n in run.installed)
      && (forall n :: n in run.moved ==> n in names)
  {
    hide MoveAll, InstallAll, PlaceAll, Accounted;
    StartIsAccounted(d);
    MoveAllAccounted(Start(d), d, names, faults);
    var aside := MoveAll(Start(d), names, faults);
    if aside.failed {
      FailedRunInstallsNothing(aside, entries, faults);
      FailedRunPlacesNothing(aside, artifacts, faults);
    } else {
      InstallAllAccounted(aside, d, entries, faults);
      PlaceAllKeepsEntries(InstallAll(aside, entries, faults), artifacts, 0, faults);
      PlaceAllFails(InstallAll(aside, entries, faults), artifacts, 0, faults);
      SameEntriesAccounted(InstallAll(aside, entries, faults).disk, Forward(d, names, entries, artifacts, faults).disk, d,
                           aside.moved, InstallAll(aside, entries, faults).installed);
    }
  }

  lemma FailedRunInstallsNothing<T>(r: Run<T>, entries: seq<string>, faults: Faults)
    requires r.failed
    ensures InstallAll(r, entries, faults) == r
  {
  }

  lemma PlaceAllFails<T>(r: Run<T>, artifacts: seq<Artifact>, index: nat, faults: Faults)
    requires index <= |artifacts|
    ensures r.failed ==> PlaceAll(r, artifacts, index, faults) == r
  {
  }

  lemma SameEntriesAccounted<T>(a: Disk<T>, b: Disk<T>, start: Disk<T>, moved: seq<string>, installed: seq<string>)
    requires SameEntries(a, b) && Accounted(a, start, moved, installed)
    ensures Accounted(b, start, moved, installed)
  {
  }

  /** The artifact half of the undo. */
  function ArtifactUndo<T>(r: Run<T>, faults: Faults): Undo<T> {
    RestoreAll(UnlinkAll(Undo(r.disk, false), r.installedArtifacts, faults), r.movedArtifacts, faults)
  }

  /** The same during and after the undo; an undo without faults empties both lists. */
  lemma UndoAccounted<T>(r: Run<T>, start: Disk<T>, faults: Faults) returns (moved: seq<string>, installed: seq<string>)
    requires Accounted(r.disk, start, r.moved, r.installed)
    ensures Accounted(UndoAll(r, faults).disk, start, moved, installed)
    ensures forall n :: n in moved ==> n in r.moved
    ensures UndoSucceeds(faults) && !ArtifactUndo(r, faults).stuck ==> moved == [] && installed == []
  {
    var unlinked := UnlinkAll(Undo(r.disk, false), r.installedArtifacts, faults);
    var restored := RestoreAll(unlinked, r.movedArtifacts, faults);
    UnlinkAllKeepsEntries(Undo(r.disk, false), r.installedArtifacts, faults);
    RestoreAllKeepsEntries(unlinked, r.movedArtifacts, faults);
    SameEntriesAccounted(r.disk, restored.disk, start, r.moved, r.installed);
    installed := TakeBackAllAccounted(restored, start, r.moved, r.installed, faults);
    var taken := TakeBackAll(restored, r.installed, faults);
    if taken.stuck {
      moved := r.moved;
    } else {
      moved := PutBackAllAccounted(taken, start, r.moved, faults);
      hide TakeBackAll, PutBackAll, UnlinkAll, RestoreAll;
    }
  }

  lemma UnownedUntouched<T>(start: Disk<T>, d: Disk<T>, names: seq<string>, moved: seq<string>, installed: seq<string>)
    requires Accounted(d, start, moved, installed)
    requires forall n :: n in moved ==> n in names
    requires forall n :: n in start.stage ==> n in names
    ensures forall n :: n in start.dest && n !in names ==> n in d.dest && d.dest[n] == start.dest[n]
  {
  }

  /** An original program entry survives in the destination or in the retained `previous`. */
  ghost predicate EntrySurvives<T>(start: Disk<T>, end: Disk<T>, name: string)
    requires name in start.dest
  {
    || (name in end.dest && end.dest[name] == start.dest[name])
    || (name in end.previous && end.previous[name] == start.dest[name])
  }

  lemma AccountedSurvives<T>(d: Disk<T>, start: Disk<T>, moved: seq<string>, installed: seq<string>)
    requires Accounted(d, start, moved, installed)
    ensures forall n :: n in start.dest ==> EntrySurvives(start, d, n)
    ensures forall n :: n in start.dest && n !in moved ==> n in d.dest && d.dest[n] == start.dest[n]
  {
  }

  /**
   Whatever raises, in the run or in its undo: after a failed run every original entry is in the
   destination or in `previous`, which is kept, and names the publisher does not own are untouched.
   */
  lemma NoProgramEntryIsLost<T>(d: Disk<T>, names: seq<string>, entries: seq<string>, artifacts: seq<Artifact>, faults: Faults)
    requires Ready(d, names, entries)
    ensures var out := Published(d, names, entries, artifacts, faults);
      && (!out.published ==> forall n :: n in d.dest ==> EntrySurvives(d, out.disk, n))
      && (forall n :: n in d.dest && n !in names ==> n in out.disk.dest && out.disk.dest[n] == d.dest[n])
  {
    ForwardAccounted(d, names, entries, artifacts, faults);
    var run := Forward(d, names, entries, artifacts, faults);
    if run.failed {
      var moved, installed := UndoAccounted(run, d, faults);
      AccountedSurvives(UndoAll(run, faults).disk, d, moved, installed);
      UnownedUntouched(d, UndoAll(run, faults).disk, names, moved, installed);
      hide Forward, UndoAll, Accounted;
    } else {
      UnownedUntouched(d, run.disk, names, run.moved, run.installed);
      hide Forward, UndoAll, Accounted;
    }
  }

  /******* Artifacts *******/

  ghost predicate SameFile<T>(a: map<Path, T>, b: map<Path, T>, p: Path) {
    (p in a <==> p in b) && (p in a ==> a[p] == b[p])
  }

  ghost predicate NamesDiffer(paths: seq<Path>) {
    forall i, j :: 0 <= i < j < |paths| ==> paths[i].name != paths[j].name
  }

  /**
   Artifacts a rollback can take back: no two have one target, no two existing targets share the
   name they are saved under, and no source is the target of another artifact, except that the last
   artifact may consume an earlier one.
   */
  ghost predicate Separable<T>(files: map<Path, T>, artifacts: seq<Artifact>) {
    forall i, j :: 0 <= i < |artifacts| && 0 <= j < |artifacts| && i != j ==>
      && artifacts[i].target != artifacts[j].target
      && (artifacts[i].target in files && artifacts[j].target in files ==> artifacts[i].target.name != artifacts[j].target.name)
      && (artifacts[i].source == artifacts[j].target ==> j < i == |artifacts| - 1)
  }

  /** The lists and saved files suffice to restore every file but the consumed sources. */
  ghost predicate Recoverable<T>(d: Disk<T>, start: Disk<T>, moved: seq<Path>, installed: seq<Path>, consumed: set<Path>) {
    && NoRepeats(installed) && NamesDiffer(moved)
    && (forall p :: p in installed ==> p in d.files && (p in start.files ==> p in moved))
    && (forall p :: p in moved ==>
          && p in start.files && p.name in d.saved && d.saved[p.name] == start.files[p]
          && (p !in installed ==> p !in d.files))
    && (forall p :: p !in installed && p !in moved && p !in consumed ==> SameFile(d.files, start.files, p))
  }

  /** The first `index` artifacts are placed. */
  ghost predicate PlacedSoFar(artifacts: seq<Artifact>, index: nat, moved: seq<Path>, installed: seq<Path>, consumed: set<Path>) {
    && index <= |artifacts| && |installed| == index
    && (forall k :: 0 <= k < index ==> installed[k] == artifacts[k].target)
    && (forall p :: p in moved ==> p in installed)
    && (forall p :: p in consumed ==> exists k :: 0 <= k < index && artifacts[k].source == p)
    && Avoids(consumed, artifacts)
  }

  ghost predicate Avoids(consumed: set<Path>, artifacts: seq<Artifact>) {
    forall j :: 0 <= j < |artifacts| ==> artifacts[j].target !in consumed
  }

  lemma SaveRecoverable<T>(r: Run<T>, start: Disk<T>, artifacts: seq<Artifact>, index: nat, consumed: set<Path>, faults: Faults)
    requires !r.failed && index < |artifacts| && Separable(start.files, artifacts)
    requires Recoverable(r.disk, start, r.movedArtifacts, r.installedArtifacts, consumed)
    requires PlacedSoFar(artifacts, index, r.movedArtifacts, r.installedArtifacts, consumed)
    ensures var after := Save(r, artifacts[index], index, faults);
      && Recoverable(after.disk, start, after.movedArtifacts, after.installedArtifacts, consumed)
      && after.installedArtifacts == r.installedArtifacts
      && (!after.failed ==> artifacts[index].target !in after.disk.files)
      && (forall p :: p in after.movedArtifacts ==> p in r.movedArtifacts || p == artifacts[index].target)
      && (!after.failed && artifacts[index].target in start.files ==> artifacts[index].target in after.movedArtifacts)
  {
    var target := artifacts[index].target;
    assert target !in r.installedArtifacts;
    assert SameFile(r.disk.files, start.files, target);
    if target in r.disk.files {
      forall p | p in r.movedArtifacts ensures p.name != target.name {
        var k :| 0 <= k < index && r.installedArtifacts[k] == p;
        assert artifacts[k].target in start.files;
      }
      hide Separable, PlacedSoFar;
      SaveFileRecoverable(r.disk, start, r.movedArtifacts, r.installedArtifacts, consumed, target);
      hide Recoverable;
    } else {
      hide Separable, PlacedSoFar;
    }
  }

  lemma SaveFileRecoverable<T>(d: Disk<T>, start: Disk<T>, moved: seq<Path>, installed: seq<Path>, consumed: set<Path>, target: Path)
    requires Recoverable(d, start, moved, installed, consumed)
    requires target in d.files && target !in installed && target !in consumed
    requires forall p :: p in moved ==> p.name != target.name
    ensures Recoverable(SaveFile(d, target), start, moved + [target], installed, consumed)
  {
  }

  lemma PlaceRecoverable<T>(r: Run<T>, start: Disk<T>, artifacts: seq<Artifact>, index: nat, consumed: set<Path>, faults: Faults)
    requires !r.failed && index < |artifacts| && Separable(start.files, artifacts)
    requires Recoverable(r.disk, start, r.movedArtifacts, r.installedArtifacts, consumed)
    requires |r.installedArtifacts| == index && Avoids(consumed, artifacts)
    requires forall k :: 0 <= k < index ==> r.installedArtifacts[k] == artifacts[k].target
    requires forall p :: p in r.movedArtifacts ==> p in r.installedArtifacts || p == artifacts[index].target
    requires forall p :: p in consumed ==> exists k :: 0 <= k < index && artifacts[k].source == p
    requires artifacts[index].target !in r.disk.files
    requires artifacts[index].target in start.files ==> artifacts[index].target in r.movedArtifacts
    ensures var after := Place(r, artifacts[index], index, faults);
      && after.movedArtifacts == r.movedArtifacts
      && (after.failed ==> after.disk == r.disk && after.installedArtifacts == r.installedArtifacts)
      && (!after.failed && index + 1 < |artifacts| ==>
            && Recoverable(after.disk, start, after.movedArtifacts, after.installedArtifacts, consumed + {artifacts[index].source})
            && PlacedSoFar(artifacts, index + 1, after.movedArtifacts, after.installedArtifacts, consumed + {artifacts[index].source}))
  {
    var source, target := artifacts[index].source, artifacts[index].target;
    var after := Place(r, artifacts[index], index, faults);
    if !after.failed && index + 1 < |artifacts| {
      assert target !in r.installedArtifacts;
      assert forall j :: 0 <= j < |artifacts| ==> artifacts[j].target != source;
      assert source !in r.installedArtifacts;
      hide Recoverable, Separable, Avoids, PlacedSoFar;
      SourceConsumed(artifacts, index, consumed);
      MoveFileRecoverable(r.disk, start, r.movedArtifacts, r.installedArtifacts, consumed, source, target);
      OneMorePlaced(artifacts, index, r.movedArtifacts, r.installedArtifacts, consumed + {source});
    }
  }

  lemma OneMorePlaced(artifacts: seq<Artifact>, index: nat, moved: seq<Path>, installed: seq<Path>, consumed: set<Path>)
    requires index < |artifacts| && |installed| == index && Avoids(consumed, artifacts)
    requires forall k :: 0 <= k < index ==> installed[k] == artifacts[k].target
    requires forall p :: p in moved ==> p in installed || p == artifacts[index].target
    requires forall p :: p in consumed ==> exists k :: 0 <= k < index + 1 && artifacts[k].source == p
    ensures PlacedSoFar(artifacts, index + 1, moved, installed + [artifacts[index].target], consumed)
  {
    hide Avoids;
  }

  lemma MoveFileRecoverable<T>(d: Disk<T>, start: Disk<T>, moved: seq<Path>, installed: seq<Path>, consumed: set<Path>,
                               source: Path, target: Path)
    requires Recoverable(d, start, moved, installed, consumed)
    requires source in d.files && target !in d.files && source !in installed && target !in installed
    requires target in start.files ==> target in moved
    ensures Recoverable(MoveFile(d, source, target), start, moved, installed + [target], consumed + {source})
  {
  }

  lemma SourceConsumed(artifacts: seq<Artifact>, index: nat, consumed: set<Path>)
    requires index < |artifacts| && Avoids(consumed, artifacts)
    requires forall j :: 0 <= j < |artifacts| ==> artifacts[j].target != artifacts[index].source
    requires forall p :: p in consumed ==> exists k :: 0 <= k < index && artifacts[k].source == p
    ensures Avoids(consumed + {artifacts[index].source}, artifacts)
    ensures forall p :: p in consumed + {artifacts[index].source} ==> exists k :: 0 <= k < index + 1 && artifacts[k].source == p
  {
  }

  /** Saving and placing one artifact. */
  lemma OneArtifactRecoverable<T>(r: Run<T>, start: Disk<T>, artifacts: seq<Artifact>, index: nat, consumed: set<Path>, faults: Faults)
    requires !r.failed && index < |artifacts| && Separable(start.files, artifacts)
    requires Recoverable(r.disk, start, r.movedArtifacts, r.installedArtifacts, consumed)
    requires PlacedSoFar(artifacts, index, r.movedArtifacts, r.installedArtifacts, consumed)
    ensures var next := Place(Save(r, artifacts[index], index, faults), artifacts[index], index, faults);
      && (next.failed ==> Recoverable(next.disk, start, next.movedArtifacts, next.installedArtifacts, consumed))
      && (!next.failed && index + 1 < |artifacts| ==>
            && Recoverable(next.disk, start, next.movedArtifacts, next.installedArtifacts, consumed + {artifacts[index].source})
            && PlacedSoFar(artifacts, index + 1, next.movedArtifacts, next.installedArtifacts, consumed + {artifacts[index].source}))
  {
    var save := Save(r, artifacts[index], index, faults);
    SaveRecoverable(r, start, artifacts, index, consumed, faults);
    if !save.failed {
      PlaceRecoverable(save, start, artifacts, index, consumed, faults);
    }
    hide Recoverable, Avoids, Separable, Save;
  }

  lemma {:induction false} PlaceAllRecoverable<T>(r: Run<T>, start: Disk<T>, artifacts: seq<Artifact>, index: nat, consumed: set<Path>, faults: Faults)
    returns (gone: set<Path>)
    requires !r.failed && index <= |artifacts| && Separable(start.files, artifacts)
    requires index < |artifacts| ==>
      && Recoverable(r.disk, start, r.movedArtifacts, r.installedArtifacts, consumed)
      && PlacedSoFar(artifacts, index, r.movedArtifacts, r.installedArtifacts, consumed)
    ensures var after := PlaceAll(r, artifacts, index, faults);
      after.failed ==>
        && Recoverable(after.disk, start, after.movedArtifacts, after.installedArtifacts, gone)
        && Avoids(gone, artifacts)
        && (forall p :: p in gone ==> exists k :: 0 <= k < |artifacts| && artifacts[k].source == p)
    decreases |artifacts| - index
  {
    hide Recoverable, PlacedSoFar, Avoids, Separable, Save, Place;
    gone := consumed;
    if index < |artifacts| {
      PlacedAvoids(artifacts, index, r.movedArtifacts, r.installedArtifacts, consumed);
      OneArtifactRecoverable(r, start, artifacts, index, consumed, faults);
      var next := Place(Save(r, artifacts[index], index, faults), artifacts[index], index, faults);
      if next.failed {
        PlaceAllFails(next, artifacts, index + 1, faults);
      } else {
        gone := PlaceAllRecoverable(next, start, artifacts, index + 1, consumed + {artifacts[index].source}, faults);
      }
    }
  }

  lemma PlacedAvoids(artifacts: seq<Artifact>, index: nat, moved: seq<Path>, installed: seq<Path>, consumed: set<Path>)
    requires PlacedSoFar(artifacts, index, moved, installed, consumed)
    ensures Avoids(consumed, artifacts)
    ensures forall p :: p in consumed ==> exists k :: 0 <= k < |artifacts| && artifacts[k].source == p
  {
  }

  lemma {:induction false} UnlinkAllRecovers<T>(u: Undo<T>, start: Disk<T>, moved: seq<Path>, installed: seq<Path>, gone: set<Path>, faults: Faults)
    returns (left: seq<Path>)
    requires Recoverable(u.disk, start, moved, installed, gone)
    ensures var after := UnlinkAll(u, installed, faults);
      && Recoverable(after.disk, start, moved, left, gone) && (!after.stuck ==> left == [])
      && (!u.stuck && UndoSucceeds(faults) ==> !after.stuck)
    decreases |installed|
  {
    left := installed;
    if !u.stuck && installed != [] {
      var last := |installed| - 1;
      UnlinkOne(u.disk, start, moved, installed, gone);
      hide Recoverable;
      if !faults(UnlinkArtifact(last)) {
        left := UnlinkAllRecovers(u.(disk := u.disk.(files := u.disk.files - {installed[last]})), start, moved, installed[..last], gone, faults);
      }
    }
  }

  lemma UnlinkOne<T>(d: Disk<T>, start: Disk<T>, moved: seq<Path>, installed: seq<Path>, gone: set<Path>)
    requires Recoverable(d, start, moved, installed, gone) && installed != []
    ensures var last := |installed| - 1;
      installed[last] in d.files
      && Recoverable(d.(files := d.files - {installed[last]}), start, moved, installed[..last], gone)
  {
  }

  lemma {:induction false} RestoreAllRecovers<T>(u: Undo<T>, start: Disk<T>, moved: seq<Path>, gone: set<Path>, faults: Faults)
    returns (left: seq<Path>)
    requires Recoverable(u.disk, start, moved, [], gone)
    ensures var after := RestoreAll(u, moved, faults);
      && Recoverable(after.disk, start, left, [], gone) && (!after.stuck ==> left == [])
      && (!u.stuck && UndoSucceeds(faults) ==> !after.stuck)
    decreases |moved|
  {
    left := moved;
    if !u.stuck && moved != [] {
      var last := |moved| - 1;
      RestoreOne(u.disk, start, moved, gone);
      hide Recoverable;
      if !faults(RestoreArtifact(last)) {
        left := RestoreAllRecovers(u.(disk := RestoreFile(u.disk, moved[last])), start, moved[..last], gone, faults);
      }
    }
  }

  lemma RestoreOne<T>(d: Disk<T>, start: Disk<T>, moved: seq<Path>, gone: set<Path>)
    requires Recoverable(d, start, moved, [], gone) && moved != []
    ensures var last := |moved| - 1;
      moved[last].name in d.saved && Recoverable(RestoreFile(d, moved[last]), start, moved[..last], [], gone)
  {
  }

  /******* Exact rollback *******/

  /** Where the artifact part begins: untouched files, nothing saved, empty artifact lists. */
  lemma ForwardReachesArtifacts<T>(d: Disk<T>, names: seq<string>, entries: seq<string>, artifacts: seq<Artifact>, faults: Faults)
    returns (replaced: Run<T>)
    requires Ready(d, names, entries)
    ensures Forward(d, names, entries, artifacts, faults) == PlaceAll(replaced, artifacts, 0, faults)
    ensures replaced == InstallAll(MoveAll(Start(d), names, faults), entries, faults)
    ensures replaced.disk.files == d.files && replaced.disk.saved == map[]
    ensures replaced.movedArtifacts == replaced.installedArtifacts == []
    ensures !replaced.failed ==> forall n :: n in names && n in d.dest ==> n in replaced.disk.previous
  {
    hide MoveAll, InstallAll, PlaceAll;
    StartIsAccounted(d);
    MoveAllAccounted(Start(d), d, names, faults);
    var aside := MoveAll(Start(d), names, faults);
    replaced := InstallAll(aside, entries, faults);
    if aside.failed {
      FailedRunInstallsNothing(aside, entries, faults);
    } else {
      InstallAllAccounted(aside, d, entries, faults);
    }
  }

  lemma StartIsRecoverable<T>(d: Disk<T>, start: Disk<T>, artifacts: seq<Artifact>)
    requires d.files == start.files
    ensures Recoverable(d, start, [], [], {}) && PlacedSoFar(artifacts, 0, [], [], {})
  {
  }

  /** When the forward run fails, its artifact lists suffice to restore every file but consumed sources. */
  lemma ForwardRecoverable<T>(d: Disk<T>, names: seq<string>, entries: seq<string>, artifacts: seq<Artifact>, faults: Faults)
    returns (gone: set<Path>)
    requires Ready(d, names, entries) && Separable(d.files, artifacts)
    ensures var run := Forward(d, names, entries, artifacts, faults);
      run.failed ==>
        && Recoverable(run.disk, d, run.movedArtifacts, run.installedArtifacts, gone)
        && Avoids(gone, artifacts)
        && (forall p :: p in gone ==> exists k :: 0 <= k < |artifacts| && artifacts[k].source == p)
  {
    var replaced := ForwardReachesArtifacts(d, names, entries, artifacts, faults);
    StartIsRecoverable(replaced.disk, d, artifacts);
    if replaced.failed {
      PlaceAllFails(replaced, artifacts, 0, faults);
      gone := {};
      assert Avoids({}, artifacts);
    } else {
      gone := PlaceAllRecoverable(replaced, d, artifacts, 0, {}, faults);
    }
    hide Forward, Recoverable, Avoids;
  }

  /** The artifact half of the undo, under any faults. */
  lemma ArtifactUndoRecovers<T>(run: Run<T>, start: Disk<T>, gone: set<Path>, faults: Faults) returns (moved: seq<Path>, installed: seq<Path>)
    requires Recoverable(run.disk, start, run.movedArtifacts, run.installedArtifacts, gone)
    ensures Recoverable(ArtifactUndo(run, faults).disk, start, moved, installed, gone)
    ensures !ArtifactUndo(run, faults).stuck ==> moved == [] && installed == []
    ensures UndoSucceeds(faults) ==> !ArtifactUndo(run, faults).stuck
  {
    hide Recoverable;
    installed := UnlinkAllRecovers(Undo(run.disk, false), start, run.movedArtifacts, run.installedArtifacts, gone, faults);
    var unlinked := UnlinkAll(Undo(run.disk, false), run.installedArtifacts, faults);
    if unlinked.stuck {
      moved := run.movedArtifacts;
      StuckRestoresNothing(unlinked, run.movedArtifacts, faults);
    } else {
      moved := RestoreAllRecovers(unlinked, start, run.movedArtifacts, gone, faults);
    }
  }

  lemma StuckRestoresNothing<T>(u: Undo<T>, targets: seq<Path>, faults: Faults)
    requires u.stuck
    ensures RestoreAll(u, targets, faults) == u
  {
  }

  /** The entry half of the undo leaves files alone. */
  lemma UndoKeepsFiles<T>(run: Run<T>, start: Disk<T>, faults: Faults)
    requires Accounted(run.disk, start, run.moved, run.installed)
    ensures UndoAll(run, faults).disk.files == ArtifactUndo(run, faults).disk.files
    ensures UndoAll(run, faults).disk.saved == ArtifactUndo(run, faults).disk.saved
    ensures ArtifactUndo(run, faults).stuck ==> UndoAll(run, faults).disk == ArtifactUndo(run, faults).disk
  {
    var unlinked := UnlinkAll(Undo(run.disk, false), run.installedArtifacts, faults);
    var restored := RestoreAll(unlinked, run.movedArtifacts, faults);
    UnlinkAllKeepsEntries(Undo(run.disk, false), run.installedArtifacts, faults);
    RestoreAllKeepsEntries(unlinked, run.movedArtifacts, faults);
    SameEntriesAccounted(run.disk, restored.disk, start, run.moved, run.installed);
    var left := TakeBackAllAccounted(restored, start, run.moved, run.installed, faults);
    var taken := TakeBackAll(restored, run.installed, faults);
    if taken.stuck {
    } else {
      var rest := PutBackAllAccounted(taken, start, run.moved, faults);
    }
  }

  /** The disk of a failed run equals the starting disk, except for new artifacts that are gone. */
  ghost predicate RolledBack<T>(start: Disk<T>, end: Disk<T>, artifacts: seq<Artifact>) {
    && end.dest == start.dest && end.stage == start.stage && end.previous == map[]
    && (forall j :: 0 <= j < |artifacts| ==> SameFile(end.files, start.files, artifacts[j].target))
    && (forall p :: (forall k :: 0 <= k < |artifacts| ==> artifacts[k].source != p) ==> SameFile(end.files, start.files, p))
  }

  /** Whichever operation raises: an undo that does not raise itself restores everything. */
  lemma FailedRunIsRolledBack<T>(d: Disk<T>, names: seq<string>, entries: seq<string>, artifacts: seq<Artifact>, faults: Faults)
    requires Ready(d, names, entries) && Separable(d.files, artifacts) && UndoSucceeds(faults)
    ensures var out := Published(d, names, entries, artifacts, faults);
      !out.published ==> RolledBack(d, out.disk, artifacts)
  {
    var run := Forward(d, names, entries, artifacts, faults);
    if run.failed {
      var gone := ForwardRecoverable(d, names, entries, artifacts, faults);
      ForwardAccounted(d, names, entries, artifacts, faults);
      var moved, installed := ArtifactUndoRecovers(run, d, gone, faults);
      var m, i := UndoAccounted(run, d, faults);
      UndoKeepsFiles(run, d, faults);
      NothingLeftToUndo(d, UndoAll(run, faults).disk);
      FilesRestored(d, ArtifactUndo(run, faults).disk, UndoAll(run, faults).disk, artifacts, gone);
      hide Forward, UndoAll, ArtifactUndo, Accounted, Recoverable, Separable;
    }
  }

  lemma NothingLeftToUndo<T>(start: Disk<T>, end: Disk<T>)
    requires Accounted(end, start, [], [])
    ensures end.dest == start.dest && end.stage == start.stage && end.previous == map[]
  {
  }

  lemma FilesRestored<T>(start: Disk<T>, undone: Disk<T>, end: Disk<T>, artifacts: seq<Artifact>, gone: set<Path>)
    requires Recoverable(undone, start, [], [], gone) && end.files == undone.files
    requires Avoids(gone, artifacts) && (forall p :: p in gone ==> exists k :: 0 <= k < |artifacts| && artifacts[k].source == p)
    ensures forall j :: 0 <= j < |artifacts| ==> SameFile(end.files, start.files, artifacts[j].target)
    ensures forall p :: (forall k :: 0 <= k < |artifacts| ==> artifacts[k].source != p) ==> SameFile(end.files, start.files, p)
  {
  }
}
