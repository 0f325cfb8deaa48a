/**
 What a completed publication leaves, and the exact limits of the rollback: which pairs of artifacts
 cannot be taken back, and when a saved artifact can be lost with the temporary directory.
 */
module PublishLimits {
  import opened Distinct
  import opened Publish
  import opened PublishRollback

  /******* A completed publication *******/

  /** Every install finds its name free, so no rename of a program entry replaces anything. */
  lemma InstallFindsFreeName<T>(d: Disk<T>, names: seq<string>, entries: seq<string>, k: nat, faults: Faults)
    requires Ready(d, names, entries) && k < |entries|
    requires !MoveAll(Start(d), names, faults).failed
    ensures var before := InstallAll(MoveAll(Start(d), names, faults), entries[..k], faults);
      !before.failed ==> entries[k] !in before.disk.dest
  {
    hide MoveAll, InstallAll;
    StartIsAccounted(d);
    MoveAllAccounted(Start(d), d, names, faults);
    var aside := MoveAll(Start(d), names, faults);
    assert entries == entries[..k] + entries[k..];
    NoRepeatsPrefix(entries[..k], entries[k..]);
    InstallAllAccounted(aside, d, entries[..k], faults);
    assert entries[k] !in entries[..k];
    assert entries[k] in d.stage && entries[k] in names;
  }

  /** A published destination is the old one without owned and staged names, plus the whole stage. */
  lemma PublishedReplacesEntries<T>(d: Disk<T>, names: seq<string>, entries: seq<string>, artifacts: seq<Artifact>, faults: Faults)
    requires Ready(d, names, entries)
    ensures var out := Published(d, names, entries, artifacts, faults);
      out.published ==>
        && out.disk.dest == (d.dest - Elements(names)) + d.stage
        && out.disk.stage == map[] && out.disk.previous == map[] && out.disk.saved == map[]
  {
    var run := Forward(d, names, entries, artifacts, faults);
    if !run.failed {
      ForwardAccounted(d, names, entries, artifacts, faults);
      ForwardMovesAll(d, names, entries, artifacts, faults);
      hide Forward;
    }
  }

  lemma ForwardMovesAll<T>(d: Disk<T>, names: seq<string>, entries: seq<string>, artifacts: seq<Artifact>, faults: Faults)
    requires Ready(d, names, entries)
    ensures var run := Forward(d, names, entries, artifacts, faults);
      !run.failed ==> forall n :: n in run.moved <==> n in names && n in d.dest
  {
    hide MoveAll, InstallAll, PlaceAll;
    StartIsAccounted(d);
    MoveAllAccounted(Start(d), d, names, faults);
    var aside := MoveAll(Start(d), names, faults);
    PlaceAllFails(aside, artifacts, 0, faults);
    if aside.failed {
      FailedRunInstallsNothing(aside, entries, faults);
    } else {
      InstallAllAccounted(aside, d, entries, faults);
      PlaceAllKeepsEntries(InstallAll(aside, entries, faults), artifacts, 0, faults);
    }
  }

  /** Sources are distinct files and none of them is a publication target. */
  ghost predicate Independent(artifacts: seq<Artifact>) {
    && (forall i, j :: 0 <= i < j < |artifacts| ==>
          artifacts[i].source != artifacts[j].source && artifacts[i].target != artifacts[j].target)
    && (forall i, j :: 0 <= i < |artifacts| && 0 <= j < |artifacts| ==> artifacts[i].source != artifacts[j].target)
  }

  ghost predicate PlacedContents<T>(files: map<Path, T>, start: map<Path, T>, artifacts: seq<Artifact>, index: nat) {
    && (forall k :: 0 <= k < |artifacts| && k < index ==>
          && artifacts[k].source in start && artifacts[k].source !in files
          && artifacts[k].target in files && files[artifacts[k].target] == start[artifacts[k].source])
    && (forall k :: index <= k < |artifacts| ==> SameFile(files, start, artifacts[k].source))
  }

  lemma PlacedOneMore<T>(before: map<Path, T>, saved: map<Path, T>, start: map<Path, T>, artifacts: seq<Artifact>, index: nat)
    requires index < |artifacts| && Independent(artifacts) && PlacedContents(before, start, artifacts, index)
    requires saved == before || saved == before - {artifacts[index].target}
    requires artifacts[index].source in saved
    ensures
      var source, target := artifacts[index].source, artifacts[index].target;
      PlacedContents((saved - {source})[target := saved[source]], start, artifacts, index + 1)
  {
    assert SameFile(before, start, artifacts[index].source);
    forall k | index < k < |artifacts|
      ensures artifacts[k].source != artifacts[index].target && SameFile(before, start, artifacts[k].source)
    {
      assert artifacts[k].source != artifacts[index].source;
    }
  }

  lemma PlaceOneContents<T>(r: Run<T>, start: map<Path, T>, artifacts: seq<Artifact>, index: nat, faults: Faults)
    requires index < |artifacts| && Independent(artifacts) && !r.failed
    requires PlacedContents(r.disk.files, start, artifacts, index)
    ensures var after := Place(Save(r, artifacts[index], index, faults), artifacts[index], index, faults);
      !after.failed ==> PlacedContents(after.disk.files, start, artifacts, index + 1)
  {
    hide Independent, PlacedContents;
    var saved := Save(r, artifacts[index], index, faults);
    if !Place(saved, artifacts[index], index, faults).failed {
      PlacedOneMore(r.disk.files, saved.disk.files, start, artifacts, index);
    }
  }

  lemma {:induction false} PlaceAllContents<T>(r: Run<T>, start: map<Path, T>, artifacts: seq<Artifact>, index: nat, faults: Faults)
    requires index <= |artifacts| && Independent(artifacts)
    requires !r.failed ==> PlacedContents(r.disk.files, start, artifacts, index)
    ensures var after := PlaceAll(r, artifacts, index, faults);
      !after.failed ==> PlacedContents(after.disk.files, start, artifacts, |artifacts|)
    decreases |artifacts| - index
  {
    if !r.failed && index < |artifacts| {
      PlaceOneContents(r, start, artifacts, index, faults);
      hide PlacedContents, Save, Place;
      PlaceAllContents(Place(Save(r, artifacts[index], index, faults), artifacts[index], index, faults), start, artifacts, index + 1, faults);
    }
  }

  /** A published artifact holds what its source held, and its source is gone. */
  lemma PublishedPlacesArtifacts<T>(d: Disk<T>, names: seq<string>, entries: seq<string>, artifacts: seq<Artifact>, faults: Faults)
    requires Ready(d, names, entries) && Independent(artifacts)
    ensures var out := Published(d, names, entries, artifacts, faults);
      out.published ==> forall k :: 0 <= k < |artifacts| ==>
        && artifacts[k].source in d.files && artifacts[k].source !in out.disk.files
        && artifacts[k].target in out.disk.files && out.disk.files[artifacts[k].target] == d.files[artifacts[k].source]
  {
    var replaced := ForwardReachesArtifacts(d, names, entries, artifacts, faults);
    PlaceAllContents(replaced, d.files, artifacts, 0, faults);
    hide Forward, PlaceAll;
  }

  /******* Which pairs of artifacts cannot be taken back *******/

  /** The archive and the installer, in the order the publisher moves them; the archive was just packaged. */
  ghost predicate FreshArchive<T>(d: Disk<T>, archive: Artifact, installer: Artifact) {
    archive.source in d.files && archive.source != archive.target && archive.source != installer.target
  }

  /** There is no program entry to move in either direction. */
  ghost predicate NothingToReplace<T>(d: Disk<T>, names: seq<string>) {
    d.stage == map[] && forall n :: n in names ==> n !in d.dest
  }

  /** Two artifacts for one free target, with no entry to replace: a failure changes nothing that counts. */
  ghost predicate HarmlessClash<T>(d: Disk<T>, names: seq<string>, archive: Artifact, installer: Artifact) {
    archive.target == installer.target && archive.target !in d.files && NothingToReplace(d, names)
  }

  /** Only the placement of the second artifact raises. */
  function SecondPlacementRaises(): Faults {
    op => op == PlaceArtifact(1)
  }

  lemma {:induction false} UnfailingMoves<T>(r: Run<T>, names: seq<string>, faults: Faults)
    requires !r.failed && forall n :: !faults(MoveAside(n))
    ensures !MoveAll(r, names, faults).failed
    decreases |names|
  {
    if names != [] {
      if names[0] !in r.disk.dest {
        UnfailingMoves(r, names[1..], faults);
      } else {
        UnfailingMoves(r.(disk := SetAside(r.disk, names[0]), moved := r.moved + [names[0]]), names[1..], faults);
      }
    }
  }

  lemma {:induction false} UnfailingInstalls<T>(r: Run<T>, entries: seq<string>, faults: Faults)
    requires !r.failed && forall n :: !faults(Install(n))
    requires NoRepeats(entries) && forall n :: n in entries ==> n in r.disk.stage
    ensures !InstallAll(r, entries, faults).failed
    decreases |entries|
  {
    if entries != [] {
      NoRepeatsTail(entries);
      UnfailingInstalls(r.(disk := MoveIn(r.disk, entries[0]), installed := r.installed + [entries[0]]), entries[1..], faults);
    }
  }

  /** Without a fault among them, all entries are replaced and the artifacts begin on untouched files. */
  lemma EntriesReplaced<T>(d: Disk<T>, names: seq<string>, entries: seq<string>, artifacts: seq<Artifact>, faults: Faults)
    returns (replaced: Run<T>)
    requires Ready(d, names, entries)
    requires forall n :: !faults(MoveAside(n)) && !faults(Install(n))
    ensures Forward(d, names, entries, artifacts, faults) == PlaceAll(replaced, artifacts, 0, faults)
    ensures !replaced.failed && replaced.disk.files == d.files && replaced.disk.saved == map[]
    ensures replaced.movedArtifacts == replaced.installedArtifacts == []
    ensures replaced.disk.stage == map[]
    ensures forall n :: n in names && n in d.dest ==> n in replaced.disk.previous
    ensures forall n :: n in names && n !in d.stage ==> n !in replaced.disk.dest
    ensures Accounted(replaced.disk, d, replaced.moved, replaced.installed)
  {
    replaced := ForwardReachesArtifacts(d, names, entries, artifacts, faults);
    hide PlaceAll;
    StartIsAccounted(d);
    MoveAllAccounted(Start(d), d, names, faults);
    var aside := MoveAll(Start(d), names, faults);
    UnfailingMoves(Start(d), names, faults);
    UnfailingInstalls(aside, entries, faults);
    InstallAllAccounted(aside, d, entries, faults);
    hide MoveAll, InstallAll, Forward;
  }

  /** The two artifact steps spelled out. */
  lemma TwoArtifacts<T>(r: Run<T>, a: Artifact, b: Artifact, faults: Faults)
    ensures var first := Place(Save(r, a, 0, faults), a, 0, faults);
      PlaceAll(r, [a, b], 0, faults)
        == if r.failed then r else if first.failed then first else Place(Save(first, b, 1, faults), b, 1, faults)
  {
    hide Save, Place;
    var artifacts := [a, b];
    assert artifacts[0] == a && artifacts[1] == b;
    var first := Place(Save(r, a, 0, faults), a, 0, faults);
    assert !r.failed ==> PlaceAll(r, artifacts, 0, faults) == PlaceAll(first, artifacts, 1, faults);
    var second := Place(Save(first, b, 1, faults), b, 1, faults);
    assert !first.failed ==> PlaceAll(first, artifacts, 1, faults) == PlaceAll(second, artifacts, 2, faults);
    assert PlaceAll(second, artifacts, 2, faults) == second;
  }

  /** What the second artifact leaves when, up to there, only its placement raises. */
  lemma SecondRaises<T>(r: Run<T>, a: Artifact, b: Artifact, faults: Faults)
    requires !faults(SaveArtifact(0)) && !faults(PlaceArtifact(0)) && !faults(SaveArtifact(1)) && faults(PlaceArtifact(1))
    requires !r.failed && r.movedArtifacts == r.installedArtifacts == []
    requires a.source in r.disk.files && a.source != a.target
    ensures var run := PlaceAll(r, [a, b], 0, faults);
      var files := (r.disk.files - {a.target} - {a.source})[a.target := r.disk.files[a.source]];
      var once := if a.target in r.disk.files then [a.target] else [];
      && run.failed && run.installedArtifacts == [a.target]
      && run.moved == r.moved && run.installed == r.installed && SameEntries(run.disk, r.disk)
      && run.disk.files == files - {b.target}
      && run.movedArtifacts == once + (if b.target in files then [b.target] else [])
      && run.disk.saved == (var kept := if a.target in r.disk.files then r.disk.saved[a.target.name := r.disk.files[a.target]] else r.disk.saved;
                            if b.target in files then kept[b.target.name := files[b.target]] else kept)
  {
    TwoArtifacts(r, a, b, faults);
    FirstPlaced(r, a, faults);
    hide PlaceAll;
    var first := Place(Save(r, a, 0, faults), a, 0, faults);
    var saved := Save(first, b, 1, faults);
    assert Place(saved, b, 1, faults) == saved.(failed := true);
  }

  lemma FirstPlaced<T>(r: Run<T>, a: Artifact, faults: Faults)
    requires !faults(SaveArtifact(0)) && !faults(PlaceArtifact(0))
    requires !r.failed && r.movedArtifacts == r.installedArtifacts == []
    requires a.source in r.disk.files && a.source != a.target
    ensures var first := Place(Save(r, a, 0, faults), a, 0, faults);
      && first == r.(disk := first.disk, installedArtifacts := [a.target],
                     movedArtifacts := if a.target in r.disk.files then [a.target] else [])
      && SameEntries(first.disk, r.disk)
      && first.disk.files == (r.disk.files - {a.target} - {a.source})[a.target := r.disk.files[a.source]]
      && first.disk.saved == if a.target in r.disk.files then r.disk.saved[a.target.name := r.disk.files[a.target]] else r.disk.saved
  {
  }

  /** Two artifacts with one target: the backup is the new artifact, and the undo stops at its first step. */
  lemma SharedTargetBreaks<T>(d: Disk<T>, names: seq<string>, entries: seq<string>, a: Artifact, b: Artifact)
    requires Ready(d, names, entries) && FreshArchive(d, a, b) && a.target == b.target
    requires a.target in d.files || !NothingToReplace(d, names)
    ensures var out := Published(d, names, entries, [a, b], SecondPlacementRaises());
      !out.published && !RolledBack(d, out.disk, [a, b])
  {
    var faults := SecondPlacementRaises();
    var replaced := EntriesReplaced(d, names, entries, [a, b], faults);
    SecondRaises(replaced, a, b, faults);
    hide PlaceAll;
    var run := Forward(d, names, entries, [a, b], faults);
    SameEntriesAccounted(replaced.disk, run.disk, d, run.moved, run.installed);
    UndoKeepsFiles(run, d, faults);
    hide Forward, Published;
    assert UnlinkAll(Undo(run.disk, false), run.installedArtifacts, faults) == Undo(run.disk, true);
    StuckRestoresNothing(Undo(run.disk, true), run.movedArtifacts, faults);
    assert ArtifactUndo(run, faults) == Undo(run.disk, true);
    hide ArtifactUndo, UndoAll;
    var end := UndoAll(run, faults).disk;
    assert end == run.disk;
    assert [a, b][0].target == a.target;
    if a.target in d.files {
      assert !SameFile(end.files, d.files, a.target);
    } else {
      assert end.stage == map[];
      if d.stage == map[] {
        var n :| n in names && n in d.dest;
        assert n !in end.dest;
      }
    }
  }

  /** Two existing targets saved under one name: the second backup replaces the first. */
  lemma SharedNameBreaks<T>(d: Disk<T>, names: seq<string>, entries: seq<string>, a: Artifact, b: Artifact)
    requires Ready(d, names, entries) && FreshArchive(d, a, b) && a.target != b.target
    requires a.target in d.files && b.target in d.files && a.target.name == b.target.name
    ensures var out := Published(d, names, entries, [a, b], SecondPlacementRaises());
      !out.published && !RolledBack(d, out.disk, [a, b])
  {
    var faults := SecondPlacementRaises();
    var replaced := EntriesReplaced(d, names, entries, [a, b], faults);
    SecondRaises(replaced, a, b, faults);
    hide PlaceAll;
    var run := Forward(d, names, entries, [a, b], faults);
    SameEntriesAccounted(replaced.disk, run.disk, d, run.moved, run.installed);
    UndoKeepsFiles(run, d, faults);
    hide Forward, Published, UndoAll;
    FirstBackupGone(run, a.target, b.target, faults);
    assert [a, b][0].target == a.target;
    assert !SameFile(ArtifactUndo(run, faults).disk.files, d.files, a.target);
  }

  lemma FirstBackupGone<T>(run: Run<T>, a: Path, b: Path, faults: Faults)
    requires faults == SecondPlacementRaises() && a != b && a.name == b.name
    requires run.installedArtifacts == [a] && run.movedArtifacts == [a, b]
    requires a in run.disk.files && b.name in run.disk.saved
    ensures a !in ArtifactUndo(run, faults).disk.files && a.name !in ArtifactUndo(run, faults).disk.saved
  {
    var start := Undo(run.disk, false);
    var unlinked := start.(disk := run.disk.(files := run.disk.files - {a}));
    assert [a][..0] == [];
    assert UnlinkAll(unlinked, [], faults) == unlinked;
    assert UnlinkAll(start, [a], faults) == unlinked;
    var restored := unlinked.(disk := RestoreFile(unlinked.disk, b));
    assert [a, b][..1] == [a];
    assert RestoreAll(unlinked, [a, b], faults) == RestoreAll(restored, [a], faults);
    assert a.name !in restored.disk.saved;
    assert RestoreAll(restored, [a], faults) == restored.(stuck := true);
  }

  /** A clash without consequences: nothing but the two new artifacts was there to change. */
  lemma HarmlessClashIsRolledBack<T>(d: Disk<T>, names: seq<string>, entries: seq<string>, a: Artifact, b: Artifact, faults: Faults)
    requires Ready(d, names, entries) && FreshArchive(d, a, b) && HarmlessClash(d, names, a, b) && UndoSucceeds(faults)
    ensures var out := Published(d, names, entries, [a, b], faults);
      !out.published ==> RolledBack(d, out.disk, [a, b])
  {
    var run := Forward(d, names, entries, [a, b], faults);
    if run.failed {
      var replaced := ForwardReachesArtifacts(d, names, entries, [a, b], faults);
      PlaceAllFails(replaced, [a, b], 0, faults);
      ForwardAccounted(d, names, entries, [a, b], faults);
      UndoKeepsFiles(run, d, faults);
      var moved, installed := UndoAccounted(run, d, faults);
      if replaced.failed {
      } else {
        ClashedFiles(d, replaced, a, b, faults);
      }
      NothingEverMoved(d, UndoAll(run, faults).disk, names, moved, installed, run.moved);
      hide Forward, UndoAll, ArtifactUndo, PlaceAll;
      var end := UndoAll(run, faults).disk;
      assert [a, b][0] == a && [a, b][1] == b;
      forall p | forall k :: 0 <= k < 2 ==> [a, b][k].source != p ensures SameFile(end.files, d.files, p) {
        assert [a, b][0].source != p;
      }
    }
  }

  lemma NothingEverMoved<T>(start: Disk<T>, end: Disk<T>, names: seq<string>, moved: seq<string>, installed: seq<string>, everMoved: seq<string>)
    requires Accounted(end, start, moved, installed) && NothingToReplace(start, names)
    requires (forall n :: n in moved ==> n in everMoved) && (forall n :: n in everMoved ==> n in names)
    ensures end.dest == start.dest && end.stage == start.stage && end.previous == map[]
  {
  }

  lemma ClashedFiles<T>(d: Disk<T>, r: Run<T>, a: Artifact, b: Artifact, faults: Faults)
    requires FreshArchive(d, a, b) && a.target == b.target && a.target !in d.files && UndoSucceeds(faults)
    requires r.disk.files == d.files && r.disk.saved == map[] && r.movedArtifacts == r.installedArtifacts == []
    requires !r.failed && PlaceAll(r, [a, b], 0, faults).failed
    ensures var files := ArtifactUndo(PlaceAll(r, [a, b], 0, faults), faults).disk.files;
      files == d.files || files == d.files - {a.source}
  {
    var run := PlaceAll(r, [a, b], 0, faults);
    var target := a.target;
    ClashedRun(r, a, b, faults);
    hide PlaceAll;
    if run.installedArtifacts == [] {
      assert UnlinkAll(Undo(run.disk, false), [], faults) == Undo(run.disk, false);
      assert RestoreAll(Undo(run.disk, false), [], faults) == Undo(run.disk, false);
    } else {
      var unlinked := Undo(run.disk.(files := run.disk.files - {target}), false);
      assert [target][..0] == [];
      if target in run.disk.files {
        assert UnlinkAll(unlinked, [], faults) == unlinked;
        assert UnlinkAll(Undo(run.disk, false), [target], faults) == unlinked;
        assert RestoreAll(unlinked, [], faults) == unlinked;
      } else {
        assert UnlinkAll(Undo(run.disk, false), [target], faults) == Undo(run.disk, true);
        StuckRestoresNothing(Undo(run.disk, true), run.movedArtifacts, faults);
      }
    }
  }

  /** Where a failing run over one free target for both artifacts can stand. */
  lemma ClashedRun<T>(r: Run<T>, a: Artifact, b: Artifact, faults: Faults)
    requires a.source in r.disk.files && a.source != a.target && a.target == b.target && a.target !in r.disk.files
    requires !r.failed && r.disk.saved == map[] && r.movedArtifacts == r.installedArtifacts == []
    ensures var run := PlaceAll(r, [a, b], 0, faults);
      run.failed ==>
        || (run.installedArtifacts == [] && run.movedArtifacts == [] && run.disk.files == r.disk.files)
        || (&& run.installedArtifacts == [a.target] && run.disk.files - {a.target} == r.disk.files - {a.source}
            && (a.target in run.disk.files ==> run.movedArtifacts == []))
  {
    TwoArtifacts(r, a, b, faults);
    hide PlaceAll;
    assert Save(r, a, 0, faults) == r;
    var first := Place(r, a, 0, faults);
    if !first.failed {
      assert first.disk.files - {a.target} == r.disk.files - {a.source};
      var saved := Save(first, b, 1, faults);
      hide MoveFile;
      assert saved.failed || saved.disk.files == r.disk.files - {a.source};
    }
  }

  /**
   With a fresh archive and an installer, a failed publication is always rolled back exactly when the
   two can be saved apart, or when their clash has nothing to harm.
   */
  lemma RollbackExactly<T>(d: Disk<T>, names: seq<string>, entries: seq<string>, archive: Artifact, installer: Artifact)
    requires Ready(d, names, entries) && FreshArchive(d, archive, installer)
    ensures (forall faults :: UndoSucceeds(faults) && !Published(d, names, entries, [archive, installer], faults).published
                              ==> RolledBack(d, Published(d, names, entries, [archive, installer], faults).disk, [archive, installer]))
       <==> Separable(d.files, [archive, installer]) || HarmlessClash(d, names, archive, installer)
  {
    var artifacts := [archive, installer];
    assert artifacts[0] == archive && artifacts[1] == installer;
    hide Published, RolledBack;
    if Separable(d.files, artifacts) || HarmlessClash(d, names, archive, installer) {
      forall faults | UndoSucceeds(faults) && !Published(d, names, entries, artifacts, faults).published
        ensures RolledBack(d, Published(d, names, entries, artifacts, faults).disk, artifacts)
      {
        if Separable(d.files, artifacts) {
          FailedRunIsRolledBack(d, names, entries, artifacts, faults);
        } else {
          HarmlessClashIsRolledBack(d, names, entries, archive, installer, faults);
        }
      }
    } else {
      assert UndoSucceeds(SecondPlacementRaises());
      if archive.target == installer.target {
        SharedTargetBreaks(d, names, entries, archive, installer);
      } else {
        SharedNameBreaks(d, names, entries, archive, installer);
      }
    }
  }

  /******* When a saved artifact can be lost *******/

  /** An artifact's original file is in its place or saved in the retained temporary directory. */
  ghost predicate ArtifactKept<T>(start: Disk<T>, end: Disk<T>, target: Path)
    requires target in start.files
  {
    || (target in end.files && end.files[target] == start.files[target])
    || (target.name in end.saved && end.saved[target.name] == start.files[target])
  }

  /**
   Even when the undo raises, originals of separable artifacts survive, provided a program entry was
   there to be moved aside: only that keeps the temporary directory.
   */
  lemma ArtifactsSurvive<T>(d: Disk<T>, names: seq<string>, entries: seq<string>, artifacts: seq<Artifact>, faults: Faults)
    requires Ready(d, names, entries) && Separable(d.files, artifacts)
    requires exists n :: n in names && n in d.dest
    ensures var out := Published(d, names, entries, artifacts, faults);
      !out.published ==> forall j :: 0 <= j < |artifacts| && artifacts[j].target in d.files ==> ArtifactKept(d, out.disk, artifacts[j].target)
  {
    var run := Forward(d, names, entries, artifacts, faults);
    if run.failed {
      var gone := ForwardRecoverable(d, names, entries, artifacts, faults);
      ForwardAccounted(d, names, entries, artifacts, faults);
      UndoKeepsFiles(run, d, faults);
      var moved, installed := ArtifactUndoRecovers(run, d, gone, faults);
      var undone := ArtifactUndo(run, faults);
      StuckKeepsPrevious(d, names, entries, artifacts, faults);
      hide Forward, UndoAll, ArtifactUndo, Published, Separable, Accounted;
      forall j | 0 <= j < |artifacts| && artifacts[j].target in d.files
        ensures ArtifactKept(d, Published(d, names, entries, artifacts, faults).disk, artifacts[j].target)
      {
        if !undone.stuck {
          assert SameFile(undone.disk.files, d.files, artifacts[j].target);
        }
      }
    }
  }

  /** When the artifact half of the undo gets stuck, `previous` still holds what was moved aside. */
  lemma StuckKeepsPrevious<T>(d: Disk<T>, names: seq<string>, entries: seq<string>, artifacts: seq<Artifact>, faults: Faults)
    requires Ready(d, names, entries)
    requires exists n :: n in names && n in d.dest
    ensures var run := Forward(d, names, entries, artifacts, faults);
      run.failed && ArtifactUndo(run, faults).stuck ==> ArtifactUndo(run, faults).disk.previous != map[]
  {
    var run := Forward(d, names, entries, artifacts, faults);
    var replaced := ForwardReachesArtifacts(d, names, entries, artifacts, faults);
    PlaceAllFails(replaced, artifacts, 0, faults);
    PlaceAllKeepsEntries(replaced, artifacts, 0, faults);
    var unlinked := UnlinkAll(Undo(run.disk, false), run.installedArtifacts, faults);
    UnlinkAllKeepsEntries(Undo(run.disk, false), run.installedArtifacts, faults);
    RestoreAllKeepsEntries(unlinked, run.movedArtifacts, faults);
    if replaced.failed {
      assert UnlinkAll(Undo(run.disk, false), [], faults) == Undo(run.disk, false);
      assert RestoreAll(Undo(run.disk, false), [], faults) == Undo(run.disk, false);
    } else {
      hide Forward, PlaceAll, UnlinkAll, RestoreAll;
      var n :| n in names && n in d.dest;
      assert n in replaced.disk.previous;
    }
  }

  /** The placement raises, and so does the restoration of the saved file. */
  function PlacementAndRestoreRaise(): Faults {
    op => op == PlaceArtifact(0) || op == RestoreArtifact(0)
  }

  /** With no program entry to move aside, an undo that raises loses the saved artifact for good. */
  lemma SavedArtifactLost<T>(d: Disk<T>, names: seq<string>, entries: seq<string>, artifacts: seq<Artifact>)
    requires Ready(d, names, entries) && artifacts != []
    requires (forall n :: n in names ==> n !in d.dest) && artifacts[0].target in d.files
    ensures var out := Published(d, names, entries, artifacts, PlacementAndRestoreRaise());
      !out.published && !ArtifactKept(d, out.disk, artifacts[0].target)
  {
    var faults := PlacementAndRestoreRaise();
    var replaced := EntriesReplaced(d, names, entries, artifacts, faults);
    var run := Forward(d, names, entries, artifacts, faults);
    var saved := Save(replaced, artifacts[0], 0, faults);
    assert !faults(SaveArtifact(0)) && faults(PlaceArtifact(0)) && faults(RestoreArtifact(0));
    assert run == saved.(failed := true) by {
      PlaceAllFails(saved.(failed := true), artifacts, 1, faults);
    }
    hide Forward, PlaceAll, Published;
    assert run.installedArtifacts == [] && run.movedArtifacts == [artifacts[0].target];
    SameEntriesAccounted(replaced.disk, run.disk, d, run.moved, run.installed);
    UndoKeepsFiles(run, d, faults);
    assert UnlinkAll(Undo(run.disk, false), [], faults) == Undo(run.disk, false);
    assert RestoreAll(Undo(run.disk, false), [artifacts[0].target], faults) == Undo(run.disk, true);
    NothingSetAside(d, names, entries, artifacts, faults);
  }

  /** Without entries to move, `previous` stays empty. */
  lemma NothingSetAside<T>(d: Disk<T>, names: seq<string>, entries: seq<string>, artifacts: seq<Artifact>, faults: Faults)
    requires Ready(d, names, entries) && forall n :: n in names ==> n !in d.dest
    ensures Forward(d, names, entries, artifacts, faults).disk.previous == map[]
  {
    var run := Forward(d, names, entries, artifacts, faults);
    ForwardAccounted(d, names, entries, artifacts, faults);
    hide Forward;
    assert forall n :: n in run.moved ==> n in names && n in d.dest;
  }

  /** The second placement raises, and so does the first restoration. */
  function SecondPlacementAndRestoreRaise(): Faults {
    op => op == PlaceArtifact(1) || op == RestoreArtifact(0)
  }

  /** The same for the second of two artifacts, when only it replaces a file. */
  lemma SecondSavedArtifactLost<T>(d: Disk<T>, names: seq<string>, entries: seq<string>, a: Artifact, b: Artifact)
    requires Ready(d, names, entries) && FreshArchive(d, a, b)
    requires (forall n :: n in names ==> n !in d.dest) && a.target !in d.files && b.target in d.files
    ensures var out := Published(d, names, entries, [a, b], SecondPlacementAndRestoreRaise());
      !out.published && !ArtifactKept(d, out.disk, b.target)
  {
    var faults := SecondPlacementAndRestoreRaise();
    var replaced := EntriesReplaced(d, names, entries, [a, b], faults);
    SecondRaises(replaced, a, b, faults);
    hide PlaceAll;
    var run := Forward(d, names, entries, [a, b], faults);
    SameEntriesAccounted(replaced.disk, run.disk, d, run.moved, run.installed);
    UndoKeepsFiles(run, d, faults);
    NothingSetAside(d, names, entries, [a, b], faults);
    hide Forward, UndoAll;
    SecondRestoreSticks(run, a.target, b.target);
  }

  lemma SecondRestoreSticks<T>(run: Run<T>, a: Path, b: Path)
    requires run.installedArtifacts == [a] && run.movedArtifacts == [b] && a in run.disk.files && b !in run.disk.files
    ensures var undone := ArtifactUndo(run, SecondPlacementAndRestoreRaise());
      undone.stuck && b !in undone.disk.files && undone.disk.previous == run.disk.previous
  {
    var faults := SecondPlacementAndRestoreRaise();
    var unlinked := Undo(run.disk.(files := run.disk.files - {a}), false);
    assert [a][..0] == [];
    assert UnlinkAll(unlinked, [], faults) == unlinked;
    assert UnlinkAll(Undo(run.disk, false), [a], faults) == unlinked;
    assert RestoreAll(unlinked, [b], faults) == unlinked.(stuck := true);
  }

  /** Two artifacts with one target: the backup of the original is overwritten by the new archive. */
  lemma OverwrittenBackupLost<T>(d: Disk<T>, names: seq<string>, entries: seq<string>, a: Artifact, b: Artifact)
    requires Ready(d, names, entries) && FreshArchive(d, a, b) && a.target == b.target && a.target in d.files
    requires d.files[a.source] != d.files[a.target]
    ensures var out := Published(d, names, entries, [a, b], SecondPlacementRaises());
      !out.published && !ArtifactKept(d, out.disk, a.target)
  {
    var faults := SecondPlacementRaises();
    var replaced := EntriesReplaced(d, names, entries, [a, b], faults);
    SecondRaises(replaced, a, b, faults);
    hide PlaceAll;
    var run := Forward(d, names, entries, [a, b], faults);
    SameEntriesAccounted(replaced.disk, run.disk, d, run.moved, run.installed);
    UndoKeepsFiles(run, d, faults);
    hide Forward;
    assert UnlinkAll(Undo(run.disk, false), run.installedArtifacts, faults) == Undo(run.disk, true);
    StuckRestoresNothing(Undo(run.disk, true), run.movedArtifacts, faults);
    assert ArtifactUndo(run, faults) == Undo(run.disk, true);
    hide ArtifactUndo, UndoAll;
    assert a.target !in run.disk.files && run.disk.saved[a.target.name] == d.files[a.source];
  }

  /** Two existing targets with one file name: the archive's backup is gone, and no undo operation raises by itself. */
  lemma SharedNameLost<T>(d: Disk<T>, names: seq<string>, entries: seq<string>, a: Artifact, b: Artifact)
    requires Ready(d, names, entries) && FreshArchive(d, a, b) && a.target != b.target
    requires a.target in d.files && b.target in d.files && a.target.name == b.target.name
    ensures UndoSucceeds(SecondPlacementRaises())
    ensures var out := Published(d, names, entries, [a, b], SecondPlacementRaises());
      !out.published && !ArtifactKept(d, out.disk, a.target)
  {
    var faults := SecondPlacementRaises();
    var replaced := EntriesReplaced(d, names, entries, [a, b], faults);
    SecondRaises(replaced, a, b, faults);
    hide PlaceAll;
    var run := Forward(d, names, entries, [a, b], faults);
    SameEntriesAccounted(replaced.disk, run.disk, d, run.moved, run.installed);
    UndoKeepsFiles(run, d, faults);
    hide Forward, UndoAll;
    FirstBackupGone(run, a.target, b.target, faults);
  }

  /** Under every fault schedule, each original artifact of a failed run is in its place or in retained staging. */
  ghost predicate OriginalsSurvive<T(!new)>(d: Disk<T>, names: seq<string>, entries: seq<string>, artifacts: seq<Artifact>) {
    forall faults :: !Published(d, names, entries, artifacts, faults).published ==>
      forall j :: 0 <= j < |artifacts| && artifacts[j].target in d.files ==>
        ArtifactKept(d, Published(d, names, entries, artifacts, faults).disk, artifacts[j].target)
  }

  lemma LostAt<T(!new)>(d: Disk<T>, names: seq<string>, entries: seq<string>, artifacts: seq<Artifact>, faults: Faults, j: nat)
    requires j < |artifacts| && artifacts[j].target in d.files
    requires !Published(d, names, entries, artifacts, faults).published
    requires !ArtifactKept(d, Published(d, names, entries, artifacts, faults).disk, artifacts[j].target)
    ensures !OriginalsSurvive(d, names, entries, artifacts)
  {
    hide Published, ArtifactKept;
  }

  /** Both go to one target, and the archive is what stands there already. */
  ghost predicate RepeatsContent<T(!new)>(d: Disk<T>, archive: Artifact, installer: Artifact)
    requires archive.source in d.files
  {
    archive.target == installer.target && archive.target in d.files && d.files[archive.source] == d.files[archive.target]
  }

  /** Where a failing run over one existing target for both artifacts can stand, if the contents are the same. */
  lemma SameContentRun<T>(r: Run<T>, a: Artifact, b: Artifact, faults: Faults)
    requires a.source in r.disk.files && a.source != a.target && a.target == b.target && a.target in r.disk.files
    requires r.disk.files[a.source] == r.disk.files[a.target]
    requires !r.failed && r.movedArtifacts == r.installedArtifacts == []
    ensures var run, t := PlaceAll(r, [a, b], 0, faults), a.target;
      run.failed ==>
        || (run.installedArtifacts == [] && run.movedArtifacts == [] && run.disk.files == r.disk.files)
        || (&& t.name in run.disk.saved && run.disk.saved[t.name] == r.disk.files[t]
            && (run.installedArtifacts == [] || run.installedArtifacts == [t])
            && (run.movedArtifacts == [t] || (run.installedArtifacts == [t] && t !in run.disk.files)))
  {
    TwoArtifacts(r, a, b, faults);
    hide PlaceAll;
    var first := Place(Save(r, a, 0, faults), a, 0, faults);
    if !first.failed {
      assert first.disk.files[a.target] == r.disk.files[a.source];
      assert first.movedArtifacts == [a.target] && first.installedArtifacts == [a.target];
    }
  }

  /** A shared target whose content the archive repeats survives when an entry is there to be moved. */
  lemma SameContentSurvives<T>(d: Disk<T>, names: seq<string>, entries: seq<string>, a: Artifact, b: Artifact, faults: Faults)
    requires Ready(d, names, entries) && FreshArchive(d, a, b) && a.target == b.target && a.target in d.files
    requires d.files[a.source] == d.files[a.target] && exists n :: n in names && n in d.dest
    ensures var out := Published(d, names, entries, [a, b], faults);
      !out.published ==> ArtifactKept(d, out.disk, a.target)
  {
    var run := Forward(d, names, entries, [a, b], faults);
    if run.failed {
      var replaced := ForwardReachesArtifacts(d, names, entries, [a, b], faults);
      PlaceAllFails(replaced, [a, b], 0, faults);
      ForwardAccounted(d, names, entries, [a, b], faults);
      UndoKeepsFiles(run, d, faults);
      StuckKeepsPrevious(d, names, entries, [a, b], faults);
      if !replaced.failed {
        SameContentRun(replaced, a, b, faults);
      }
      hide Forward, PlaceAll, UndoAll, ArtifactUndo;
      SameContentUndone(run, a.target, d.files[a.target], faults);
    }
  }

  lemma SameContentUndone<T>(run: Run<T>, t: Path, content: T, faults: Faults)
    requires
      || (run.installedArtifacts == [] && run.movedArtifacts == [] && t in run.disk.files && run.disk.files[t] == content)
      || (&& t.name in run.disk.saved && run.disk.saved[t.name] == content
          && (run.installedArtifacts == [] || run.installedArtifacts == [t])
          && (run.movedArtifacts == [t] || (run.installedArtifacts == [t] && t !in run.disk.files)))
    ensures var undone := ArtifactUndo(run, faults);
      || (t in undone.disk.files && undone.disk.files[t] == content)
      || (undone.stuck && t.name in undone.disk.saved && undone.disk.saved[t.name] == content)
  {
    var start, unlinked := Undo(run.disk, false), UnlinkAll(Undo(run.disk, false), run.installedArtifacts, faults);
    assert [t][..0] == [];
    if run.installedArtifacts == [] {
      assert unlinked == start;
    } else if faults(UnlinkArtifact(0)) || t !in run.disk.files {
      assert unlinked == start.(stuck := true);
    } else {
      var without := start.(disk := run.disk.(files := run.disk.files - {t}));
      assert unlinked == UnlinkAll(without, [], faults) == without;
    }
    if unlinked.stuck {
      StuckRestoresNothing(unlinked, run.movedArtifacts, faults);
    } else if run.movedArtifacts == [] {
      assert RestoreAll(unlinked, [], faults) == unlinked;
    } else if faults(RestoreArtifact(0)) {
      assert RestoreAll(unlinked, [t], faults) == unlinked.(stuck := true);
    } else {
      var restored := unlinked.(disk := RestoreFile(unlinked.disk, t));
      assert RestoreAll(unlinked, [t], faults) == RestoreAll(restored, [], faults) == restored;
    }
  }

  /**
   For a fresh archive and an installer: the originals survive every fault schedule exactly when there
   is no original, or a program entry is there to be moved and the two can be saved apart, or share a
   target whose content the archive repeats.
   */
  lemma ArtifactsSurviveExactly<T(!new)>(d: Disk<T>, names: seq<string>, entries: seq<string>, archive: Artifact, installer: Artifact)
    requires Ready(d, names, entries) && FreshArchive(d, archive, installer)
    ensures OriginalsSurvive(d, names, entries, [archive, installer])
       <==> (archive.target !in d.files && installer.target !in d.files)
            || ((exists n :: n in names && n in d.dest)
                && (Separable(d.files, [archive, installer]) || RepeatsContent(d, archive, installer)))
  {
    var artifacts := [archive, installer];
    assert artifacts[0] == archive && artifacts[1] == installer;
    hide Published, ArtifactKept, UndoSucceeds;
    if archive.target !in d.files && installer.target !in d.files {
      hide Separable;
    } else if forall n :: n in names ==> n !in d.dest {
      hide Separable, OriginalsSurvive;
      LostWithoutEntries(d, names, entries, archive, installer);
    } else if Separable(d.files, artifacts) || RepeatsContent(d, archive, installer) {
      hide FreshArchive;
      forall faults | !Published(d, names, entries, artifacts, faults).published
        ensures forall j :: 0 <= j < |artifacts| && artifacts[j].target in d.files ==>
          ArtifactKept(d, Published(d, names, entries, artifacts, faults).disk, artifacts[j].target)
      {
        if Separable(d.files, artifacts) {
          ArtifactsSurvive(d, names, entries, artifacts, faults);
        } else {
          SameContentSurvives(d, names, entries, archive, installer, faults);
        }
      }
    } else if archive.target == installer.target {
      hide OriginalsSurvive;
      OverwrittenBackupLost(d, names, entries, archive, installer);
      LostAt(d, names, entries, artifacts, SecondPlacementRaises(), 0);
    } else {
      hide OriginalsSurvive;
      SharedNameLost(d, names, entries, archive, installer);
      LostAt(d, names, entries, artifacts, SecondPlacementRaises(), 0);
    }
  }

  lemma LostWithoutEntries<T(!new)>(d: Disk<T>, names: seq<string>, entries: seq<string>, archive: Artifact, installer: Artifact)
    requires Ready(d, names, entries) && FreshArchive(d, archive, installer)
    requires forall n :: n in names ==> n !in d.dest
    requires archive.target in d.files || installer.target in d.files
    ensures !OriginalsSurvive(d, names, entries, [archive, installer])
  {
    hide Published, ArtifactKept, OriginalsSurvive;
    if archive.target in d.files {
      SavedArtifactLost(d, names, entries, [archive, installer]);
      LostAt(d, names, entries, [archive, installer], PlacementAndRestoreRaise(), 0);
    } else {
      SecondSavedArtifactLost(d, names, entries, archive, installer);
      LostAt(d, names, entries, [archive, installer], SecondPlacementAndRestoreRaise(), 1);
    }
  }

  /** A single artifact's original always survives exactly when a program entry is there to be moved. */
  lemma ArtifactSurvivesExactly<T(!new)>(d: Disk<T>, names: seq<string>, entries: seq<string>, artifact: Artifact)
    requires Ready(d, names, entries) && artifact.target in d.files
    ensures OriginalsSurvive(d, names, entries, [artifact]) <==> exists n :: n in names && n in d.dest
  {
    hide Published, ArtifactKept;
    if exists n :: n in names && n in d.dest {
      forall faults | !Published(d, names, entries, [artifact], faults).published
        ensures ArtifactKept(d, Published(d, names, entries, [artifact], faults).disk, artifact.target)
      {
        ArtifactsSurvive(d, names, entries, [artifact], faults);
        assert [artifact][0].target == artifact.target;
      }
    } else {
      SavedArtifactLost(d, names, entries, [artifact]);
      LostAt(d, names, entries, [artifact], PlacementAndRestoreRaise(), 0);
    }
  }
}
