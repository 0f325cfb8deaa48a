/**
 When a publication succeeds: exactly when nothing raises that is done at all. Also what it leaves of
 the files that no artifact names, in which order it works and undoes, and when the temporary directory stays.
 */
module PublishSuccess {
  import opened Distinct
  import opened Publish
  import opened PublishRollback
  import opened PublishLimits

  lemma {:induction false} MoveAllSucceeds<T>(r: Run<T>, names: seq<string>, faults: Faults)
    requires !r.failed && NoRepeats(names)
    ensures var after := MoveAll(r, names, faults);
      && (!after.failed <==> forall n :: n in names && n in r.disk.dest ==> !faults(MoveAside(n)))
      && after.disk.stage == r.disk.stage
    decreases |names|
  {
    if names != [] {
      var name, rest := names[0], names[1..];
      assert names == [name] + rest && name in names;
      forall n | n in rest ensures n != name {
        var i :| 0 <= i < |rest| && rest[i] == n;
        assert names[i + 1] == n && names[0] == name;
      }
      forall i, j | 0 <= i < j < |rest| ensures rest[i] != rest[j] {
        assert names[i + 1] != names[j + 1];
      }
      assert forall n :: n in names <==> n == name || n in rest;
      if name !in r.disk.dest {
        MoveAllSucceeds(r, rest, faults);
      } else if !faults(MoveAside(name)) {
        MoveAllSucceeds(r.(disk := SetAside(r.disk, name), moved := r.moved + [name]), rest, faults);
      }
    }
  }

  lemma {:induction false} InstallAllSucceeds<T>(r: Run<T>, entries: seq<string>, faults: Faults)
    requires !r.failed && NoRepeats(entries) && forall n :: n in entries ==> n in r.disk.stage
    ensures !InstallAll(r, entries, faults).failed <==> forall n :: n in entries ==> !faults(Install(n))
    decreases |entries|
  {
    if entries != [] {
      var name, rest := entries[0], entries[1..];
      assert entries == [name] + rest && name in entries;
      forall n | n in rest ensures n != name {
        var i :| 0 <= i < |rest| && rest[i] == n;
        assert entries[i + 1] == n && entries[0] == name;
      }
      forall i, j | 0 <= i < j < |rest| ensures rest[i] != rest[j] {
        assert entries[i + 1] != entries[j + 1];
      }
      assert forall n :: n in entries <==> n == name || n in rest;
      if !faults(Install(name)) {
        InstallAllSucceeds(r.(disk := MoveIn(r.disk, name), installed := r.installed + [name]), rest, faults);
      }
    }
  }

  /** The artifact's file is there, a file in its way can be saved, and it can be moved. */
  ghost predicate CanPlace<T>(files: map<Path, T>, artifact: Artifact, index: nat, faults: Faults) {
    artifact.source in files && !faults(PlaceArtifact(index)) && (artifact.target in files ==> !faults(SaveArtifact(index)))
  }

  ghost predicate UntouchedFrom<T>(files: map<Path, T>, start: map<Path, T>, artifacts: seq<Artifact>, index: nat) {
    forall k :: index <= k < |artifacts| ==>
      SameFile(files, start, artifacts[k].source) && SameFile(files, start, artifacts[k].target)
  }

  /** Paths that no artifact names. */
  ghost predicate OthersSame<T>(files: map<Path, T>, start: map<Path, T>, artifacts: seq<Artifact>) {
    forall p :: (forall k :: 0 <= k < |artifacts| ==> artifacts[k].source != p && artifacts[k].target != p) ==> SameFile(files, start, p)
  }

  lemma PlaceOneSucceeds<T>(r: Run<T>, start: map<Path, T>, artifacts: seq<Artifact>, index: nat, faults: Faults)
    requires !r.failed && index < |artifacts| && Independent(artifacts)
    requires UntouchedFrom(r.disk.files, start, artifacts, index) && OthersSame(r.disk.files, start, artifacts)
    ensures var after := Place(Save(r, artifacts[index], index, faults), artifacts[index], index, faults);
      && (!after.failed <==> CanPlace(start, artifacts[index], index, faults))
      && (!after.failed ==> UntouchedFrom(after.disk.files, start, artifacts, index + 1))
      && OthersSame(after.disk.files, start, artifacts)
  {
    assert SameFile(r.disk.files, start, artifacts[index].source) && SameFile(r.disk.files, start, artifacts[index].target);
    assert artifacts[index].source != artifacts[index].target;
    forall k | index < k < |artifacts| ensures
      && artifacts[k].source != artifacts[index].source && artifacts[k].source != artifacts[index].target
      && artifacts[k].target != artifacts[index].source && artifacts[k].target != artifacts[index].target
    {
    }
    hide Independent;
    var after := Place(Save(r, artifacts[index], index, faults), artifacts[index], index, faults);
    forall p | forall k :: 0 <= k < |artifacts| ==> artifacts[k].source != p && artifacts[k].target != p
      ensures SameFile(after.disk.files, start, p)
    {
      assert artifacts[index].source != p && artifacts[index].target != p && SameFile(r.disk.files, start, p);
    }
  }

  lemma {:induction false} PlaceAllSucceeds<T>(r: Run<T>, start: map<Path, T>, artifacts: seq<Artifact>, index: nat, faults: Faults)
    requires !r.failed && index <= |artifacts| && Independent(artifacts)
    requires UntouchedFrom(r.disk.files, start, artifacts, index) && OthersSame(r.disk.files, start, artifacts)
    ensures var after := PlaceAll(r, artifacts, index, faults);
      && (!after.failed <==> forall k :: index <= k < |artifacts| ==> CanPlace(start, artifacts[k], k, faults))
      && OthersSame(after.disk.files, start, artifacts)
    decreases |artifacts| - index
  {
    hide UntouchedFrom, OthersSame, CanPlace, Independent, Save, Place;
    if index < |artifacts| {
      PlaceOneSucceeds(r, start, artifacts, index, faults);
      var next := Place(Save(r, artifacts[index], index, faults), artifacts[index], index, faults);
      if next.failed {
        PlaceAllFails(next, artifacts, index + 1, faults);
      } else {
        PlaceAllSucceeds(next, start, artifacts, index + 1, faults);
      }
    }
  }

  /**
   A publication succeeds if and only if no entry that is there raises when it is moved aside, no staged
   entry raises when it is installed, and every artifact can be placed.
   */
  lemma PublishesExactly<T>(d: Disk<T>, names: seq<string>, entries: seq<string>, artifacts: seq<Artifact>, faults: Faults)
    requires Ready(d, names, entries) && Independent(artifacts)
    ensures Published(d, names, entries, artifacts, faults).published <==>
      && (forall n :: n in names && n in d.dest ==> !faults(MoveAside(n)))
      && (forall n :: n in entries ==> !faults(Install(n)))
      && (forall k :: 0 <= k < |artifacts| ==> CanPlace(d.files, artifacts[k], k, faults))
  {
    hide MoveAll, InstallAll, PlaceAll, CanPlace, Independent, Cleanup, UndoAll;
    MoveAllSucceeds(Start(d), names, faults);
    var aside := MoveAll(Start(d), names, faults);
    var replaced := ForwardReachesArtifacts(d, names, entries, artifacts, faults);
    if aside.failed {
      FailedRunInstallsNothing(aside, entries, faults);
    } else {
      InstallAllSucceeds(aside, entries, faults);
    }
    if replaced.failed {
      PlaceAllFails(replaced, artifacts, 0, faults);
    } else {
      PlaceAllSucceeds(replaced, d.files, artifacts, 0, faults);
    }
  }

  /** A publication leaves every file alone that no artifact names. */
  lemma PublishedKeepsOtherFiles<T>(d: Disk<T>, names: seq<string>, entries: seq<string>, artifacts: seq<Artifact>, faults: Faults)
    requires Ready(d, names, entries) && Independent(artifacts)
    ensures var out := Published(d, names, entries, artifacts, faults);
      out.published ==> OthersSame(out.disk.files, d.files, artifacts)
  {
    hide MoveAll, InstallAll, PlaceAll, OthersSame, Independent, UndoAll, UntouchedFrom;
    var replaced := ForwardReachesArtifacts(d, names, entries, artifacts, faults);
    if replaced.failed {
      PlaceAllFails(replaced, artifacts, 0, faults);
    } else {
      assert UntouchedFrom(replaced.disk.files, d.files, artifacts, 0) by { SameFilesUntouched(d.files, artifacts); }
      assert OthersSame(replaced.disk.files, d.files, artifacts) by { SameFilesUntouched(d.files, artifacts); }
      PlaceAllSucceeds(replaced, d.files, artifacts, 0, faults);
    }
  }

  lemma SameFilesUntouched<T>(files: map<Path, T>, artifacts: seq<Artifact>)
    ensures UntouchedFrom(files, files, artifacts, 0) && OthersSame(files, files, artifacts)
  {
  }

  /******* The order of the run *******/

  function Existing<T>(names: seq<string>, dest: map<string, T>): seq<string> {
    if names == [] then []
    else (if names[0] in dest then [names[0]] else []) + Existing(names[1..], dest)
  }

  lemma {:induction false} ExistingWithout<T>(names: seq<string>, dest: map<string, T>, name: string)
    requires name !in names
    ensures Existing(names, dest - {name}) == Existing(names, dest)
  {
    if names != [] {
      assert name !in names[1..];
      ExistingWithout(names[1..], dest, name);
    }
  }

  /** Entries are moved aside in the order of the names, those that are there, up to the first that raises. */
  lemma {:induction false} MovesUpToFault<T>(r: Run<T>, names: seq<string>, faults: Faults) returns (k: nat)
    requires !r.failed && NoRepeats(names)
    ensures k <= |names|
    ensures var after := MoveAll(r, names, faults);
      && after.moved == r.moved + Existing(names[..k], r.disk.dest) && (after.failed <==> k < |names|)
      && (after.failed ==> names[k] in r.disk.dest && faults(MoveAside(names[k])))
    decreases |names|
  {
    k := 0;
    if names != [] {
      var name, rest := names[0], names[1..];
      NoRepeatsTail(names);
      if name !in r.disk.dest {
        var more := MovesUpToFault(r, rest, faults);
        k := more + 1;
        assert names[..k][1..] == rest[..more];
      } else if !faults(MoveAside(name)) {
        var more := MovesUpToFault(r.(disk := SetAside(r.disk, name), moved := r.moved + [name]), rest, faults);
        k := more + 1;
        assert names[..k][1..] == rest[..more];
        ExistingWithout(rest[..more], r.disk.dest, name);
        var others := Existing(rest[..more], r.disk.dest);
        assert (r.moved + [name]) + others == r.moved + ([name] + others);
      } else {
        assert Existing<T>([], r.disk.dest) == [] && r.moved + [] == r.moved;
      }
    }
  }

  /** Staged entries are installed in order, up to the first that raises. */
  lemma {:induction false} InstallsUpToFault<T>(r: Run<T>, entries: seq<string>, faults: Faults) returns (k: nat)
    requires !r.failed && NoRepeats(entries) && forall n :: n in entries ==> n in r.disk.stage
    ensures k <= |entries|
    ensures var after := InstallAll(r, entries, faults);
      && after.installed == r.installed + entries[..k] && (after.failed <==> k < |entries|)
      && (after.failed ==> faults(Install(entries[k])))
    decreases |entries|
  {
    k := 0;
    if entries != [] {
      var name, rest := entries[0], entries[1..];
      NoRepeatsTail(entries);
      if !faults(Install(name)) {
        var more := InstallsUpToFault(r.(disk := MoveIn(r.disk, name), installed := r.installed + [name]), rest, faults);
        k := more + 1;
        assert (r.installed + [name]) + rest[..more] == r.installed + entries[..k];
      }
    }
  }

  function Targets(artifacts: seq<Artifact>): seq<Path> {
    seq(|artifacts|, i requires 0 <= i < |artifacts| => artifacts[i].target)
  }

  /** Artifacts are placed in order, up to the first that cannot be. */
  lemma {:induction false} PlacesUpToFault<T>(r: Run<T>, start: map<Path, T>, artifacts: seq<Artifact>, index: nat, faults: Faults)
    returns (k: nat)
    requires !r.failed && index <= |artifacts| && Independent(artifacts)
    requires UntouchedFrom(r.disk.files, start, artifacts, index) && OthersSame(r.disk.files, start, artifacts)
    ensures index <= k <= |artifacts|
    ensures var after := PlaceAll(r, artifacts, index, faults);
      && after.installedArtifacts == r.installedArtifacts + Targets(artifacts[index..k]) && (after.failed <==> k < |artifacts|)
      && (after.failed ==> !CanPlace(start, artifacts[k], k, faults))
    decreases |artifacts| - index
  {
    k := index;
    assert Targets(artifacts[index..k]) == [];
    if index < |artifacts| {
      PlaceOneSucceeds(r, start, artifacts, index, faults);
      var next := Place(Save(r, artifacts[index], index, faults), artifacts[index], index, faults);
      PlacedLast(r, artifacts[index], index, faults);
      hide UntouchedFrom, OthersSame, CanPlace, Independent, Save, Place, Targets;
      if next.failed {
        PlaceAllFails(next, artifacts, index + 1, faults);
      } else {
        k := PlacesUpToFault(next, start, artifacts, index + 1, faults);
        TargetsFrom(artifacts, index, k);
        var first, later := [artifacts[index].target], Targets(artifacts[index + 1..k]);
        assert (r.installedArtifacts + first) + later == r.installedArtifacts + (first + later);
      }
    }
  }

  lemma TargetsFrom(artifacts: seq<Artifact>, index: nat, k: nat)
    requires index < k <= |artifacts|
    ensures Targets(artifacts[index..k]) == [artifacts[index].target] + Targets(artifacts[index + 1..k])
  {
  }

  lemma PlacedLast<T>(r: Run<T>, artifact: Artifact, index: nat, faults: Faults)
    requires !r.failed
    ensures var next := Place(Save(r, artifact, index, faults), artifact, index, faults);
      next.installedArtifacts == if next.failed then r.installedArtifacts else r.installedArtifacts + [artifact.target]
  {
  }

  lemma LessAndLess<K, V>(m: map<K, V>, some: set<K>, key: K)
    ensures (m - {key}) - some == m - (some + {key})
  {
  }

  lemma TailOfFront<T>(s: seq<T>, k: nat)
    requires k < |s|
    ensures s[k..] == s[..|s| - 1][k..] + [s[|s| - 1]]
  {
  }

  lemma ElementsOfNone<T>()
    ensures Elements<T>([]) == {}
  {
  }

  lemma ElementsOfMore<T(!new)>(s: seq<T>, x: T)
    ensures Elements(s + [x]) == Elements(s) + {x}
  {
  }

  lemma FrontOfDistinct<T(!new)>(s: seq<T>)
    requires s != [] && NoRepeats(s)
    ensures var last := |s| - 1; NoRepeats(s[..last]) && forall x :: x in s[..last] ==> x in s && x != s[last]
  {
  }

  function FileNames(paths: seq<Path>): set<string> {
    if paths == [] then {} else FileNames(paths[..|paths| - 1]) + {paths[|paths| - 1].name}
  }

  lemma NamesOfNone()
    ensures FileNames([]) == {}
  {
  }

  lemma NamesOfMore(s: seq<Path>, x: Path)
    ensures FileNames(s + [x]) == FileNames(s) + {x.name}
  {
    assert (s + [x])[..|s|] == s;
  }

  lemma FrontOfDifferent(s: seq<Path>)
    requires s != [] && NamesDiffer(s)
    ensures var last := |s| - 1; NamesDiffer(s[..last]) && forall x :: x in s[..last] ==> x in s && x.name != s[last].name
  {
  }

  lemma TakeBackAllStep<T>(u: Undo<T>, names: seq<string>, faults: Faults)
    requires !u.stuck && names != [] && names[|names| - 1] in u.disk.dest
    ensures var last := |names| - 1;
      TakeBackAll(u, names, faults)
        == if faults(TakeBack(last)) then u.(stuck := true)
           else TakeBackAll(u.(disk := MoveOut(u.disk, names[last])), names[..last], faults)
  {
  }

  /** New entries go back to the stage last first, up to the one that raises. */
  lemma {:induction false} TakesBackFromTheEnd<T>(u: Undo<T>, names: seq<string>, faults: Faults) returns (k: nat)
    requires !u.stuck && NoRepeats(names) && forall n :: n in names ==> n in u.disk.dest
    ensures k <= |names| && (forall i :: k <= i < |names| ==> !faults(TakeBack(i)))
    ensures var after := TakeBackAll(u, names, faults);
      && (after.stuck <==> k > 0) && (after.stuck ==> faults(TakeBack(k - 1)))
      && after.disk.dest == u.disk.dest - Elements(names[k..])
    decreases |names|
  {
    k := |names|;
    assert names[k..] == [] && u.disk.dest - {} == u.disk.dest;
    if names != [] {
      var last := |names| - 1;
      var front, name := names[..last], names[last];
      TakeBackAllStep(u, names, faults);
      FrontOfDistinct(names);
      hide TakeBackAll, Elements, NoRepeats;
      if !faults(TakeBack(last)) {
        k := TakesBackFromTheEnd(u.(disk := MoveOut(u.disk, name)), front, faults);
        TailOfFront(names, k);
        ElementsOfMore(front[k..], name);
        LessAndLess(u.disk.dest, Elements(front[k..]), name);
      } else {
        ElementsOfNone<string>();
      }
    } else {
      ElementsOfNone<string>();
    }
  }

  lemma PutBackAllStep<T>(u: Undo<T>, names: seq<string>, faults: Faults)
    requires !u.stuck && names != [] && names[|names| - 1] in u.disk.previous
    ensures var last := |names| - 1;
      PutBackAll(u, names, faults)
        == if faults(PutBack(last)) then u.(stuck := true)
           else PutBackAll(u.(disk := BringBack(u.disk, names[last])), names[..last], faults)
  {
  }

  /** Originals come back last first, up to the one that raises. */
  lemma {:induction false} PutsBackFromTheEnd<T>(u: Undo<T>, names: seq<string>, faults: Faults) returns (k: nat)
    requires !u.stuck && NoRepeats(names) && forall n :: n in names ==> n in u.disk.previous
    ensures k <= |names| && (forall i :: k <= i < |names| ==> !faults(PutBack(i)))
    ensures var after := PutBackAll(u, names, faults);
      && (after.stuck <==> k > 0) && (after.stuck ==> faults(PutBack(k - 1)))
      && after.disk.previous == u.disk.previous - Elements(names[k..])
    decreases |names|
  {
    k := |names|;
    assert names[k..] == [] && u.disk.previous - {} == u.disk.previous;
    if names != [] {
      var last := |names| - 1;
      var front, name := names[..last], names[last];
      PutBackAllStep(u, names, faults);
      FrontOfDistinct(names);
      hide PutBackAll, Elements, NoRepeats;
      if !faults(PutBack(last)) {
        k := PutsBackFromTheEnd(u.(disk := BringBack(u.disk, name)), front, faults);
        TailOfFront(names, k);
        ElementsOfMore(front[k..], name);
        LessAndLess(u.disk.previous, Elements(front[k..]), name);
      } else {
        ElementsOfNone<string>();
      }
    } else {
      ElementsOfNone<string>();
    }
  }

  lemma UnlinkAllStep<T>(u: Undo<T>, names: seq<Path>, faults: Faults)
    requires !u.stuck && names != [] && names[|names| - 1] in u.disk.files
    ensures var last := |names| - 1;
      UnlinkAll(u, names, faults)
        == if faults(UnlinkArtifact(last)) then u.(stuck := true)
           else UnlinkAll(u.(disk := u.disk.(files := u.disk.files - {names[last]})), names[..last], faults)
  {
  }

  /** New artifacts are unlinked last first, up to the one that raises. */
  lemma {:induction false} UnlinksFromTheEnd<T>(u: Undo<T>, names: seq<Path>, faults: Faults) returns (k: nat)
    requires !u.stuck && NoRepeats(names) && forall n :: n in names ==> n in u.disk.files
    ensures k <= |names| && (forall i :: k <= i < |names| ==> !faults(UnlinkArtifact(i)))
    ensures var after := UnlinkAll(u, names, faults);
      && (after.stuck <==> k > 0) && (after.stuck ==> faults(UnlinkArtifact(k - 1)))
      && after.disk.files == u.disk.files - Elements(names[k..])
    decreases |names|
  {
    k := |names|;
    assert names[k..] == [] && u.disk.files - {} == u.disk.files;
    if names != [] {
      var last := |names| - 1;
      var front, name := names[..last], names[last];
      UnlinkAllStep(u, names, faults);
      FrontOfDistinct(names);
      hide UnlinkAll, Elements, NoRepeats;
      if !faults(UnlinkArtifact(last)) {
        k := UnlinksFromTheEnd(u.(disk := u.disk.(files := u.disk.files - {name})), front, faults);
        TailOfFront(names, k);
        ElementsOfMore(front[k..], name);
        LessAndLess(u.disk.files, Elements(front[k..]), name);
      } else {
        ElementsOfNone<Path>();
      }
    } else {
      ElementsOfNone<Path>();
    }
  }

  lemma RestoreAllStep<T>(u: Undo<T>, names: seq<Path>, faults: Faults)
    requires !u.stuck && names != [] && names[|names| - 1].name in u.disk.saved
    ensures var last := |names| - 1;
      RestoreAll(u, names, faults)
        == if faults(RestoreArtifact(last)) then u.(stuck := true)
           else RestoreAll(u.(disk := RestoreFile(u.disk, names[last])), names[..last], faults)
  {
  }

  /** Saved artifacts are restored last first, up to the one that raises. */
  lemma {:induction false} RestoresFromTheEnd<T>(u: Undo<T>, names: seq<Path>, faults: Faults) returns (k: nat)
    requires !u.stuck && NamesDiffer(names) && forall n :: n in names ==> n.name in u.disk.saved
    ensures k <= |names| && (forall i :: k <= i < |names| ==> !faults(RestoreArtifact(i)))
    ensures var after := RestoreAll(u, names, faults);
      && (after.stuck <==> k > 0) && (after.stuck ==> faults(RestoreArtifact(k - 1)))
      && after.disk.saved == u.disk.saved - FileNames(names[k..])
    decreases |names|
  {
    k := |names|;
    assert names[k..] == [] && u.disk.saved - {} == u.disk.saved;
    if names != [] {
      var last := |names| - 1;
      var front, name := names[..last], names[last];
      RestoreAllStep(u, names, faults);
      FrontOfDifferent(names);
      hide RestoreAll, FileNames, NamesDiffer;
      if !faults(RestoreArtifact(last)) {
        var next := u.(disk := RestoreFile(u.disk, name));
        assert next.disk.saved == u.disk.saved - {name.name};
        hide RestoreFile;
        k := RestoresFromTheEnd(next, front, faults);
        TailOfFront(names, k);
        NamesOfMore(front[k..], name);
        LessAndLess(u.disk.saved, FileNames(front[k..]), name.name);
      } else {
        NamesOfNone();
      }
    } else {
      NamesOfNone();
    }
  }

  /** The temporary directory stays only after a failed run, and only while it holds an original program entry. */
  lemma TemporaryStaysForEntries<T>(d: Disk<T>, names: seq<string>, entries: seq<string>, artifacts: seq<Artifact>, faults: Faults)
    requires Ready(d, names, entries)
    ensures var out := Published(d, names, entries, artifacts, faults);
      out.disk.previous != map[] || out.disk.saved != map[] ==>
        !out.published && exists n :: n in d.dest && n in out.disk.previous && out.disk.previous[n] == d.dest[n]
  {
    var run := Forward(d, names, entries, artifacts, faults);
    ForwardAccounted(d, names, entries, artifacts, faults);
    var moved, installed := UndoAccounted(run, d, faults);
    hide Forward, UndoAll;
    var undone := UndoAll(run, faults).disk;
    if undone.previous != map[] {
      var n :| n in undone.previous;
      assert n in d.dest && undone.previous[n] == d.dest[n];
    }
  }
}
