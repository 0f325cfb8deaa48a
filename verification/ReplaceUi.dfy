/**
 Replacing the GUI resource directory: copy next to the target, two renames, an optional signature over
 the app, and a restore when any of these raises. A rename takes full effect or raises without effect;
 a copy that raises may leave anything behind, a removal the files it had not come to. Each operation's outcome is an input.
 */
module ReplaceUi {
  import opened Wrappers

  type Path = seq<string>

  type Tree = map<Path, string>

  /** What the app's signature covers: the GUI directory as it was when signed, or nothing valid. */
  datatype Seal = Covers(resources: Option<Tree>) | Broken

  /** The staging directory beside the app or the target. */
  datatype Scratch = Scratch(next: Option<Tree>, previous: Option<Tree>)

  datatype World = World(target: Option<Tree>, scratch: Option<Scratch>, seal: Seal)

  datatype Copying = Copied | CopyRaised(part: Option<Tree>)

  /** A removal that raises leaves the directory itself, without the files removed so far. */
  datatype Removal = Gone | RemovalRaised(removed: set<Path>)

  datatype Signing = Signed | SigningRaised(seal: Seal)

  datatype Outcomes = Outcomes(
    prepared: bool,
    copy: Copying,
    moveOut: bool,
    moveIn: bool,
    sign: Signing,
    removeNew: Removal,
    moveBack: bool,
    signAgain: Signing,
    removeOld: Removal,
    removeScratch: Option<Scratch>)

  datatype Exit = Exit(world: World, raised: bool)

  /******* Where the staging directory is *******/

  /** `a` is a directory above `b`. */
  predicate IsParent(a: Path, b: Path) {
    |a| < |b| && b[..|a|] == a
  }

  predicate Separate(source: Path, target: Path) {
    source != target && !IsParent(source, target) && !IsParent(target, source)
  }

  /** Neither path begins the other: no rename or removal of one tree touches the other. */
  lemma SeparateExactly(source: Path, target: Path)
    ensures Separate(source, target) <==> !(source <= target) && !(target <= source)
  {
    if source <= target && target <= source {
      assert source == target;
    }
  }

  /** A new directory beside the app, or beside a target without an app. */
  function ScratchPath(target: Path, app: Option<Path>, name: string): Path
    requires target != [] && (app.Some? ==> app.value != [])
  {
    var beside := if app.Some? then app.value else target;
    beside[..|beside| - 1] + [name]
  }

  /**
   The staging directory is never inside the source, so the copy does not contain itself; and it is
   neither inside the target nor inside the app, whose seal it would break.
   */
  lemma StagingIsApart(source: Path, target: Path, app: Option<Path>, name: string)
    requires target != [] && Separate(source, target)
    requires app.Some? ==> app.value != [] && IsParent(app.value, target)
    ensures
      var scratch := ScratchPath(target, app, name);
      !IsParent(source, scratch) && !IsParent(target, scratch) && (app.Some? ==> !IsParent(app.value, scratch))
  {
  }

  /******* The steps *******/

  /** Leaves the staging directory unless it still holds the original. */
  function Finally(w: World, raised: bool, o: Outcomes): Exit
    requires w.scratch.Some?
  {
    if w.scratch.value.previous.Some? then Exit(w, raised)
    else if o.removeScratch.None? then Exit(w.(scratch := None), raised)
    else Exit(w.(scratch := Some(Scratch(o.removeScratch.value.next, None))), true)
  }

  function SealAfter(signing: Signing, target: Option<Tree>): Seal {
    if signing.Signed? then Covers(target) else signing.seal
  }

  function Remains(tree: Option<Tree>, removed: set<Path>): Option<Tree> {
    if tree.None? then None else Some(tree.value - removed)
  }

  /** The handler: discard what was installed, bring the original back, sign again. */
  function Restore(w: World, installed: bool, app: bool, o: Outcomes): Exit
    requires w.scratch.Some?
  {
    if installed && o.removeNew.RemovalRaised? then Finally(w.(target := Remains(w.target, o.removeNew.removed)), true, o)
    else
      var cleared := if installed then w.(target := None) else w;
      var previous := w.scratch.value.previous;
      if previous.None? || !o.moveBack then Finally(cleared, true, o)
      else
        var back := cleared.(target := previous, scratch := Some(w.scratch.value.(previous := None)));
        Finally(if app then back.(seal := SealAfter(o.signAgain, previous)) else back, true, o)
  }

  function Commit(w: World, o: Outcomes): Exit
    requires w.scratch.Some?
  {
    if w.scratch.value.previous.None? then Finally(w, false, o)
    else
      match o.removeOld
      case Gone => Finally(w.(scratch := Some(w.scratch.value.(previous := None))), false, o)
      case RemovalRaised(removed) =>
        Finally(w.(scratch := Some(w.scratch.value.(previous := Remains(w.scratch.value.previous, removed)))), true, o)
  }

  function Replace(w: World, sourcePath: Path, targetPath: Path, source: Option<Tree>, app: bool, o: Outcomes): Exit {
    if source.None? || !Separate(sourcePath, targetPath) || !o.prepared then Exit(w, true)
    else
      match o.copy
      case CopyRaised(part) => Restore(w.(scratch := Some(Scratch(part, None))), false, app, o)
      case Copied =>
        var copied := w.(scratch := Some(Scratch(source, None)));
        if w.target.Some? && !o.moveOut then Restore(copied, false, app, o)
        else
          var out := copied.(target := None, scratch := Some(Scratch(source, w.target)));
          if !o.moveIn then Restore(out, false, app, o)
          else
            var inside := out.(target := source, scratch := Some(Scratch(None, w.target)));
            if !app then Commit(inside, o)
            else
              var sealed := inside.(seal := SealAfter(o.sign, source));
              if o.sign.Signed? then Commit(sealed, o) else Restore(sealed, true, app, o)
  }

  /******* The script *******/

  class UiInstallation {
    var target: Option<Tree>
    var scratch: Option<Scratch>
    var seal: Seal

    constructor (target: Option<Tree>, seal: Seal)
      ensures Now() == World(target, None, seal)
    {
      this.target, this.scratch, this.seal := target, None, seal;
    }

    ghost function Now(): World
      reads this
    {
      World(target, scratch, seal)
    }

    /** The renames; the staging directory exists while they run, and no name is overwritten. */
    method MoveOut(done: bool)
      requires scratch.Some? && scratch.value.previous.None? && target.Some?
      modifies this
      ensures Now() == if done then old(Now()).(target := None, scratch := Some(old(scratch.value).(previous := old(target)))) else old(Now())
    {
      if done {
        scratch := Some(scratch.value.(previous := target));
        target := None;
      }
    }

    method MoveIn(done: bool)
      requires scratch.Some? && scratch.value.next.Some? && target.None?
      modifies this
      ensures Now() == if done then old(Now()).(target := old(scratch.value.next), scratch := Some(old(scratch.value).(next := None))) else old(Now())
    {
      if done {
        target := scratch.value.next;
        scratch := Some(scratch.value.(next := None));
      }
    }

    method MoveBack(done: bool)
      requires scratch.Some? && scratch.value.previous.Some? && target.None?
      modifies this
      ensures Now() == if done then old(Now()).(target := old(scratch.value.previous), scratch := Some(old(scratch.value).(previous := None))) else old(Now())
    {
      if done {
        target := scratch.value.previous;
        scratch := Some(scratch.value.(previous := None));
      }
    }

    method LeaveScratch(raised: bool, o: Outcomes) returns (failed: bool)
      requires scratch.Some?
      modifies this
      ensures Exit(Now(), failed) == Finally(old(Now()), raised, o)
    {
      failed := raised;
      if scratch.value.previous.None? {
        if o.removeScratch.Some? {
          scratch := Some(Scratch(o.removeScratch.value.next, None));
          return true;
        }
        scratch := None;
      }
    }

    method HandleRaised(installed: bool, app: bool, o: Outcomes) returns (failed: bool)
      requires scratch.Some? && (installed ==> target.Some?)
      requires scratch.value.previous.Some? && !installed ==> target.None?
      modifies this
      ensures Exit(Now(), failed) == Restore(old(Now()), installed, app, o)
    {
      if installed {
        if o.removeNew.RemovalRaised? {
          target := Remains(target, o.removeNew.removed);
          failed := LeaveScratch(true, o);
          return;
        }
        target := None;
      }
      if scratch.value.previous.Some? {
        MoveBack(o.moveBack);
        if app && o.moveBack {
          seal := SealAfter(o.signAgain, target);
        }
      }
      failed := LeaveScratch(true, o);
    }

    method ReplaceUi(sourcePath: Path, targetPath: Path, source: Option<Tree>, app: bool, o: Outcomes) returns (raised: bool)
      requires scratch.None?
      modifies this
      ensures Exit(Now(), raised) == Replace(old(Now()), sourcePath, targetPath, source, app, o)
    {
      if source.None? || !Separate(sourcePath, targetPath) || !o.prepared {
        return true;
      }
      if o.copy.CopyRaised? {
        scratch := Some(Scratch(o.copy.part, None));
        raised := HandleRaised(false, app, o);
        return;
      }
      scratch := Some(Scratch(source, None));
      if target.Some? {
        MoveOut(o.moveOut);
        if !o.moveOut {
          raised := HandleRaised(false, app, o);
          return;
        }
      }
      MoveIn(o.moveIn);
      if !o.moveIn {
        raised := HandleRaised(false, app, o);
        return;
      }
      if app {
        seal := SealAfter(o.sign, target);
        if o.sign.SigningRaised? {
          raised := HandleRaised(true, app, o);
          return;
        }
      }
      if scratch.value.previous.Some? {
        scratch := Some(scratch.value.(previous := if o.removeOld.Gone? then None else Remains(scratch.value.previous, o.removeOld.removed)));
        raised := LeaveScratch(o.removeOld.RemovalRaised?, o);
        return;
      }
      raised := LeaveScratch(false, o);
    }
  }

  /******* What every exit leaves *******/

  predicate Starts(sourcePath: Path, targetPath: Path, source: Option<Tree>, o: Outcomes) {
    source.Some? && Separate(sourcePath, targetPath) && o.prepared
  }

  /** Both renames of the body succeed: the new UI is in place. */
  predicate Swaps(w: World, o: Outcomes) {
    o.copy.Copied? && (w.target.Some? ==> o.moveOut) && o.moveIn
  }

  predicate MovedOut(w: World, o: Outcomes) {
    w.target.Some? && o.copy.Copied? && o.moveOut
  }

  /** The new UI holds all original files unchanged, and exactly its other files were removed. */
  ghost predicate RemovedTheAdditions(original: Option<Tree>, replacement: Tree, removed: set<Path>) {
    && original.Some?
    && (forall p :: p in original.value ==> p in replacement && replacement[p] == original.value[p] && p !in removed)
    && (forall p :: p in replacement && p !in original.value ==> p in removed)
  }

  /** The handler's own steps succeed, or its failing removal happens to take away just what was added. */
  ghost predicate UndoRestores(w: World, replacement: Tree, o: Outcomes) {
    if Swaps(w, o) && o.removeNew.RemovalRaised? then RemovedTheAdditions(w.target, replacement, o.removeNew.removed)
    else MovedOut(w, o) ==> o.moveBack
  }

  lemma RemainsOriginalExactly(original: Option<Tree>, replacement: Tree, removed: set<Path>)
    ensures Remains(Some(replacement), removed) == original <==> RemovedTheAdditions(original, replacement, removed)
  {
    if RemovedTheAdditions(original, replacement, removed) {
      assert replacement - removed == original.value;
    }
  }

  /** Whatever raises, and wherever: the new UI, the original, or the original kept in staging. */
  lemma NeverLost(w: World, sourcePath: Path, targetPath: Path, source: Option<Tree>, app: bool, o: Outcomes)
    requires w.scratch.None? && w.target.Some?
    ensures
      var exit := Replace(w, sourcePath, targetPath, source, app, o);
      || exit.world.target == w.target
      || (exit.world.target == source && source.Some?)
      || (exit.world.scratch.Some? && exit.world.scratch.value.previous == w.target)
  {
  }

  /** Returning means done: the new UI in place, signed, and no staging left; exactly when nothing raises. */
  lemma ReturnsExactlyWhenDone(w: World, sourcePath: Path, targetPath: Path, source: Option<Tree>, app: bool, o: Outcomes)
    requires w.scratch.None?
    ensures
      var exit := Replace(w, sourcePath, targetPath, source, app, o);
      && (!exit.raised <==>
            Starts(sourcePath, targetPath, source, o) && Swaps(w, o) && (app ==> o.sign.Signed?)
            && (w.target.Some? ==> o.removeOld.Gone?) && o.removeScratch.None?)
      && (!exit.raised ==> exit.world == World(source, None, if app then Covers(source) else w.seal))
  {
  }

  /**
   The original is at the target afterwards if and only if a step before the commit raised and the
   handler's own removal and rename put it back; a raise during the commit leaves the new UI.
   */
  lemma RestoredExactlyWhenUndone(w: World, sourcePath: Path, targetPath: Path, source: Option<Tree>, app: bool, o: Outcomes)
    requires w.scratch.None? && source != w.target && Starts(sourcePath, targetPath, source, o)
    ensures
      var exit := Replace(w, sourcePath, targetPath, source, app, o);
      && (exit.world.target == w.target <==>
            (!Swaps(w, o) || (app && o.sign.SigningRaised?)) && UndoRestores(w, source.value, o))
      && (exit.world.target == w.target ==> exit.raised)
  {
    if o.removeNew.RemovalRaised? {
      RemainsOriginalExactly(w.target, source.value, o.removeNew.removed);
      hide RemovedTheAdditions, Remains;
    }
  }

  /** A step after the body raises: removing the original, or the staging directory. */
  predicate CommitRaises(w: World, o: Outcomes) {
    (w.target.Some? && o.removeOld.RemovalRaised?) || o.removeScratch.Some?
  }

  /**
   The script raises with the whole new UI in place exactly when a step of the commit raises, or the
   signature raises and discarding the new UI raises before it removed any of its files.
   */
  lemma RaisesWithNewUiExactly(w: World, sourcePath: Path, targetPath: Path, source: Option<Tree>, app: bool, o: Outcomes)
    requires w.scratch.None? && source != w.target && Starts(sourcePath, targetPath, source, o)
    ensures
      var exit := Replace(w, sourcePath, targetPath, source, app, o);
      exit.raised && exit.world.target == source <==>
        Swaps(w, o)
        && (if app && o.sign.SigningRaised? then o.removeNew.RemovalRaised? && o.removeNew.removed !! source.value.Keys
            else CommitRaises(w, o))
  {
    if o.removeNew.RemovalRaised? {
      var left := source.value - o.removeNew.removed;
      assert left == source.value <==> o.removeNew.removed !! source.value.Keys by {
        if left == source.value {
          assert forall p :: p in source.value ==> p in left;
        }
      }
    }
  }

  /** Everything succeeds but the removal of the original, which raises at once. */
  function OnlyRemovingOldRaises(): Outcomes {
    Outcomes(true, Copied, true, true, Signed, Gone, true, Signed, RemovalRaised({}), None)
  }

  /** For every installed original: the new UI is in place, the script raises, and the original stays in staging. */
  lemma RaisesThoughReplaced(w: World, sourcePath: Path, targetPath: Path, source: Option<Tree>, app: bool)
    requires w.scratch.None? && w.target.Some? && source.Some? && Separate(sourcePath, targetPath)
    ensures
      var exit := Replace(w, sourcePath, targetPath, source, app, OnlyRemovingOldRaises());
      && exit.raised && exit.world.target == source
      && exit.world.scratch == Some(Scratch(None, w.target))
  {
    assert w.target.value - {} == w.target.value;
  }

  /** Once the original is back the app is signed over it; before it was moved the seal is untouched. */
  lemma SealFollowsTarget(w: World, sourcePath: Path, targetPath: Path, source: Option<Tree>, app: bool, o: Outcomes)
    requires w.scratch.None? && app && Starts(sourcePath, targetPath, source, o)
    requires !Swaps(w, o) || o.sign.SigningRaised?
    ensures
      var exit := Replace(w, sourcePath, targetPath, source, app, o);
      && (!MovedOut(w, o) && !Swaps(w, o) ==> exit.world.seal == w.seal)
      && (MovedOut(w, o) && o.signAgain.Signed? && o.moveBack && (Swaps(w, o) ==> o.removeNew.Gone?) ==>
            exit.world.seal == Covers(w.target) && exit.world.target == w.target)
  {
  }

  /** No staging is left exactly when it holds no original and removing it does not raise. */
  lemma StagingIsRemovedExactly(w: World, sourcePath: Path, targetPath: Path, source: Option<Tree>, app: bool, o: Outcomes)
    requires w.scratch.None? && Starts(sourcePath, targetPath, source, o)
    ensures
      var exit := Replace(w, sourcePath, targetPath, source, app, o);
      && (exit.world.scratch.None? <==>
            && o.removeScratch.None?
            && (MovedOut(w, o) ==>
                  if Swaps(w, o) && (app ==> o.sign.Signed?) then o.removeOld.Gone?
                  else o.moveBack && (Swaps(w, o) ==> o.removeNew.Gone?)))
      && (exit.world.scratch.Some? && exit.world.scratch.value.previous.None? ==>
            o.removeScratch.Some? && exit.world.scratch.value.next == o.removeScratch.value.next)
  {
  }

  /** What the signature covers at the end: the outcome of the last signing, or what it was before the first. */
  lemma SealIsTheLastSigning(w: World, sourcePath: Path, targetPath: Path, source: Option<Tree>, app: bool, o: Outcomes)
    requires w.scratch.None? && Starts(sourcePath, targetPath, source, o)
    ensures
      var seal := Replace(w, sourcePath, targetPath, source, app, o).world.seal;
      var signed := app && Swaps(w, o);
      var signedAgain := app && MovedOut(w, o) && o.moveBack && (Swaps(w, o) ==> o.sign.SigningRaised? && o.removeNew.Gone?);
      if signedAgain then seal == (if o.signAgain.Signed? then Covers(w.target) else o.signAgain.seal)
      else if signed then seal == (if o.sign.Signed? then Covers(source) else o.sign.seal)
      else seal == w.seal
  {
  }

  /** The original is kept in staging exactly when it was moved out and the handler did not bring it back. */
  lemma StagingKeepsTheOriginal(w: World, sourcePath: Path, targetPath: Path, source: Option<Tree>, app: bool, o: Outcomes)
    requires w.scratch.None? && Starts(sourcePath, targetPath, source, o) && MovedOut(w, o)
    requires !Swaps(w, o) || (app && o.sign.SigningRaised?)
    ensures
      var exit := Replace(w, sourcePath, targetPath, source, app, o);
      (exit.world.scratch.Some? && exit.world.scratch.value.previous == w.target)
        <==> (Swaps(w, o) && o.removeNew.RemovalRaised?) || !o.moveBack
  {
  }
}
