/**
 Giving working directories their workspace ids, and showing the bindings of ids: known roots keep their
 workspace, new ones get a record with a random id. Canonical paths and random ids are inputs.
 */
module WorkspaceRoots {
  import opened Wrappers
  import opened Distinct

  datatype Workspace = Workspace(id: string, root: string, displayName: string)

  datatype Binding = Binding(id: string, displayName: string)

  const MAX_ROOTS := 32

  /** Records are looked up by either field. */
  datatype Key = ByRoot | ById

  function Field(w: Workspace, key: Key): string {
    if key.ByRoot? then w.root else w.id
  }

  /** The first record with this field. */
  function Find(records: seq<Workspace>, key: Key, wanted: string): (found: Option<Workspace>)
    ensures found.Some? ==> found.value in records && Field(found.value, key) == wanted
    ensures found.None? ==> forall w :: w in records ==> Field(w, key) != wanted
  {
    if records == [] then None
    else if Field(records[0], key) == wanted then Some(records[0])
    else Find(records[1..], key, wanted)
  }

  /** The catalog is asked first. */
  function Known(catalog: seq<Workspace>, workspaces: seq<Workspace>, key: Key, wanted: string): Option<Workspace> {
    if Find(catalog, key, wanted).Some? then Find(catalog, key, wanted) else Find(workspaces, key, wanted)
  }

  /** An id names one record, wherever it is listed. */
  ghost predicate OneRecordPerId(catalog: seq<Workspace>, workspaces: seq<Workspace>) {
    forall v, w :: v in catalog + workspaces && w in catalog + workspaces && v.id == w.id ==> v == w
  }

  /** The random ids are new and differ from one another. */
  ghost predicate FreshIds(catalog: seq<Workspace>, workspaces: seq<Workspace>, random: nat -> Result<string, string>) {
    && (forall i, w :: random(i).Success? && w in catalog + workspaces ==> w.id != random(i).value)
    && (forall i, j :: random(i).Success? && random(j).Success? && i != j ==> random(i).value != random(j).value)
  }

  /** What the system supplies: random ids by position, and the name to display for a root. */
  datatype Supplies = Supplies(random: nat -> Result<string, string>, name: string -> string)

  /** Every id shows its root; each further record was made, once, for a root that nothing knew. */
  ghost predicate Assigned(catalog: seq<Workspace>, start: seq<Workspace>, workspaces: seq<Workspace>,
                           roots: seq<string>, ids: seq<string>, supplies: Supplies) {
    && |ids| == |roots| && start <= workspaces && OneRecordPerId(catalog, workspaces)
    && (forall k :: 0 <= k < |ids| ==> Shows(catalog, workspaces, ids[k], roots[k]))
    && (forall k :: |start| <= k < |workspaces| ==> IsNew(catalog, start, workspaces[k], roots, supplies))
    && (forall j, k :: |start| <= j < k < |workspaces| ==> workspaces[j].root != workspaces[k].root)
  }

  /** The record found by the root has the id, and the record found by the id has the root. */
  ghost predicate Shows(catalog: seq<Workspace>, workspaces: seq<Workspace>, id: string, root: string) {
    && Known(catalog, workspaces, ByRoot, root).Some? && Known(catalog, workspaces, ByRoot, root).value.id == id
    && Known(catalog, workspaces, ById, id).Some? && Known(catalog, workspaces, ById, id).value.root == root
  }

  /** Made for a root that neither list knew, under one of the random ids drawn so far. */
  ghost predicate IsNew(catalog: seq<Workspace>, start: seq<Workspace>, w: Workspace, roots: seq<string>, supplies: Supplies) {
    && w.root in roots && w.displayName == supplies.name(w.root) && Known(catalog, start, ByRoot, w.root).None?
    && exists i: nat :: i < |roots| && supplies.random(i) == Success(w.id)
  }

  lemma {:induction false} FindAppend(records: seq<Workspace>, w: Workspace, key: Key, wanted: string)
    ensures Find(records + [w], key, wanted)
         == if Find(records, key, wanted).Some? then Find(records, key, wanted)
            else if Field(w, key) == wanted then Some(w) else None
  {
    if records != [] {
      assert (records + [w])[1..] == records[1..] + [w];
      FindAppend(records[1..], w, key, wanted);
    }
  }

  /** A known root gets the id of its record, which shows that root. */
  lemma KnownRootShows(catalog: seq<Workspace>, workspaces: seq<Workspace>, root: string)
    requires OneRecordPerId(catalog, workspaces) && Known(catalog, workspaces, ByRoot, root).Some?
    ensures Shows(catalog, workspaces, Known(catalog, workspaces, ByRoot, root).value.id, root)
  {
    var known := Known(catalog, workspaces, ByRoot, root).value;
    var shown := Known(catalog, workspaces, ById, known.id);
    assert known in catalog + workspaces;
    assert shown.value in catalog + workspaces;
  }

  /** A new record shows its own root, and what earlier ids show stays. */
  lemma NewRecordShows(catalog: seq<Workspace>, workspaces: seq<Workspace>, w: Workspace, id: string, root: string)
    requires Known(catalog, workspaces, ByRoot, w.root).None? && Known(catalog, workspaces, ById, w.id).None?
    ensures Shows(catalog, workspaces + [w], w.id, w.root)
    ensures Shows(catalog, workspaces, id, root) ==> Shows(catalog, workspaces + [w], id, root)
  {
    FindAppend(workspaces, w, ByRoot, root);
    FindAppend(workspaces, w, ByRoot, w.root);
    FindAppend(workspaces, w, ById, id);
    FindAppend(workspaces, w, ById, w.id);
  }

  ghost predicate Fresh(catalog: seq<Workspace>, start: seq<Workspace>, supplies: Supplies) {
    OneRecordPerId(catalog, start) && FreshIds(catalog, start, supplies.random)
  }

  lemma AssignKnown(catalog: seq<Workspace>, start: seq<Workspace>, workspaces: seq<Workspace>,
                    roots: seq<string>, ids: seq<string>, supplies: Supplies, root: string)
    requires Assigned(catalog, start, workspaces, roots, ids, supplies) && Known(catalog, workspaces, ByRoot, root).Some?
    ensures Assigned(catalog, start, workspaces, roots + [root], ids + [Known(catalog, workspaces, ByRoot, root).value.id], supplies)
  {
    KnownRootShows(catalog, workspaces, root);
    hide Shows, Known, OneRecordPerId;
    forall k | |start| <= k < |workspaces| ensures IsNew(catalog, start, workspaces[k], roots + [root], supplies) {
      assert IsNew(catalog, start, workspaces[k], roots, supplies);
    }
  }

  /** The id drawn for the next root is unknown so far. */
  lemma DrawnIdIsNew(catalog: seq<Workspace>, start: seq<Workspace>, workspaces: seq<Workspace>,
                     roots: seq<string>, ids: seq<string>, supplies: Supplies)
    requires Fresh(catalog, start, supplies) && Assigned(catalog, start, workspaces, roots, ids, supplies)
    requires supplies.random(|roots|).Success?
    ensures forall w :: w in catalog + workspaces ==> w.id != supplies.random(|roots|).value
  {
    var id := supplies.random(|roots|).value;
    forall k | |start| <= k < |workspaces| ensures workspaces[k].id != id {
      assert IsNew(catalog, start, workspaces[k], roots, supplies);
    }
    forall w | w in catalog + workspaces ensures w.id != id {
      if w !in catalog {
        var k :| 0 <= k < |workspaces| && workspaces[k] == w;
        if k < |start| {
          assert start[k] == w && w in catalog + start;
        }
      }
    }
  }

  /** The records stay the only ones with their ids and, beyond the old ones, with their roots. */
  lemma NewRecordIsApart(catalog: seq<Workspace>, start: seq<Workspace>, workspaces: seq<Workspace>, w: Workspace)
    requires OneRecordPerId(catalog, workspaces) && start <= workspaces && Known(catalog, workspaces, ByRoot, w.root).None?
    requires forall v :: v in catalog + workspaces ==> v.id != w.id
    requires forall j, k :: |start| <= j < k < |workspaces| ==> workspaces[j].root != workspaces[k].root
    ensures OneRecordPerId(catalog, workspaces + [w]) && Known(catalog, start, ByRoot, w.root).None?
    ensures var after := workspaces + [w];
      forall j, k :: |start| <= j < k < |after| ==> after[j].root != after[k].root
  {
    var after := workspaces + [w];
    assert forall v :: v in catalog + after <==> v in catalog + workspaces || v == w;
    assert forall v :: v in workspaces ==> v.root != w.root;
    assert forall v :: v in start ==> v in workspaces;
  }

  lemma AssignNew(catalog: seq<Workspace>, start: seq<Workspace>, workspaces: seq<Workspace>,
                  roots: seq<string>, ids: seq<string>, supplies: Supplies, root: string)
    requires Fresh(catalog, start, supplies) && Assigned(catalog, start, workspaces, roots, ids, supplies)
    requires Known(catalog, workspaces, ByRoot, root).None? && supplies.random(|roots|).Success?
    ensures
      var id := supplies.random(|roots|).value;
      Assigned(catalog, start, workspaces + [Workspace(id, root, supplies.name(root))], roots + [root], ids + [id], supplies)
  {
    var id := supplies.random(|roots|).value;
    var w := Workspace(id, root, supplies.name(root));
    var after := workspaces + [w];
    DrawnIdIsNew(catalog, start, workspaces, roots, ids, supplies);
    NewRecordIsApart(catalog, start, workspaces, w);
    assert Known(catalog, workspaces, ById, id).None?;
    hide Shows, Fresh, FreshIds, OneRecordPerId, Known;
    NewRecordShows(catalog, workspaces, w, id, root);
    forall k | 0 <= k < |ids| ensures Shows(catalog, after, ids[k], roots[k]) {
      NewRecordShows(catalog, workspaces, w, ids[k], roots[k]);
    }
    forall k | |start| <= k < |after| ensures IsNew(catalog, start, after[k], roots + [root], supplies) {
      if k < |workspaces| {
        assert IsNew(catalog, start, workspaces[k], roots, supplies);
      } else {
        assert after[k] == w && (roots + [root])[|roots|] == root;
      }
    }
  }

  /** An id was needed for an unknown root, and none could be drawn. */
  ghost predicate DrawFails(catalog: seq<Workspace>, start: seq<Workspace>, roots: seq<string>, supplies: Supplies, i: nat, error: string) {
    i < |roots| && Known(catalog, start, ByRoot, roots[i]).None? && supplies.random(i) == Failure(error)
  }

  /** Looks each root up, and makes a record for one that is not known; a failing draw ends the walk. */
  method PrepareRoots(catalog: seq<Workspace>, start: seq<Workspace>, roots: seq<string>, supplies: Supplies)
    returns (workspaces: seq<Workspace>, result: Result<seq<string>, string>)
    ensures start <= workspaces
    ensures Fresh(catalog, start, supplies) && result.Success? ==>
      Assigned(catalog, start, workspaces, roots, result.value, supplies)
    ensures result.Failure? ==> exists i: nat :: DrawFails(catalog, start, roots, supplies, i, result.error)
  {
    workspaces := start;
    var ids: seq<string> := [];
    var i := 0;
    while i < |roots|
      invariant i <= |roots| == i + |roots[i..]| && |ids| == i && start <= workspaces
      invariant Fresh(catalog, start, supplies) ==> Assigned(catalog, start, workspaces, roots[..i], ids, supplies)
    {
      var root := roots[i];
      assert roots[..i + 1] == roots[..i] + [root];
      var known := Known(catalog, workspaces, ByRoot, root);
      if known.Some? {
        if Fresh(catalog, start, supplies) {
          AssignKnown(catalog, start, workspaces, roots[..i], ids, supplies, root);
        }
        ids := ids + [known.value.id];
      } else {
        var id := supplies.random(i);
        if id.Failure? {
          assert DrawFails(catalog, start, roots, supplies, i, id.error) by {
            assert forall w :: w in start ==> w in workspaces;
          }
          return workspaces, Failure(id.error);
        }
        if Fresh(catalog, start, supplies) {
          AssignNew(catalog, start, workspaces, roots[..i], ids, supplies, root);
        }
        workspaces := workspaces + [Workspace(id.value, root, supplies.name(root))];
        ids := ids + [id.value];
      }
      i := i + 1;
    }
    assert roots[..|roots|] == roots;
    return workspaces, Success(ids);
  }

  /** Equal roots have equal ids, and different roots different ones. */
  lemma SameRootSameId(catalog: seq<Workspace>, start: seq<Workspace>, workspaces: seq<Workspace>,
                       roots: seq<string>, ids: seq<string>, supplies: Supplies, j: nat, k: nat)
    requires Assigned(catalog, start, workspaces, roots, ids, supplies) && j < |ids| && k < |ids|
    ensures ids[j] == ids[k] <==> roots[j] == roots[k]
  {
    assert Shows(catalog, workspaces, ids[j], roots[j]) && Shows(catalog, workspaces, ids[k], roots[k]);
  }

  /******* Showing the bindings *******/

  /** Unknown ids are skipped. */
  function BindingSnapshot(catalog: seq<Workspace>, workspaces: seq<Workspace>, ids: seq<string>): seq<Binding> {
    if ids == [] then []
    else
      var known := Known(catalog, workspaces, ById, ids[0]);
      (if known.Some? then [Binding(known.value.id, known.value.displayName)] else [])
      + BindingSnapshot(catalog, workspaces, ids[1..])
  }

  /** Nothing is dropped for assigned ids: one binding per root, in order, under the record of that root. */
  lemma {:induction false} BindingsNameTheRoots(catalog: seq<Workspace>, workspaces: seq<Workspace>, roots: seq<string>, ids: seq<string>)
    requires |ids| == |roots| && forall k :: 0 <= k < |ids| ==> Shows(catalog, workspaces, ids[k], roots[k])
    ensures
      var bindings := BindingSnapshot(catalog, workspaces, ids);
      |bindings| == |roots| && forall k :: 0 <= k < |roots| ==>
        var known := Known(catalog, workspaces, ById, ids[k]);
        known.Some? && known.value.root == roots[k] && bindings[k] == Binding(ids[k], known.value.displayName)
    decreases |ids|
  {
    if ids != [] {
      assert Shows(catalog, workspaces, ids[0], roots[0]);
      BindingsNameTheRoots(catalog, workspaces, roots[1..], ids[1..]);
    }
  }

  /** The bindings of a list are those of its parts, in order; a known id has one, with the name of its record, an unknown id none. */
  lemma {:induction false} BindingsOfEachId(catalog: seq<Workspace>, workspaces: seq<Workspace>, a: seq<string>, b: seq<string>, w: Workspace)
    ensures BindingSnapshot(catalog, workspaces, a + b) == BindingSnapshot(catalog, workspaces, a) + BindingSnapshot(catalog, workspaces, b)
    ensures OneRecordPerId(catalog, workspaces) && w in catalog + workspaces ==>
      BindingSnapshot(catalog, workspaces, [w.id]) == [Binding(w.id, w.displayName)]
    ensures (forall v :: v in catalog + workspaces ==> v.id != w.id) ==> BindingSnapshot(catalog, workspaces, [w.id]) == []
    decreases |a|
  {
    assert [w.id][1..] == [];
    if w in catalog + workspaces {
      var known := Known(catalog, workspaces, ById, w.id);
      assert known.Some? && known.value in catalog + workspaces;
    }
    if a == [] {
      assert a + b == b;
    } else {
      assert (a + b)[1..] == a[1..] + b;
      BindingsOfEachId(catalog, workspaces, a[1..], b, w);
    }
  }

  /** A record of the catalog is found before one of the working list, and in either the first with the field. */
  lemma {:induction false} FirstRecordIsFound(before: seq<Workspace>, w: Workspace, after: seq<Workspace>, others: seq<Workspace>, key: Key)
    requires forall v :: v in before ==> Field(v, key) != Field(w, key)
    ensures Find(before + [w] + after, key, Field(w, key)) == Some(w)
    ensures Known(before + [w] + after, others, key, Field(w, key)) == Some(w)
    ensures (forall v :: v in others ==> Field(v, key) != Field(w, key)) ==>
      Known(others, before + [w] + after, key, Field(w, key)) == Some(w)
  {
    var all := before + [w] + after;
    if before != [] {
      assert all[1..] == before[1..] + [w] + after;
      FirstRecordIsFound(before[1..], w, after, others, key);
    }
  }

  /******* Canonical roots *******/

  /** The places where a path's canonical form occurs for the first time. */
  ghost predicate FirstPlace(paths: seq<string>, canonical: string -> Result<string, string>, i: nat) {
    i < |paths| && forall j :: 0 <= j < i ==> canonical(paths[j]) != canonical(paths[i])
  }

  /** The roots stand in the order in which their canonical paths first occur. */
  ghost predicate InFirstOrder(roots: seq<string>, places: seq<nat>, paths: seq<string>, canonical: string -> Result<string, string>) {
    && |places| == |roots|
    && (forall k :: 0 <= k < |roots| ==> FirstPlace(paths, canonical, places[k]) && canonical(paths[places[k]]) == Success(roots[k]))
    && (forall j, k :: 0 <= j < k < |roots| ==> places[j] < places[k])
  }

  /** Each canonical path once, at its first place; the canonical path of an entry may not exist. */
  method CanonicalRoots(paths: seq<string>, canonical: string -> Result<string, string>)
    returns (result: Result<seq<string>, string>, ghost places: seq<nat>)
    ensures result.Success? ==> InFirstOrder(result.value, places, paths, canonical)
    ensures result.Success? <==> |paths| <= 32 && forall i :: 0 <= i < |paths| ==> canonical(paths[i]).Success?
    ensures result.Failure? ==>
      if |paths| > 32 then result.error == "too many roots"
      else exists i :: 0 <= i < |paths| && canonical(paths[i]) == Failure(result.error)
                    && forall j :: 0 <= j < i ==> canonical(paths[j]).Success?
    ensures result.Success? ==>
      && NoRepeats(result.value)
      && (forall r :: r in result.value <==> exists i :: 0 <= i < |paths| && canonical(paths[i]) == Success(r))
  {
    if |paths| > MAX_ROOTS {
      return Failure("too many roots"), [];
    }
    places := [];
    var seen: set<string> := {};
    var roots: seq<string> := [];
    var i := 0;
    while i < |paths|
      invariant i <= |paths| && NoRepeats(roots) && seen == Elements(roots)
      invariant forall j :: 0 <= j < i ==> canonical(paths[j]).Success?
      invariant forall r :: r in roots <==> exists j :: 0 <= j < i && canonical(paths[j]) == Success(r)
      invariant InFirstOrder(roots, places, paths, canonical)
      invariant forall k :: 0 <= k < |places| ==> places[k] < i
    {
      var root := canonical(paths[i]);
      if root.Failure? {
        return Failure(root.error), [];
      }
      NoRepeatsAppend(roots, root.value);
      if root.value !in seen {
        seen := seen + {root.value};
        assert FirstPlace(paths, canonical, i);
        roots := roots + [root.value];
        places := places + [i];
      }
      i := i + 1;
    }
    return Success(roots), places;
  }
}
