/**
 What the validated identity part of a projection means position by position: which fields every
 timeline item has, what it refers to, and that every fact is shown at one place. The validator's lists
 of ids and references do not occur here; the two readings are proved equivalent.
 */
module TimelinePositions {
  import opened Wrappers
  import opened Distinct
  import opened SessionTimeline

  /** The item's fields are filled in, and what it names is there and of the right kind. */
  ghost predicate RefersRightly(p: Projection, item: Item) {
    && item.timelineId != "" && 1 <= item.sequence <= p.revision
    && match item
       case MessageItem(_, _, id, stream) =>
         || (Message(id, User) in p.messages && stream.None?)
         || (Message(id, Assistant) in p.messages && stream.Some? && stream.value != "")
       case NarrativeItem(_, _, request, id, stream) => request != "" && stream != "" && Narrative(id, request) in p.narratives
       case PlanItem(_, _, request, id, revision) => request != "" && Plan(id, revision) in p.plans
       case ToolGroup(_, _, request, ids) =>
         && ids != [] && request != Some("")
         && forall m :: 0 <= m < |ids| ==> IsShownActivity(p, ids[m]) && (request.None? ==> Activity(ids[m], Agent) in p.activities)
  }

  ghost predicate IsShownActivity(p: Projection, id: string) {
    || Activity(id, ToolCall) in p.activities || Activity(id, ProviderHosted) in p.activities
    || Activity(id, Approval) in p.activities || Activity(id, Interaction) in p.activities || Activity(id, Agent) in p.activities
  }

  ghost predicate ShowsMessage(items: seq<Item>, k: nat, id: string) {
    k < |items| && items[k].MessageItem? && items[k].messageId == id
  }

  ghost predicate ShowsNarrative(items: seq<Item>, k: nat, id: string) {
    k < |items| && items[k].NarrativeItem? && items[k].narrativeId == id
  }

  ghost predicate ShowsPlan(items: seq<Item>, k: nat, plan: Plan) {
    k < |items| && items[k].PlanItem? && Plan(items[k].planId, items[k].revision) == plan
  }

  ghost predicate ShowsActivity(items: seq<Item>, k: nat, m: nat, id: string) {
    k < |items| && items[k].ToolGroup? && m < |items[k].activityIds| && items[k].activityIds[m] == id
  }

  /** No message, narrative, plan revision or activity is shown twice. */
  ghost predicate NothingTwice(items: seq<Item>) {
    && (forall k, l, id :: ShowsMessage(items, k, id) && ShowsMessage(items, l, id) ==> k == l)
    && (forall k, l, id :: ShowsNarrative(items, k, id) && ShowsNarrative(items, l, id) ==> k == l)
    && (forall k, l, plan :: ShowsPlan(items, k, plan) && ShowsPlan(items, l, plan) ==> k == l)
    && ActivityOnce(items)
  }

  /** A message of the user or the assistant; of activities, all but runs and plans are shown. */
  predicate Spoken(message: Message) {
    message.role in {Role.User, Role.Assistant}
  }

  predicate Shown(activity: Activity) {
    activity.kind in {ActivityKind.ToolCall, ActivityKind.ProviderHosted, ActivityKind.Approval, ActivityKind.Interaction, ActivityKind.Agent}
  }

  /** Every fact that is to be shown is shown somewhere. */
  ghost predicate NothingMissing(p: Projection) {
    && (forall m :: m in p.messages && Spoken(m) ==> exists k :: ShowsMessage(p.timeline, k, m.messageId))
    && (forall n :: n in p.narratives ==> exists k :: ShowsNarrative(p.timeline, k, n.narrativeId))
    && (forall plan :: plan in p.plans ==> exists k :: ShowsPlan(p.timeline, k, plan))
    && (forall a :: a in p.activities && Shown(a) ==> ActivityShown(p.timeline, a.activityId))
  }

  /** No two facts share their identity, nor two timeline items theirs. */
  ghost predicate IdentitiesDiffer(p: Projection) {
    && (forall i, j :: 0 <= i < j < |p.messages| && Spoken(p.messages[i]) && Spoken(p.messages[j]) ==>
          p.messages[i].messageId != p.messages[j].messageId)
    && (forall i, j :: 0 <= i < j < |p.narratives| ==> p.narratives[i].narrativeId != p.narratives[j].narrativeId)
    && (forall i, j :: 0 <= i < j < |p.plans| ==> p.plans[i] != p.plans[j])
    && (forall i, j :: 0 <= i < j < |p.activities| ==> p.activities[i].activityId != p.activities[j].activityId)
    && (forall i :: 0 <= i < |p.activities| ==> p.activities[i].activityId != "")
    && (forall k, l :: 0 <= k < l < |p.timeline| ==> p.timeline[k].timelineId != p.timeline[l].timelineId)
  }

  ghost predicate ShowsEverythingOnce(p: Projection) {
    && (forall k :: 0 <= k < |p.timeline| ==> RefersRightly(p, p.timeline[k]))
    && IdentitiesDiffer(p) && NothingTwice(p.timeline) && NothingMissing(p)
  }

  ghost predicate AllIn<T(!new)>(a: seq<T>, b: seq<T>) {
    forall x :: x in a ==> x in b
  }

  /******* One item *******/

  lemma MessageFoundExactly(p: Projection, item: Item)
    requires item.MessageItem?
    ensures MessageFound(p, item) <==>
      || (Message(item.messageId, User) in p.messages && item.streamId.None?)
      || (Message(item.messageId, Assistant) in p.messages && item.streamId.Some? && item.streamId.value != "")
  {
    if MessageFound(p, item) {
      var i :| 0 <= i < |p.messages| && p.messages[i].messageId == item.messageId
        && match p.messages[i].role
           case Assistant => item.streamId.Some? && item.streamId.value != ""
           case User => item.streamId.None?
           case _ => false;
      assert p.messages[i] in p.messages && p.messages[i] == Message(item.messageId, p.messages[i].role);
    }
  }

  lemma ToolLikeExactly(p: Projection, id: string)
    ensures ToolLikeFound(p, id) <==> IsShownActivity(p, id)
  {
    if ToolLikeFound(p, id) {
      var i :| 0 <= i < |p.activities| && p.activities[i].activityId == id && ToolLike(p.activities[i]);
      assert p.activities[i] in p.activities && p.activities[i] == Activity(id, p.activities[i].kind);
    }
  }

  lemma ItemFitsExactly(p: Projection, item: Item)
    ensures ItemFits(p, item) <==> RefersRightly(p, item)
  {
    match item {
      case MessageItem(_, _, _, _) => MessageFoundExactly(p, item);
      case NarrativeItem(_, _, _, _, _) =>
      case PlanItem(_, _, _, _, _) =>
      case ToolGroup(_, _, _, ids) =>
        forall m | 0 <= m < |ids| ensures ToolLikeFound(p, ids[m]) <==> IsShownActivity(p, ids[m]) {
          ToolLikeExactly(p, ids[m]);
        }
        assert forall m :: 0 <= m < |ids| ==> (AgentFound(p, ids[m]) <==> Activity(ids[m], Agent) in p.activities);
        hide ToolLikeFound, IsShownActivity, AgentFound;
    }
  }

  /******* Lists of references *******/

  lemma {:induction false} MessageRefsExactly(items: seq<Item>)
    ensures forall id :: id in MessageRefs(items) <==> exists k :: ShowsMessage(items, k, id)
    ensures NoRepeats(MessageRefs(items)) <==> forall k, l, id :: ShowsMessage(items, k, id) && ShowsMessage(items, l, id) ==> k == l
  {
    if items != [] {
      var n := |items| - 1;
      var front, last := items[..n], items[n];
      MessageRefsExactly(front);
      assert forall k, id :: ShowsMessage(items, k, id) <==>
        ShowsMessage(front, k, id) || (k == n && last == items[n] && last.MessageItem? && last.messageId == id);
      if last.MessageItem? {
        NoRepeatsAppend(MessageRefs(front), last.messageId);
        assert ShowsMessage(items, n, last.messageId);
      } else {
        assert MessageRefs(items) == MessageRefs(front);
      }
    }
  }

  lemma {:induction false} NarrativeRefsExactly(items: seq<Item>)
    ensures forall id :: id in NarrativeRefs(items) <==> exists k :: ShowsNarrative(items, k, id)
    ensures NoRepeats(NarrativeRefs(items)) <==> forall k, l, id :: ShowsNarrative(items, k, id) && ShowsNarrative(items, l, id) ==> k == l
  {
    if items != [] {
      var n := |items| - 1;
      var front, last := items[..n], items[n];
      NarrativeRefsExactly(front);
      assert forall k, id :: ShowsNarrative(items, k, id) <==>
        ShowsNarrative(front, k, id) || (k == n && last == items[n] && last.NarrativeItem? && last.narrativeId == id);
      if last.NarrativeItem? {
        NoRepeatsAppend(NarrativeRefs(front), last.narrativeId);
        assert ShowsNarrative(items, n, last.narrativeId);
      } else {
        assert NarrativeRefs(items) == NarrativeRefs(front);
      }
    }
  }

  lemma {:induction false} PlanRefsExactly(items: seq<Item>)
    ensures forall plan :: plan in PlanRefs(items) <==> exists k :: ShowsPlan(items, k, plan)
    ensures NoRepeats(PlanRefs(items)) <==> forall k, l, plan :: ShowsPlan(items, k, plan) && ShowsPlan(items, l, plan) ==> k == l
  {
    if items != [] {
      var n := |items| - 1;
      var front, last := items[..n], items[n];
      PlanRefsExactly(front);
      assert forall k, plan :: ShowsPlan(items, k, plan) <==>
        ShowsPlan(front, k, plan) || (k == n && last == items[n] && last.PlanItem? && Plan(last.planId, last.revision) == plan);
      if last.PlanItem? {
        NoRepeatsAppend(PlanRefs(front), Plan(last.planId, last.revision));
        assert ShowsPlan(items, n, Plan(last.planId, last.revision));
      } else {
        assert PlanRefs(items) == PlanRefs(front);
      }
    }
  }

  lemma NoRepeatsConcat<T(!new)>(a: seq<T>, b: seq<T>)
    ensures NoRepeats(a + b) <==> NoRepeats(a) && NoRepeats(b) && forall x :: x in a ==> x !in b
  {
    var all := a + b;
    if NoRepeats(all) {
      NoRepeatsPrefix(a, b);
      forall i, j | 0 <= i < j < |b| ensures b[i] != b[j] {
        assert all[|a| + i] != all[|a| + j];
      }
      forall x | x in a ensures x !in b {
        var i :| 0 <= i < |a| && a[i] == x;
        forall j | 0 <= j < |b| ensures b[j] != x {
          assert all[i] != all[|a| + j];
        }
      }
    }
    if NoRepeats(a) && NoRepeats(b) && forall x :: x in a ==> x !in b {
      forall i, j | 0 <= i < j < |all| ensures all[i] != all[j] {
        assert i < |a| ==> a[i] in a;
        assert j >= |a| ==> b[j - |a|] in b;
      }
    }
  }

  ghost predicate ActivityOnce(items: seq<Item>) {
    forall k: nat, m: nat, l: nat, n: nat, id ::
      ShowsActivity(items, k, m, id) && ShowsActivity(items, l, n, id) ==> k == l && m == n
  }

  ghost predicate ActivityShown(items: seq<Item>, id: string) {
    exists k: nat, m: nat :: ShowsActivity(items, k, m, id)
  }

  lemma {:induction false} ActivityRefsExactly(items: seq<Item>)
    ensures forall id :: id in ActivityRefs(items) <==> ActivityShown(items, id)
    ensures NoRepeats(ActivityRefs(items)) <==> ActivityOnce(items)
  {
    if items != [] {
      var n := |items| - 1;
      var front, last := items[..n], items[n];
      ActivityRefsExactly(front);
      if last.ToolGroup? {
        NoRepeatsConcat(ActivityRefs(front), last.activityIds);
        GroupShown(items);
        GroupOnce(items);
      } else {
        assert ActivityRefs(items) == ActivityRefs(front);
        NoGroup(items);
      }
    }
  }

  lemma NoGroup(items: seq<Item>)
    requires items != [] && !items[|items| - 1].ToolGroup?
    ensures var front := items[..|items| - 1];
      && (forall id :: ActivityShown(items, id) <==> ActivityShown(front, id)) && (ActivityOnce(items) <==> ActivityOnce(front))
  {
    var front := items[..|items| - 1];
    assert forall k: nat, m: nat, id :: ShowsActivity(items, k, m, id) <==> ShowsActivity(front, k, m, id);
    hide ShowsActivity;
    forall id ensures ActivityShown(items, id) <==> ActivityShown(front, id) {
      if ActivityShown(items, id) {
        var k: nat, m: nat :| ShowsActivity(items, k, m, id);
        assert ShowsActivity(front, k, m, id);
      }
      if ActivityShown(front, id) {
        var k: nat, m: nat :| ShowsActivity(front, k, m, id);
        assert ShowsActivity(items, k, m, id);
      }
    }
  }

  lemma GroupShown(items: seq<Item>)
    requires items != [] && items[|items| - 1].ToolGroup?
    ensures forall id :: ActivityShown(items, id) <==> ActivityShown(items[..|items| - 1], id) || id in items[|items| - 1].activityIds
  {
    var n := |items| - 1;
    var front, ids := items[..n], items[n].activityIds;
    forall id ensures ActivityShown(items, id) <==> ActivityShown(front, id) || id in ids {
      if ActivityShown(items, id) {
        var k: nat, m: nat :| ShowsActivity(items, k, m, id);
        assert k < n ==> ShowsActivity(front, k, m, id);
      }
      if ActivityShown(front, id) {
        var k: nat, m: nat :| ShowsActivity(front, k, m, id);
        assert ShowsActivity(items, k, m, id);
      }
      if id in ids {
        var m :| 0 <= m < |ids| && ids[m] == id;
        assert ShowsActivity(items, n, m, id);
      }
    }
  }

  lemma GroupOnce(items: seq<Item>)
    requires items != [] && items[|items| - 1].ToolGroup?
    ensures var front, ids := items[..|items| - 1], items[|items| - 1].activityIds;
      ActivityOnce(items) <==> ActivityOnce(front) && NoRepeats(ids) && forall id :: ActivityShown(front, id) ==> id !in ids
  {
    var n := |items| - 1;
    var front, ids := items[..n], items[n].activityIds;
    if ActivityOnce(items) {
      forall k: nat, m: nat, l: nat, j: nat, id | ShowsActivity(front, k, m, id) && ShowsActivity(front, l, j, id) ensures k == l && m == j {
        assert ShowsActivity(items, k, m, id) && ShowsActivity(items, l, j, id);
      }
      forall i, j | 0 <= i < j < |ids| ensures ids[i] != ids[j] {
        assert ShowsActivity(items, n, i, ids[i]) && ShowsActivity(items, n, j, ids[j]);
      }
      forall id | ActivityShown(front, id) ensures id !in ids {
        var k: nat, m: nat :| ShowsActivity(front, k, m, id);
        assert ShowsActivity(items, k, m, id);
        forall j | 0 <= j < |ids| ensures ids[j] != id {
          if ids[j] == id {
            assert ShowsActivity(items, n, j, id);
          }
        }
      }
    }
    if ActivityOnce(front) && NoRepeats(ids) && forall id :: ActivityShown(front, id) ==> id !in ids {
      forall k: nat, m: nat, l: nat, j: nat, id | ShowsActivity(items, k, m, id) && ShowsActivity(items, l, j, id) ensures k == l && m == j {
        OldOrNew(items, k, m, id);
        OldOrNew(items, l, j, id);
      }
    }
  }

  lemma OldOrNew(items: seq<Item>, k: nat, m: nat, id: string)
    requires items != [] && items[|items| - 1].ToolGroup? && ShowsActivity(items, k, m, id)
    ensures var front, ids := items[..|items| - 1], items[|items| - 1].activityIds;
      if k < |items| - 1 then ShowsActivity(front, k, m, id) && ActivityShown(front, id)
      else m < |ids| && ids[m] == id && id in ids
  {
  }

  /******* Lists of facts *******/

  lemma {:induction false} MessageIdsExactly(messages: seq<Message>)
    ensures forall id :: id in MessageIds(messages) <==> exists m :: m in messages && Spoken(m) && m.messageId == id
    ensures NoRepeats(MessageIds(messages)) <==>
      forall i, j :: 0 <= i < j < |messages| && Spoken(messages[i]) && Spoken(messages[j]) ==> messages[i].messageId != messages[j].messageId
  {
    if messages != [] {
      var first, rest := messages[0], messages[1..];
      MessageIdsExactly(rest);
      assert forall i :: 1 <= i < |messages| ==> messages[i] == rest[i - 1];
      assert forall m :: m in messages <==> m == first || m in rest;
      if OnTimeline(first) {
        NoRepeatsConcat([first.messageId], MessageIds(rest));
      } else {
        assert MessageIds(messages) == MessageIds(rest);
      }
      if NoRepeats(MessageIds(messages)) && OnTimeline(first) {
        forall j | 0 < j < |messages| && Spoken(messages[j]) ensures messages[0].messageId != messages[j].messageId {
          assert rest[j - 1] in rest && messages[j] == rest[j - 1];
          assert messages[j].messageId in MessageIds(rest) && first.messageId in [first.messageId];
        }
      }
    }
  }

  lemma {:induction false} ToolLikeIdsExactly(activities: seq<Activity>)
    ensures forall id :: id in ToolLikeIds(activities) <==> exists a :: a in activities && Shown(a) && a.activityId == id
    ensures (forall i, j :: 0 <= i < j < |activities| ==> activities[i].activityId != activities[j].activityId) ==>
      NoRepeats(ToolLikeIds(activities))
  {
    if activities != [] {
      var first, rest := activities[0], activities[1..];
      ToolLikeIdsExactly(rest);
      assert forall i :: 1 <= i < |activities| ==> activities[i] == rest[i - 1];
      assert forall a :: a in activities <==> a == first || a in rest;
      if ToolLike(first) {
        NoRepeatsConcat([first.activityId], ToolLikeIds(rest));
      } else {
        assert ToolLikeIds(activities) == ToolLikeIds(rest);
      }
    }
  }

  lemma OtherIdsExactly(p: Projection)
    ensures forall id :: id in NarrativeIds(p.narratives) <==> exists n :: n in p.narratives && n.narrativeId == id
    ensures NoRepeats(NarrativeIds(p.narratives)) <==>
      forall i, j :: 0 <= i < j < |p.narratives| ==> p.narratives[i].narrativeId != p.narratives[j].narrativeId
    ensures NoRepeats(ActivityIds(p.activities)) <==>
      forall i, j :: 0 <= i < j < |p.activities| ==> p.activities[i].activityId != p.activities[j].activityId
    ensures NoRepeats(TimelineIds(p.timeline)) <==>
      forall k, l :: 0 <= k < l < |p.timeline| ==> p.timeline[k].timelineId != p.timeline[l].timelineId
  {
    var others, items := ActivityIds(p.activities), TimelineIds(p.timeline);
    assert forall i :: 0 <= i < |others| ==> others[i] == p.activities[i].activityId;
    assert forall i :: 0 <= i < |items| ==> items[i] == p.timeline[i].timelineId;
    var ids := NarrativeIds(p.narratives);
    assert forall i :: 0 <= i < |ids| ==> ids[i] == p.narratives[i].narrativeId;
    forall id | id in ids ensures exists n :: n in p.narratives && n.narrativeId == id {
      var i :| 0 <= i < |ids| && ids[i] == id;
      assert p.narratives[i] in p.narratives;
    }
    forall n | n in p.narratives ensures n.narrativeId in ids {
      var i :| 0 <= i < |p.narratives| && p.narratives[i] == n;
      assert ids[i] == n.narrativeId;
    }
  }

  /******* Both readings *******/

  lemma ReferencesMissNothing(p: Projection)
    ensures NothingMissing(p) <==>
      && AllIn(MessageIds(p.messages), MessageRefs(p.timeline)) && AllIn(NarrativeIds(p.narratives), NarrativeRefs(p.timeline))
      && AllIn(p.plans, PlanRefs(p.timeline)) && AllIn(ToolLikeIds(p.activities), ActivityRefs(p.timeline))
  {
    MessagesMissNothing(p);
    ActivitiesMissNothing(p);
    OtherIdsExactly(p);
    NarrativeRefsExactly(p.timeline);
    PlanRefsExactly(p.timeline);
    hide MessageIds, NarrativeIds, ToolLikeIds, MessageRefs, NarrativeRefs, PlanRefs, ActivityRefs, NoRepeats;
    hide ShowsMessage, ShowsNarrative, ShowsPlan, ShowsActivity, ActivityShown, Spoken, Shown;
    if forall id :: id in NarrativeIds(p.narratives) ==> id in NarrativeRefs(p.timeline) {
      forall n | n in p.narratives ensures exists k :: ShowsNarrative(p.timeline, k, n.narrativeId) {
        assert n.narrativeId in NarrativeIds(p.narratives);
      }
    }
  }

  lemma MessagesMissNothing(p: Projection)
    ensures (forall m :: m in p.messages && Spoken(m) ==> exists k :: ShowsMessage(p.timeline, k, m.messageId))
       <==> forall id :: id in MessageIds(p.messages) ==> id in MessageRefs(p.timeline)
  {
    MessageIdsExactly(p.messages);
    MessageRefsExactly(p.timeline);
    hide MessageIds, MessageRefs, NoRepeats, ShowsMessage, Spoken;
    if forall id :: id in MessageIds(p.messages) ==> id in MessageRefs(p.timeline) {
      forall m | m in p.messages && Spoken(m) ensures exists k :: ShowsMessage(p.timeline, k, m.messageId) {
        assert m.messageId in MessageIds(p.messages);
      }
    }
  }

  lemma ActivitiesMissNothing(p: Projection)
    ensures (forall a :: a in p.activities && Shown(a) ==> ActivityShown(p.timeline, a.activityId))
       <==> forall id :: id in ToolLikeIds(p.activities) ==> id in ActivityRefs(p.timeline)
  {
    ToolLikeIdsExactly(p.activities);
    ActivityRefsExactly(p.timeline);
    hide ToolLikeIds, ActivityRefs, NoRepeats, ActivityShown, Shown;
    if forall id :: id in ToolLikeIds(p.activities) ==> id in ActivityRefs(p.timeline) {
      forall a | a in p.activities && Shown(a) ensures ActivityShown(p.timeline, a.activityId) {
        assert a.activityId in ToolLikeIds(p.activities);
      }
    }
  }

  lemma ReferencesShowNothingTwice(p: Projection)
    ensures NothingTwice(p.timeline) <==>
      && NoRepeats(MessageRefs(p.timeline)) && NoRepeats(NarrativeRefs(p.timeline))
      && NoRepeats(PlanRefs(p.timeline)) && NoRepeats(ActivityRefs(p.timeline))
  {
    MessageRefsExactly(p.timeline);
    NarrativeRefsExactly(p.timeline);
    PlanRefsExactly(p.timeline);
    ActivityRefsExactly(p.timeline);
    hide MessageRefs, NarrativeRefs, PlanRefs, ActivityRefs, NoRepeats;
    hide ShowsMessage, ShowsNarrative, ShowsPlan, ShowsActivity;
  }

  lemma IdentitiesExactly(p: Projection)
    ensures IdentitiesDiffer(p) <==>
      && NoRepeats(MessageIds(p.messages)) && NoRepeats(NarrativeIds(p.narratives)) && NoRepeats(p.plans)
      && NoRepeats(ActivityIds(p.activities)) && NoRepeats(TimelineIds(p.timeline))
      && (forall i :: 0 <= i < |p.activities| ==> p.activities[i].activityId != "")
    ensures IdentitiesDiffer(p) ==> NoRepeats(ToolLikeIds(p.activities))
  {
    MessageIdsExactly(p.messages);
    ToolLikeIdsExactly(p.activities);
    OtherIdsExactly(p);
    hide MessageIds, NarrativeIds, ToolLikeIds, ActivityIds, TimelineIds, Spoken;
  }

  lemma ItemsFitExactly(p: Projection)
    ensures (forall k :: 0 <= k < |p.timeline| ==> ItemFits(p, p.timeline[k]))
       <==> forall k :: 0 <= k < |p.timeline| ==> RefersRightly(p, p.timeline[k])
  {
    forall k | 0 <= k < |p.timeline| ensures ItemFits(p, p.timeline[k]) <==> RefersRightly(p, p.timeline[k]) {
      ItemFitsExactly(p, p.timeline[k]);
    }
    hide ItemFits, RefersRightly;
  }

  lemma OnceWhenAllThere<T(!new)>(refs: seq<T>, ids: seq<T>)
    requires AllIn(refs, ids)
    ensures ListsEachOnce(refs, ids) <==> NoRepeats(ids) && NoRepeats(refs) && AllIn(ids, refs)
  {
    hide NoRepeats;
  }

  lemma ListedOnceExactly(p: Projection)
    requires forall k :: 0 <= k < |p.timeline| ==> ItemFits(p, p.timeline[k])
    ensures
      && ListsEachOnce(MessageRefs(p.timeline), MessageIds(p.messages))
      && ListsEachOnce(NarrativeRefs(p.timeline), NarrativeIds(p.narratives))
      && ListsEachOnce(PlanRefs(p.timeline), p.plans)
      && ListsEachOnce(ActivityRefs(p.timeline), ToolLikeIds(p.activities))
      <==>
      && NoRepeats(MessageIds(p.messages)) && NoRepeats(NarrativeIds(p.narratives)) && NoRepeats(p.plans)
      && NoRepeats(ToolLikeIds(p.activities)) && NothingTwice(p.timeline) && NothingMissing(p)
  {
    RefsExist(p, p.timeline);
    ReferencesMissNothing(p);
    ReferencesShowNothingTwice(p);
    hide ItemFits, NothingTwice, NothingMissing, NoRepeats, ListsEachOnce;
    hide MessageIds, NarrativeIds, ToolLikeIds, MessageRefs, NarrativeRefs, PlanRefs, ActivityRefs;
    OnceWhenAllThere(MessageRefs(p.timeline), MessageIds(p.messages));
    OnceWhenAllThere(NarrativeRefs(p.timeline), NarrativeIds(p.narratives));
    OnceWhenAllThere(PlanRefs(p.timeline), p.plans);
    OnceWhenAllThere(ActivityRefs(p.timeline), ToolLikeIds(p.activities));
  }

  /**
   The validator accepts exactly the projections whose timeline shows everything once: every item refers
   to what is there and of the right kind, nothing is shown twice, nothing is missing, no ids are shared.
   */
  lemma AcceptedExactly(p: Projection)
    ensures ListsEverythingOnce(p) <==> ShowsEverythingOnce(p)
  {
    ItemsFitExactly(p);
    IdentitiesExactly(p);
    hide RefersRightly, IdentitiesDiffer, NothingTwice, NothingMissing, ListsEachOnce, NoRepeats;
    hide MessageIds, NarrativeIds, ToolLikeIds, ActivityIds, TimelineIds, MessageRefs, NarrativeRefs, PlanRefs, ActivityRefs;
    if forall k :: 0 <= k < |p.timeline| ==> ItemFits(p, p.timeline[k]) {
      ListedOnceExactly(p);
    }
    hide ItemFits;
  }
}
