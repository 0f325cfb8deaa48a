/**
 The identity part of the session projection's validation. Uniqueness of message and narrative ids
 is never checked: the validator only inserts timeline references into sets, looks each reference
 up, and compares counts. It is proved that this accepts exactly the projections whose timeline
 lists every user or assistant message, narrative, plan revision and tool-like activity once.
 */
module SessionTimeline {
  import opened Wrappers
  import opened Distinct

  datatype Role = User | Assistant | Tool | System

  datatype ActivityKind = Run | ToolCall | ProviderHosted | Approval | Interaction | Agent | PlanActivity

  datatype Message = Message(messageId: string, role: Role)

  datatype Narrative = Narrative(narrativeId: string, providerRequestId: string)

  datatype Plan = Plan(planId: string, revision: nat)

  datatype Activity = Activity(activityId: string, kind: ActivityKind)

  datatype Item =
    | MessageItem(timelineId: string, sequence: nat, messageId: string, streamId: Option<string>)
    | NarrativeItem(timelineId: string, sequence: nat, providerRequestId: string, narrativeId: string, narrativeStream: string)
    | PlanItem(timelineId: string, sequence: nat, providerRequestId: string, planId: string, revision: nat)
    | ToolGroup(timelineId: string, sequence: nat, group: Option<string>, activityIds: seq<string>)

  datatype Projection = Projection(
    revision: nat,
    messages: seq<Message>,
    narratives: seq<Narrative>,
    plans: seq<Plan>,
    activities: seq<Activity>,
    timeline: seq<Item>)

  predicate OnTimeline(message: Message) {
    message.role.User? || message.role.Assistant?
  }

  predicate ToolLike(activity: Activity) {
    !activity.kind.Run? && !activity.kind.PlanActivity?
  }

  /******* The facts and the references to them *******/

  function MessageIds(messages: seq<Message>): seq<string> {
    if messages == [] then []
    else (if OnTimeline(messages[0]) then [messages[0].messageId] else []) + MessageIds(messages[1..])
  }

  function NarrativeIds(narratives: seq<Narrative>): seq<string> {
    seq(|narratives|, i requires 0 <= i < |narratives| => narratives[i].narrativeId)
  }

  function ToolLikeIds(activities: seq<Activity>): seq<string> {
    if activities == [] then []
    else (if ToolLike(activities[0]) then [activities[0].activityId] else []) + ToolLikeIds(activities[1..])
  }

  function ActivityIds(activities: seq<Activity>): seq<string> {
    seq(|activities|, i requires 0 <= i < |activities| => activities[i].activityId)
  }

  function TimelineIds(items: seq<Item>): seq<string> {
    seq(|items|, i requires 0 <= i < |items| => items[i].timelineId)
  }

  function MessageRefs(items: seq<Item>): seq<string> {
    if items == [] then []
    else MessageRefs(items[..|items| - 1]) + var last := items[|items| - 1]; if last.MessageItem? then [last.messageId] else []
  }

  function NarrativeRefs(items: seq<Item>): seq<string> {
    if items == [] then []
    else NarrativeRefs(items[..|items| - 1]) + var last := items[|items| - 1]; if last.NarrativeItem? then [last.narrativeId] else []
  }

  function PlanRefs(items: seq<Item>): seq<Plan> {
    if items == [] then []
    else PlanRefs(items[..|items| - 1]) + var last := items[|items| - 1]; if last.PlanItem? then [Plan(last.planId, last.revision)] else []
  }

  function ActivityRefs(items: seq<Item>): seq<string> {
    if items == [] then []
    else ActivityRefs(items[..|items| - 1]) + var last := items[|items| - 1]; if last.ToolGroup? then last.activityIds else []
  }

  /******* One timeline item *******/

  predicate MessageFound(p: Projection, item: Item)
    requires item.MessageItem?
  {
    exists i :: 0 <= i < |p.messages| && p.messages[i].messageId == item.messageId
      && match p.messages[i].role
         case Assistant => item.streamId.Some? && item.streamId.value != ""
         case User => item.streamId.None?
         case _ => false
  }

  predicate NarrativeFound(p: Projection, item: Item)
    requires item.NarrativeItem?
  {
    exists i :: 0 <= i < |p.narratives| && p.narratives[i] == Narrative(item.narrativeId, item.providerRequestId)
  }

  predicate AgentFound(p: Projection, id: string) {
    exists i :: 0 <= i < |p.activities| && p.activities[i] == Activity(id, Agent)
  }

  predicate ToolLikeFound(p: Projection, id: string) {
    exists i :: 0 <= i < |p.activities| && p.activities[i].activityId == id && ToolLike(p.activities[i])
  }

  /** The item by itself: its fields are filled in and everything it refers to exists. */
  predicate ItemFits(p: Projection, item: Item) {
    && item.timelineId != ""
    && 0 < item.sequence <= p.revision
    && match item
       case MessageItem(_, _, _, _) => MessageFound(p, item)
       case NarrativeItem(_, _, requestId, _, stream) => requestId != "" && stream != "" && NarrativeFound(p, item)
       case PlanItem(_, _, requestId, planId, revision) => requestId != "" && Plan(planId, revision) in p.plans
       case ToolGroup(_, _, requestId, ids) =>
         && requestId != Some("")
         && (requestId.None? ==> forall k :: 0 <= k < |ids| ==> AgentFound(p, ids[k]))
         && ids != []
         && forall k :: 0 <= k < |ids| ==> ToolLikeFound(p, ids[k])
  }

  ghost predicate NoReferenceTwice(items: seq<Item>) {
    && NoRepeats(TimelineIds(items))
    && NoRepeats(MessageRefs(items))
    && NoRepeats(NarrativeRefs(items))
    && NoRepeats(PlanRefs(items))
    && NoRepeats(ActivityRefs(items))
  }

  ghost predicate Consistent(p: Projection, items: seq<Item>) {
    (forall k :: 0 <= k < |items| ==> ItemFits(p, items[k])) && NoReferenceTwice(items)
  }

  /** What acceptance means: the timeline lists every fact it should, once, and nothing else. */
  ghost predicate ListsEverythingOnce(p: Projection) {
    && NoRepeats(p.plans)
    && (forall i :: 0 <= i < |p.activities| ==> p.activities[i].activityId != "")
    && NoRepeats(ActivityIds(p.activities))
    && (forall k :: 0 <= k < |p.timeline| ==> ItemFits(p, p.timeline[k]))
    && NoRepeats(TimelineIds(p.timeline))
    && ListsEachOnce(MessageRefs(p.timeline), MessageIds(p.messages))
    && ListsEachOnce(NarrativeRefs(p.timeline), NarrativeIds(p.narratives))
    && ListsEachOnce(PlanRefs(p.timeline), p.plans)
    && ListsEachOnce(ActivityRefs(p.timeline), ToolLikeIds(p.activities))
  }

  /******* References exist *******/

  lemma {:induction false} MessageIdsComplete(messages: seq<Message>, id: string)
    ensures id in MessageIds(messages) <==> exists i :: 0 <= i < |messages| && messages[i].messageId == id && OnTimeline(messages[i])
  {
    if messages != [] {
      MessageIdsComplete(messages[1..], id);
      if i :| 0 <= i < |messages| && messages[i].messageId == id && OnTimeline(messages[i]) {
        if i > 0 {
          assert messages[1..][i - 1] == messages[i];
        }
      }
    }
  }

  lemma {:induction false} ToolLikeIdsComplete(activities: seq<Activity>, id: string)
    ensures id in ToolLikeIds(activities) <==> exists i :: 0 <= i < |activities| && activities[i].activityId == id && ToolLike(activities[i])
  {
    if activities != [] {
      ToolLikeIdsComplete(activities[1..], id);
      if i :| 0 <= i < |activities| && activities[i].activityId == id && ToolLike(activities[i]) {
        if i > 0 {
          assert activities[1..][i - 1] == activities[i];
        }
      }
    }
  }

  lemma {:induction false} RefsExist(p: Projection, items: seq<Item>)
    requires forall k :: 0 <= k < |items| ==> ItemFits(p, items[k])
    ensures forall id :: id in MessageRefs(items) ==> id in MessageIds(p.messages)
    ensures forall id :: id in NarrativeRefs(items) ==> id in NarrativeIds(p.narratives)
    ensures forall plan :: plan in PlanRefs(items) ==> plan in p.plans
    ensures forall id :: id in ActivityRefs(items) ==> id in ToolLikeIds(p.activities)
  {
    if items != [] {
      var rest, last := items[..|items| - 1], items[|items| - 1];
      RefsExist(p, rest);
      assert ItemFits(p, last);
      LastRefsExist(p, last);
      hide ItemFits, MessageIds, NarrativeIds, ToolLikeIds;
    }
  }

  lemma LastRefsExist(p: Projection, item: Item)
    requires ItemFits(p, item)
    ensures item.MessageItem? ==> item.messageId in MessageIds(p.messages)
    ensures item.NarrativeItem? ==> item.narrativeId in NarrativeIds(p.narratives)
    ensures item.PlanItem? ==> Plan(item.planId, item.revision) in p.plans
    ensures item.ToolGroup? ==> forall id :: id in item.activityIds ==> id in ToolLikeIds(p.activities)
  {
    match item {
      case MessageItem(_, _, id, _) =>
        MessageIdsComplete(p.messages, id);
      case NarrativeItem(_, _, _, _, _) =>
        var i :| 0 <= i < |p.narratives| && p.narratives[i] == Narrative(item.narrativeId, item.providerRequestId);
        assert NarrativeIds(p.narratives)[i] == item.narrativeId;
      case PlanItem(_, _, _, _, _) =>
      case ToolGroup(_, _, _, ids) =>
        forall id | id in ids ensures id in ToolLikeIds(p.activities) {
          ToolLikeIdsComplete(p.activities, id);
        }
    }
  }

  /** Equal counts turn "every reference exists" into "every fact is listed once". */
  lemma CountsDecide(p: Projection)
    requires Consistent(p, p.timeline)
    ensures
      && |MessageRefs(p.timeline)| == |MessageIds(p.messages)|
      && |NarrativeRefs(p.timeline)| == |NarrativeIds(p.narratives)|
      && |PlanRefs(p.timeline)| == |p.plans|
      && |ActivityRefs(p.timeline)| == |ToolLikeIds(p.activities)|
      <==>
      && ListsEachOnce(MessageRefs(p.timeline), MessageIds(p.messages))
      && ListsEachOnce(NarrativeRefs(p.timeline), NarrativeIds(p.narratives))
      && ListsEachOnce(PlanRefs(p.timeline), p.plans)
      && ListsEachOnce(ActivityRefs(p.timeline), ToolLikeIds(p.activities))
  {
    RefsExist(p, p.timeline);
    hide ItemFits, MessageRefs, NarrativeRefs, PlanRefs, ActivityRefs, MessageIds, NarrativeIds, ToolLikeIds;
    CountDecides(MessageRefs(p.timeline), MessageIds(p.messages));
    CountDecides(NarrativeRefs(p.timeline), NarrativeIds(p.narratives));
    CountDecides(PlanRefs(p.timeline), p.plans);
    CountDecides(ActivityRefs(p.timeline), ToolLikeIds(p.activities));
  }

  lemma CountDecides<T(!new)>(refs: seq<T>, ids: seq<T>)
    requires NoRepeats(refs) && forall x :: x in refs ==> x in ids
    ensures |refs| == |ids| <==> ListsEachOnce(refs, ids)
  {
    if |refs| == |ids| {
      Pigeonhole(refs, ids);
    }
    if ListsEachOnce(refs, ids) {
      ListedOnceCounts(refs, ids);
    }
  }

  /******* What acceptance gives a reader *******/

  /** No two messages on the timeline share an id, although no set of message ids is ever built. */
  lemma MessageIdsAreUnique(p: Projection, i: nat, j: nat)
    requires ListsEverythingOnce(p)
    requires i < j < |p.messages| && OnTimeline(p.messages[i]) && OnTimeline(p.messages[j])
    ensures p.messages[i].messageId != p.messages[j].messageId
  {
    MessagesKeepOrder(p.messages, i, j);
    hide ItemFits;
  }

  ghost predicate Before(ids: seq<string>, a: int, x: string, b: int, y: string) {
    0 <= a < b < |ids| && ids[a] == x && ids[b] == y
  }

  lemma {:induction false} MessagesKeepOrder(messages: seq<Message>, i: nat, j: nat)
    requires i < j < |messages| && OnTimeline(messages[i]) && OnTimeline(messages[j])
    ensures exists a, b :: Before(MessageIds(messages), a, messages[i].messageId, b, messages[j].messageId)
  {
    var rest := MessageIds(messages[1..]);
    if i == 0 {
      MessageIdsComplete(messages[1..], messages[j].messageId);
      assert messages[1..][j - 1] == messages[j];
      var b :| 0 <= b < |rest| && rest[b] == messages[j].messageId;
      assert Before(MessageIds(messages), 0, messages[i].messageId, b + 1, messages[j].messageId);
    } else {
      MessagesKeepOrder(messages[1..], i - 1, j - 1);
      var a, b :| Before(rest, a, messages[i].messageId, b, messages[j].messageId);
      var shift := if OnTimeline(messages[0]) then 1 else 0;
      assert Before(MessageIds(messages), a + shift, messages[i].messageId, b + shift, messages[j].messageId);
    }
  }

  /** Every user or assistant message is shown by exactly one timeline item. */
  lemma MessageShownOnce(p: Projection, i: nat) returns (k: nat)
    requires ListsEverythingOnce(p)
    requires i < |p.messages| && OnTimeline(p.messages[i])
    ensures k < |p.timeline| && p.timeline[k].MessageItem? && p.timeline[k].messageId == p.messages[i].messageId
    ensures forall m :: 0 <= m < |p.timeline| && m != k && p.timeline[m].MessageItem? ==>
                          p.timeline[m].messageId != p.messages[i].messageId
  {
    hide ItemFits;
    var id := p.messages[i].messageId;
    MessageIdsComplete(p.messages, id);
    k := MessageRefPosition(p.timeline, id);
    forall m | 0 <= m < |p.timeline| && m != k && p.timeline[m].MessageItem? ensures p.timeline[m].messageId != id {
      if m < k {
        MessageRefsKeepOrder(p.timeline, m, k);
      } else {
        MessageRefsKeepOrder(p.timeline, k, m);
      }
    }
  }

  lemma {:induction false} MessageRefPosition(items: seq<Item>, id: string) returns (k: nat)
    requires id in MessageRefs(items)
    ensures k < |items| && items[k].MessageItem? && items[k].messageId == id
  {
    var n := |items| - 1;
    if items[n].MessageItem? && items[n].messageId == id {
      k := n;
    } else {
      k := MessageRefPosition(items[..n], id);
    }
  }

  lemma {:induction false} MessageRefsKeepOrder(items: seq<Item>, i: nat, j: nat)
    requires i < j < |items| && items[i].MessageItem? && items[j].MessageItem?
    ensures exists a, b :: Before(MessageRefs(items), a, items[i].messageId, b, items[j].messageId)
  {
    var n := |items| - 1;
    var rest := MessageRefs(items[..n]);
    if j == n {
      MessageRefListed(items[..n], i);
      var a :| 0 <= a < |rest| && rest[a] == items[i].messageId;
      assert Before(MessageRefs(items), a, items[i].messageId, |rest|, items[j].messageId);
    } else {
      MessageRefsKeepOrder(items[..n], i, j);
      var a, b :| Before(rest, a, items[i].messageId, b, items[j].messageId);
      assert Before(MessageRefs(items), a, items[i].messageId, b, items[j].messageId);
    }
  }

  lemma {:induction false} MessageRefListed(items: seq<Item>, i: nat)
    requires i < |items| && items[i].MessageItem?
    ensures items[i].messageId in MessageRefs(items)
  {
    if i < |items| - 1 {
      MessageRefListed(items[..|items| - 1], i);
    }
  }

  /******* The validator *******/

  lemma {:induction false} ConsistentPrefix(p: Projection, items: seq<Item>, n: nat)
    requires n <= |items| && Consistent(p, items)
    ensures Consistent(p, items[..n])
    decreases |items|
  {
    if n == |items| {
      assert items[..n] == items;
    } else {
      var rest, last := items[..|items| - 1], items[|items| - 1];
      assert TimelineIds(items) == TimelineIds(rest) + [last.timelineId];
      NoRepeatsPrefix(TimelineIds(rest), [last.timelineId]);
      NoRepeatsPrefix(MessageRefs(rest), if last.MessageItem? then [last.messageId] else []);
      NoRepeatsPrefix(NarrativeRefs(rest), if last.NarrativeItem? then [last.narrativeId] else []);
      NoRepeatsPrefix(PlanRefs(rest), if last.PlanItem? then [Plan(last.planId, last.revision)] else []);
      NoRepeatsPrefix(ActivityRefs(rest), if last.ToolGroup? then last.activityIds else []);
      hide NoRepeats, MessageRefs, NarrativeRefs, PlanRefs, ActivityRefs, TimelineIds, ItemFits;
      ConsistentPrefix(p, rest, n);
      assert rest[..n] == items[..n];
    }
  }

  /** The reference lists of one more item. */
  lemma OneMoreItem(items: seq<Item>, item: Item)
    ensures TimelineIds(items + [item]) == TimelineIds(items) + [item.timelineId]
    ensures MessageRefs(items + [item]) == MessageRefs(items) + if item.MessageItem? then [item.messageId] else []
    ensures NarrativeRefs(items + [item]) == NarrativeRefs(items) + if item.NarrativeItem? then [item.narrativeId] else []
    ensures PlanRefs(items + [item]) == PlanRefs(items) + if item.PlanItem? then [Plan(item.planId, item.revision)] else []
    ensures ActivityRefs(items + [item]) == ActivityRefs(items) + if item.ToolGroup? then item.activityIds else []
  {
  }

  /** A further item keeps the timeline consistent when it fits and names nothing a second time. */
  lemma ConsistentStep(p: Projection, items: seq<Item>, item: Item)
    requires Consistent(p, items)
    ensures Consistent(p, items + [item]) <==>
      && ItemFits(p, item)
      && item.timelineId !in TimelineIds(items)
      && (item.MessageItem? ==> item.messageId !in MessageRefs(items))
      && (item.NarrativeItem? ==> item.narrativeId !in NarrativeRefs(items))
      && (item.PlanItem? ==> Plan(item.planId, item.revision) !in PlanRefs(items))
      && (item.ToolGroup? ==> NoRepeats(ActivityRefs(items) + item.activityIds))
  {
    OneMoreItem(items, item);
    NoRepeatsAppend(TimelineIds(items), item.timelineId);
    match item {
      case MessageItem(_, _, id, _) => NoRepeatsAppend(MessageRefs(items), id);
      case NarrativeItem(_, _, _, id, _) => NoRepeatsAppend(NarrativeRefs(items), id);
      case PlanItem(_, _, _, id, revision) => NoRepeatsAppend(PlanRefs(items), Plan(id, revision));
      case ToolGroup(_, _, _, _) =>
    }
    hide NoRepeats, MessageRefs, NarrativeRefs, PlanRefs, ActivityRefs, TimelineIds, ItemFits;
    assert MessageRefs(items) + [] == MessageRefs(items) && NarrativeRefs(items) + [] == NarrativeRefs(items);
    assert PlanRefs(items) + [] == PlanRefs(items) && ActivityRefs(items) + [] == ActivityRefs(items);
    var all := items + [item];
    assert (forall k :: 0 <= k < |all| ==> ItemFits(p, all[k])) <==>
      (forall k :: 0 <= k < |items| ==> ItemFits(p, items[k])) && ItemFits(p, item) by {
      assert all[|items|] == item;
      assert forall k :: 0 <= k < |items| ==> all[k] == items[k];
    }
  }

  method UniquePlans(plans: seq<Plan>) returns (unique: bool)
    ensures unique <==> NoRepeats(plans)
  {
    var planRevisions: set<Plan> := {};
    for i := 0 to |plans|
      invariant planRevisions == Elements(plans[..i]) && NoRepeats(plans[..i])
    {
      assert plans[..i + 1] == plans[..i] + [plans[i]];
      NoRepeatsAppend(plans[..i], plans[i]);
      if plans[i] in planRevisions {
        RepeatFound(plans, i);
        return false;
      }
      planRevisions := planRevisions + {plans[i]};
    }
    assert plans[..|plans|] == plans;
    return true;
  }

  method UniqueActivities(activities: seq<Activity>) returns (unique: bool)
    ensures unique <==>
      (forall i :: 0 <= i < |activities| ==> activities[i].activityId != "") && NoRepeats(ActivityIds(activities))
  {
    var ids := ActivityIds(activities);
    var activityIds: set<string> := {};
    for i := 0 to |activities|
      invariant forall k :: 0 <= k < i ==> activities[k].activityId != ""
      invariant activityIds == Elements(ids[..i]) && NoRepeats(ids[..i])
    {
      assert ids[..i + 1] == ids[..i] + [ids[i]];
      NoRepeatsAppend(ids[..i], ids[i]);
      if activities[i].activityId == "" || activities[i].activityId in activityIds {
        if activities[i].activityId in activityIds {
          RepeatFound(ids, i);
        }
        return false;
      }
      activityIds := activityIds + {activities[i].activityId};
    }
    assert ids[..|activities|] == ids;
    return true;
  }

  /** Inserts one tool group's activities, each new and each naming a tool-like activity. */
  method InsertActivities(p: Projection, ids: seq<string>, seen: set<string>, ghost before: seq<string>)
    returns (accepted: bool, extended: set<string>)
    requires seen == Elements(before) && NoRepeats(before)
    ensures accepted <==> NoRepeats(before + ids) && forall k :: 0 <= k < |ids| ==> ToolLikeFound(p, ids[k])
    ensures accepted ==> extended == Elements(before + ids)
  {
    hide ToolLikeFound;
    extended := seen;
    assert before + ids[..0] == before;
    for i := 0 to |ids|
      invariant forall k :: 0 <= k < i ==> ToolLikeFound(p, ids[k])
      invariant extended == Elements(before + ids[..i]) && NoRepeats(before + ids[..i])
    {
      assert before + ids[..i + 1] == before + ids[..i] + [ids[i]];
      NoRepeatsAppend(before + ids[..i], ids[i]);
      if ids[i] in extended || !ToolLikeFound(p, ids[i]) {
        if NoRepeats(before + ids) {
          assert before + ids == before + ids[..i + 1] + ids[i + 1..];
          NoRepeatsPrefix(before + ids[..i + 1], ids[i + 1..]);
        }
        return false, extended;
      }
      extended := extended + {ids[i]};
    }
    assert ids[..|ids|] == ids;
    return true, extended;
  }

  /** The sets hold what the items name, and these are consistent. */
  ghost predicate Seen(p: Projection, items: seq<Item>, timelineIds: set<string>, messageIds: set<string>,
                       narrativeIds: set<string>, planRefs: set<Plan>, activityIds: set<string>)
  {
    && Consistent(p, items)
    && timelineIds == Elements(TimelineIds(items)) && messageIds == Elements(MessageRefs(items))
    && narrativeIds == Elements(NarrativeRefs(items)) && planRefs == Elements(PlanRefs(items))
    && activityIds == Elements(ActivityRefs(items))
  }

  lemma SeenAll(p: Projection, timelineIds: set<string>, messageIds: set<string>,
                narrativeIds: set<string>, planRefs: set<Plan>, activityIds: set<string>)
    requires Seen(p, p.timeline[..|p.timeline|], timelineIds, messageIds, narrativeIds, planRefs, activityIds)
    ensures Consistent(p, p.timeline)
    ensures messageIds == Elements(MessageRefs(p.timeline)) && narrativeIds == Elements(NarrativeRefs(p.timeline))
    ensures planRefs == Elements(PlanRefs(p.timeline)) && activityIds == Elements(ActivityRefs(p.timeline))
  {
    assert p.timeline[..|p.timeline|] == p.timeline;
  }

  lemma NothingSeenYet(p: Projection)
    ensures Seen(p, [], {}, {}, {}, {}, {})
  {
  }

  lemma SeenStep(p: Projection, items: seq<Item>, item: Item, timelineIds: set<string>, messageIds: set<string>,
                 narrativeIds: set<string>, planRefs: set<Plan>, activityIds: set<string>)
    requires Seen(p, items, timelineIds, messageIds, narrativeIds, planRefs, activityIds)
    ensures Consistent(p, items + [item]) <==>
      && ItemFits(p, item)
      && item.timelineId !in timelineIds
      && (item.MessageItem? ==> item.messageId !in messageIds)
      && (item.NarrativeItem? ==> item.narrativeId !in narrativeIds)
      && (item.PlanItem? ==> Plan(item.planId, item.revision) !in planRefs)
      && (item.ToolGroup? ==> NoRepeats(ActivityRefs(items) + item.activityIds))
    ensures activityIds == Elements(ActivityRefs(items))
    ensures item.ToolGroup? ==> NoRepeats(ActivityRefs(items))
    ensures Consistent(p, items + [item]) ==>
      Seen(p, items + [item], timelineIds + {item.timelineId},
           if item.MessageItem? then messageIds + {item.messageId} else messageIds,
           if item.NarrativeItem? then narrativeIds + {item.narrativeId} else narrativeIds,
           if item.PlanItem? then planRefs + {Plan(item.planId, item.revision)} else planRefs,
           if item.ToolGroup? then Elements(ActivityRefs(items) + item.activityIds) else activityIds)
  {
    OneMoreItem(items, item);
    ConsistentStep(p, items, item);
    InElements(TimelineIds(items), item.timelineId);
    hide ItemFits, Elements, NoRepeats, TimelineIds, MessageRefs, NarrativeRefs, PlanRefs, ActivityRefs;
    match item {
      case MessageItem(_, _, id, _) => InElements(MessageRefs(items), id);
      case NarrativeItem(_, _, _, id, _) => InElements(NarrativeRefs(items), id);
      case PlanItem(_, _, _, id, revision) => InElements(PlanRefs(items), Plan(id, revision));
      case ToolGroup(_, _, _, _) =>
    }
    assert MessageRefs(items) + [] == MessageRefs(items) && NarrativeRefs(items) + [] == NarrativeRefs(items);
    assert PlanRefs(items) + [] == PlanRefs(items) && ActivityRefs(items) + [] == ActivityRefs(items);
  }

  lemma ConsistentDefect(p: Projection, n: nat)
    requires n <= |p.timeline| && !Consistent(p, p.timeline[..n])
    ensures !ListsEverythingOnce(p)
  {
    if Consistent(p, p.timeline) {
      ConsistentPrefix(p, p.timeline, n);
    }
    hide ItemFits;
  }

  predicate GroupFits(p: Projection, requestId: Option<string>, ids: seq<string>) {
    && requestId != Some("")
    && (requestId.None? ==> forall k :: 0 <= k < |ids| ==> AgentFound(p, ids[k]))
    && ids != []
  }

  method Validate(p: Projection) returns (accepted: bool)
    ensures accepted <==> ListsEverythingOnce(p)
  {
    var plansFit := UniquePlans(p.plans);
    var activitiesFit := UniqueActivities(p.activities);
    if !plansFit || !activitiesFit {
      return false;
    }
    var timelineIds: set<string> := {};
    var messageIds: set<string> := {};
    var narrativeIds: set<string> := {};
    var planRefs: set<Plan> := {};
    var activityIds: set<string> := {};
    NothingSeenYet(p);
    hide Seen, MessageFound, NarrativeFound, GroupFits, ToolLikeFound, Elements, Consistent, ListsEverythingOnce;
    hide TimelineIds, MessageRefs, NarrativeRefs, PlanRefs, ActivityRefs, NoRepeats;
    assert p.timeline[..0] == [];
    for i := 0 to |p.timeline|
      invariant Seen(p, p.timeline[..i], timelineIds, messageIds, narrativeIds, planRefs, activityIds)
    {
      var item := p.timeline[i];
      ghost var items := p.timeline[..i];
      assert p.timeline[..i + 1] == items + [item];
      SeenStep(p, items, item, timelineIds, messageIds, narrativeIds, planRefs, activityIds);
      if item.timelineId == "" || item.sequence == 0 || item.sequence > p.revision {
        ConsistentDefect(p, i + 1);
        return false;
      }
      if item.timelineId in timelineIds {
        ConsistentDefect(p, i + 1);
        return false;
      }
      timelineIds := timelineIds + {item.timelineId};
      var fits: bool;
      match item {
        case MessageItem(_, _, messageId, _) =>
          fits := messageId !in messageIds && MessageFound(p, item);
          messageIds := messageIds + {messageId};
        case NarrativeItem(_, _, requestId, narrativeId, stream) =>
          fits := requestId != "" && stream != "" && narrativeId !in narrativeIds && NarrativeFound(p, item);
          narrativeIds := narrativeIds + {narrativeId};
        case PlanItem(_, _, requestId, planId, revision) =>
          fits := requestId != "" && Plan(planId, revision) !in planRefs && Plan(planId, revision) in p.plans;
          planRefs := planRefs + {Plan(planId, revision)};
        case ToolGroup(_, _, requestId, ids) =>
          fits := GroupFits(p, requestId, ids);
          if fits {
            fits, activityIds := InsertActivities(p, ids, activityIds, ActivityRefs(items));
          }
      }
      if !fits {
        ConsistentDefect(p, i + 1);
        return false;
      }
    }
    SeenAll(p, timelineIds, messageIds, narrativeIds, planRefs, activityIds);
    CountsOfSets(p);
    CountsDecide(p);
    accepted := && |messageIds| == |MessageIds(p.messages)| && |narrativeIds| == |p.narratives|
                && |planRefs| == |p.plans| && |activityIds| == |ToolLikeIds(p.activities)|;
    AcceptedMeans(p);
  }

  lemma InElements<T(!new)>(s: seq<T>, x: T)
    ensures x in Elements(s) <==> x in s
    ensures Elements(s + [x]) == Elements(s) + {x}
  {
  }

  lemma CountsOfSets(p: Projection)
    requires Consistent(p, p.timeline)
    ensures |Elements(MessageRefs(p.timeline))| == |MessageRefs(p.timeline)|
    ensures |Elements(NarrativeRefs(p.timeline))| == |NarrativeRefs(p.timeline)|
    ensures |Elements(PlanRefs(p.timeline))| == |PlanRefs(p.timeline)|
    ensures |Elements(ActivityRefs(p.timeline))| == |ActivityRefs(p.timeline)|
    ensures |NarrativeIds(p.narratives)| == |p.narratives|
  {
    hide ItemFits, MessageRefs, NarrativeRefs, PlanRefs, ActivityRefs, Elements, NoRepeats;
    ElementsCount(MessageRefs(p.timeline));
    ElementsCount(NarrativeRefs(p.timeline));
    ElementsCount(PlanRefs(p.timeline));
    ElementsCount(ActivityRefs(p.timeline));
  }

  lemma AcceptedMeans(p: Projection)
    requires Consistent(p, p.timeline)
    requires NoRepeats(p.plans) && NoRepeats(ActivityIds(p.activities))
    requires forall i :: 0 <= i < |p.activities| ==> p.activities[i].activityId != ""
    ensures ListsEverythingOnce(p) <==>
      && ListsEachOnce(MessageRefs(p.timeline), MessageIds(p.messages))
      && ListsEachOnce(NarrativeRefs(p.timeline), NarrativeIds(p.narratives))
      && ListsEachOnce(PlanRefs(p.timeline), p.plans)
      && ListsEachOnce(ActivityRefs(p.timeline), ToolLikeIds(p.activities))
  {
  }
}
