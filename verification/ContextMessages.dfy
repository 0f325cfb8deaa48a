/**
 The scoping check over the messages of one provider request: identifiers are unique, and every
 tool result answers a call made in an earlier assistant message. The check keeps two growing sets
 while it walks messages and blocks; it is proved equal to a predicate over positions.
 */
module ContextMessages {
  import opened Distinct

  datatype Role = System | User | Assistant | Tool | UnknownRole

  datatype Kind = Instructions | WorkspaceBindings | SessionControls | JournalMessages | ContextProviders | UnknownKind

  datatype Item = Item(itemId: string, caption: string)

  datatype Block =
    | Text(blockIndex: nat)
    | Reasoning(blockIndex: nat)
    | ToolCall(blockIndex: nat, callId: string, toolName: string)
    | ToolResult(blockIndex: nat, resultForCallId: string)
    | HostedWebSearch(blockIndex: nat, providerCallId: string)

  datatype Message = Message(
    messageIndex: nat,
    contributionId: string,
    contributionKind: Kind,
    caption: string,
    role: Role,
    filesystemReferences: seq<Item>,
    blocks: seq<Block>)

  function ItemIds(items: seq<Item>): seq<string> {
    seq(|items|, i requires 0 <= i < |items| => items[i].itemId)
  }

  ghost predicate ValidItems(items: seq<Item>) {
    && (forall i :: 0 <= i < |items| ==> items[i].itemId != "" && items[i].caption != "")
    && NoRepeats(ItemIds(items))
  }

  method InvalidContextItems(items: seq<Item>) returns (invalid: bool)
    ensures invalid <==> !ValidItems(items)
  {
    var itemIds: set<string> := {};
    for i := 0 to |items|
      invariant forall k :: 0 <= k < i ==> items[k].itemId != "" && items[k].caption != ""
      invariant itemIds == Elements(ItemIds(items)[..i]) && NoRepeats(ItemIds(items)[..i])
    {
      var ids := ItemIds(items);
      assert ids[..i + 1] == ids[..i] + [ids[i]];
      NoRepeatsAppend(ids[..i], ids[i]);
      if items[i].itemId == "" || items[i].caption == "" || items[i].itemId in itemIds {
        if items[i].itemId in itemIds {
          RepeatFound(ids, i);
        }
        return true;
      }
      itemIds := itemIds + {items[i].itemId};
    }
    assert ItemIds(items)[..|items|] == ItemIds(items);
    return false;
  }

  /******* The declarative predicate *******/

  /** What a message shows by itself, apart from its identifiers. */
  ghost predicate HeaderFits(message: Message, position: nat) {
    && message.messageIndex == position
    && message.contributionId != ""
    && !message.contributionKind.UnknownKind?
    && message.caption != ""
    && !message.role.UnknownRole?
    && ValidItems(message.filesystemReferences)
    && (!message.role.User? ==> message.filesystemReferences == [])
  }

  /** A block stands at its index, in a message whose role may hold it, with its names filled in. */
  predicate BlockFits(block: Block, position: nat, role: Role) {
    && block.blockIndex == position
    && match block
       case Text(_) => !role.Tool?
       case Reasoning(_) => role.Assistant?
       case ToolCall(_, callId, toolName) => role.Assistant? && callId != "" && toolName != ""
       case ToolResult(_, callId) => role.Tool? && callId != ""
       case HostedWebSearch(_, callId) => role.Assistant? && callId != ""
  }

  /** Every block fits, and a tool message is exactly one result. */
  ghost predicate ShapeFits(message: Message, position: nat) {
    && HeaderFits(message, position)
    && (forall b :: 0 <= b < |message.blocks| ==> BlockFits(message.blocks[b], b, message.role))
    && (message.role.Tool? ==> |message.blocks| == 1)
  }

  ghost predicate CallsAt(messages: seq<Message>, i: int, b: int, callId: string) {
    && 0 <= i < |messages| && 0 <= b < |messages[i].blocks|
    && messages[i].blocks[b].ToolCall? && messages[i].blocks[b].callId == callId
  }

  ghost predicate AnswersAt(messages: seq<Message>, i: int, b: int, callId: string) {
    && 0 <= i < |messages| && 0 <= b < |messages[i].blocks|
    && messages[i].blocks[b].ToolResult? && messages[i].blocks[b].resultForCallId == callId
  }

  ghost predicate UniqueContributions(messages: seq<Message>) {
    forall i, j :: 0 <= i < j < |messages| ==> messages[i].contributionId != messages[j].contributionId
  }

  ghost predicate UniqueCalls(messages: seq<Message>) {
    forall i, b, j, c, callId ::
      CallsAt(messages, i, b, callId) && CallsAt(messages, j, c, callId) ==> i == j && b == c
  }

  /** Every result answers a call of a strictly earlier message. */
  ghost predicate ResultsAnswerEarlierCalls(messages: seq<Message>) {
    forall i, b, callId :: AnswersAt(messages, i, b, callId) ==>
      exists j, c :: j < i && CallsAt(messages, j, c, callId)
  }

  ghost predicate WellScoped(messages: seq<Message>) {
    && (forall i :: 0 <= i < |messages| ==> ShapeFits(messages[i], i))
    && UniqueContributions(messages)
    && UniqueCalls(messages)
    && ResultsAnswerEarlierCalls(messages)
  }

  /** What each role may hold: text alone, an assistant's output, or a single tool result. */
  ghost predicate HoldsItsBlocks(message: Message) {
    match message.role
    case System => forall b :: b in message.blocks ==> b.Text?
    case User => forall b :: b in message.blocks ==> b.Text?
    case UnknownRole => forall b :: b in message.blocks ==> b.Text?
    case Tool => |message.blocks| == 1 && message.blocks[0].ToolResult? && message.blocks[0].resultForCallId != ""
    case Assistant =>
      forall b :: b in message.blocks ==>
        || b.Text? || b.Reasoning?
        || (b.ToolCall? && b.callId != "" && b.toolName != "") || (b.HostedWebSearch? && b.providerCallId != "")
  }

  /** A message has its shape exactly when its header fits, its blocks are numbered in order, and its role may hold them. */
  lemma ShapeExactly(message: Message, position: nat)
    ensures ShapeFits(message, position) <==>
      && HeaderFits(message, position) && HoldsItsBlocks(message)
      && forall b :: 0 <= b < |message.blocks| ==> message.blocks[b].blockIndex == b
  {
    var blocks := message.blocks;
    hide HeaderFits;
    if message.role.Tool? && |blocks| == 1 {
      assert BlockFits(blocks[0], 0, message.role) <==> blocks[0].blockIndex == 0 && blocks[0].ToolResult? && blocks[0].resultForCallId != "";
    }
    if ShapeFits(message, position) {
      forall b | b in blocks ensures exists i :: 0 <= i < |blocks| && blocks[i] == b && BlockFits(b, i, message.role) {
        var i :| 0 <= i < |blocks| && blocks[i] == b;
        assert BlockFits(blocks[i], i, message.role);
      }
    }
  }

  /** In an accepted request each tool result has exactly one call, in an earlier assistant message. */
  lemma ResultResolvesToOneCall(messages: seq<Message>, i: nat, b: nat, callId: string) returns (j: nat, c: nat)
    requires WellScoped(messages) && AnswersAt(messages, i, b, callId)
    ensures j < i && CallsAt(messages, j, c, callId) && messages[j].role.Assistant?
    ensures forall k, d :: CallsAt(messages, k, d, callId) ==> k == j && d == c
  {
    j, c :| j < i && CallsAt(messages, j, c, callId);
    assert BlockFits(messages[j].blocks[c], c, messages[j].role);
  }

  /******* The walk *******/

  /** The calls seen before block `b` of message `i`. */
  ghost predicate SeenBefore(messages: seq<Message>, i: nat, b: nat, callId: string) {
    exists j, c :: CallsAt(messages, j, c, callId) && (j < i || (j == i && c < b))
  }

  /** No call seen before block `b` of message `i` repeats another one. */
  ghost predicate UniqueBefore(messages: seq<Message>, i: nat, b: nat) {
    forall j, c, k, d, callId ::
      CallsAt(messages, j, c, callId) && CallsAt(messages, k, d, callId) ==>
      (j < i || (j == i && c < b)) && (k < i || (k == i && d < b)) ==>
      j == k && c == d
  }

  ghost predicate AnsweredBefore(messages: seq<Message>, i: nat, b: nat) {
    forall k, d, callId :: AnswersAt(messages, k, d, callId) && (k < i || (k == i && d < b)) ==>
      exists j, c :: j < k && CallsAt(messages, j, c, callId)
  }

  ghost predicate WalkedTo(messages: seq<Message>, i: nat, b: nat, callIds: set<string>) {
    && (forall callId :: callId in callIds <==> SeenBefore(messages, i, b, callId))
    && UniqueBefore(messages, i, b)
    && AnsweredBefore(messages, i, b)
  }

  /** One block further when it fits: a fresh call joins the set, anything else leaves it. */
  lemma NextBlock(messages: seq<Message>, i: nat, b: nat, callIds: set<string>)
    requires i < |messages| && b < |messages[i].blocks| && WalkedTo(messages, i, b, callIds)
    requires BlockFits(messages[i].blocks[b], b, messages[i].role)
    requires forall c :: 0 <= c < b ==> BlockFits(messages[i].blocks[c], c, messages[i].role)
    requires var block := messages[i].blocks[b];
      (block.ToolCall? ==> block.callId !in callIds) && (block.ToolResult? ==> block.resultForCallId in callIds)
    ensures var block := messages[i].blocks[b];
      WalkedTo(messages, i, b + 1, if block.ToolCall? then callIds + {block.callId} else callIds)
  {
    var block := messages[i].blocks[b];
    var next := if block.ToolCall? then callIds + {block.callId} else callIds;
    forall callId ensures callId in next <==> SeenBefore(messages, i, b + 1, callId) {
      if SeenBefore(messages, i, b + 1, callId) {
        var j, c :| CallsAt(messages, j, c, callId) && (j < i || (j == i && c < b + 1));
        if j < i || c < b {
          assert SeenBefore(messages, i, b, callId);
        }
      }
      if callId in callIds {
        var j, c :| CallsAt(messages, j, c, callId) && (j < i || (j == i && c < b));
        assert SeenBefore(messages, i, b + 1, callId);
      }
      if block.ToolCall? && callId == block.callId {
        assert CallsAt(messages, i, b, callId);
      }
    }
  }

  /** A repeated call or an unanswered result met on the walk is a defect of the whole request. */
  lemma DefectFound(messages: seq<Message>, i: nat, b: nat, callIds: set<string>)
    requires i < |messages| && b < |messages[i].blocks| && WalkedTo(messages, i, b, callIds)
    requires var block := messages[i].blocks[b];
      (block.ToolCall? && block.callId in callIds) || (block.ToolResult? && block.resultForCallId !in callIds)
    ensures !UniqueCalls(messages) || !ResultsAnswerEarlierCalls(messages)
  {
    var block := messages[i].blocks[b];
    if block.ToolCall? {
      var j, c :| CallsAt(messages, j, c, block.callId) && (j < i || (j == i && c < b));
      assert CallsAt(messages, i, b, block.callId);
    } else {
      assert AnswersAt(messages, i, b, block.resultForCallId);
      assert forall j, c :: j < i ==> !CallsAt(messages, j, c, block.resultForCallId);
    }
  }

  function ContributionIds(messages: seq<Message>): seq<string> {
    seq(|messages|, i requires 0 <= i < |messages| => messages[i].contributionId)
  }

  lemma ContributionsAreIds(messages: seq<Message>)
    ensures UniqueContributions(messages) <==> NoRepeats(ContributionIds(messages))
  {
    var ids := ContributionIds(messages);
    assert forall i :: 0 <= i < |messages| ==> ids[i] == messages[i].contributionId;
  }

  lemma WalkStarts(messages: seq<Message>)
    ensures WalkedTo(messages, 0, 0, {})
  {
  }

  lemma WalkEnds(messages: seq<Message>, callIds: set<string>)
    requires WalkedTo(messages, |messages|, 0, callIds)
    ensures UniqueCalls(messages) && ResultsAnswerEarlierCalls(messages)
  {
  }

  /** Scans one message's blocks, continuing the walk; stops at the first block that does not fit. */
  method InvalidBlocks(messages: seq<Message>, i: nat, callIds: set<string>) returns (invalid: bool, extended: set<string>)
    requires i < |messages| && WalkedTo(messages, i, 0, callIds)
    ensures invalid ==> !WellScoped(messages)
    ensures !invalid ==> WalkedTo(messages, i + 1, 0, extended)
    ensures !invalid ==> forall b :: 0 <= b < |messages[i].blocks| ==> BlockFits(messages[i].blocks[b], b, messages[i].role)
    ensures !invalid && messages[i].role.Tool? ==> |messages[i].blocks| == 1
  {
    var message := messages[i];
    extended := callIds;
    var resultCount := 0;
    hide WalkedTo, BlockFits, UniqueContributions, UniqueCalls, ResultsAnswerEarlierCalls, HeaderFits;
    for b := 0 to |message.blocks|
      invariant WalkedTo(messages, i, b, extended)
      invariant forall c :: 0 <= c < b ==> BlockFits(message.blocks[c], c, message.role)
      invariant resultCount <= b
      invariant message.role.Tool? ==> resultCount == b
    {
      var block := message.blocks[b];
      if block.ToolResult? {
        resultCount := resultCount + 1;
      }
      if !BlockFits(block, b, message.role) {
        assert !ShapeFits(message, i);
        return true, extended;
      }
      if (block.ToolCall? && block.callId in extended) || (block.ToolResult? && block.resultForCallId !in extended) {
        DefectFound(messages, i, b, extended);
        return true, extended;
      }
      NextBlock(messages, i, b, extended);
      if block.ToolCall? {
        extended := extended + {block.callId};
      }
    }
    if message.role.Tool? && (|message.blocks| != 1 || resultCount != 1) {
      assert !ShapeFits(message, i);
      return true, extended;
    }
    return false, extended;
  }

  method InvalidContextMessages(messages: seq<Message>) returns (invalid: bool)
    ensures invalid <==> !WellScoped(messages)
  {
    var contributionIds: set<string> := {};
    var callIds: set<string> := {};
    WalkStarts(messages);
    ContributionsAreIds(messages);
    ghost var ids := ContributionIds(messages);
    hide WalkedTo, BlockFits, UniqueContributions, UniqueCalls, ResultsAnswerEarlierCalls, ValidItems;
    for i := 0 to |messages|
      invariant forall k :: 0 <= k < i ==> ShapeFits(messages[k], k)
      invariant contributionIds == Elements(ids[..i]) && NoRepeats(ids[..i])
      invariant WalkedTo(messages, i, 0, callIds)
    {
      var message := messages[i];
      assert ids[..i + 1] == ids[..i] + [message.contributionId];
      NoRepeatsAppend(ids[..i], message.contributionId);
      var badReferences := InvalidContextItems(message.filesystemReferences);
      if message.messageIndex != i || message.contributionId == "" || message.contributionKind.UnknownKind?
        || message.caption == "" || message.role.UnknownRole? || badReferences
        || (!message.role.User? && message.filesystemReferences != [])
      {
        assert !ShapeFits(message, i);
        return true;
      }
      if message.contributionId in contributionIds {
        RepeatFound(ids, i);
        return true;
      }
      contributionIds := contributionIds + {message.contributionId};
      var badBlocks, extended := InvalidBlocks(messages, i, callIds);
      if badBlocks {
        return true;
      }
      callIds := extended;
    }
    assert ids[..|messages|] == ids;
    WalkEnds(messages, callIds);
    return false;
  }
}
