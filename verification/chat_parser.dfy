/** The export parser of src/utils/ChatParser.js, from the decoded JSON
    value on: a ChatGPT `conversations.json` is an array of conversations,
    each with a `mapping` from node ids to nodes; every node whose message
    has non-blank text becomes one flat `Message`. */
module ChatParser {
  import opened Wrappers
  import opened Seqs
  import opened Text
  import opened Json
  import opened Messages
  import opened StableSort

  /** The message `parseConversations` throws for a top level that is not
      an array: the inner error's text behind the outer prefix. */
  const FormatError: string := "Failed to parse conversations: Invalid format: Expected an array of conversations"
  const UntitledConversation: string := "Untitled Conversation"
  const UnknownRole: string := "unknown"
  const GeneratedIdPrefix: string := "conv_"

  /** `typeof part === 'string' && part.trim().length > 0`. */
  predicate IsTextPart(part: Json) {
    part.JStr? && !AllSpace(part.s)
  }

  /** The strings of the non-blank string parts, in order. */
  function PartTexts(items: seq<Json>): (ts: seq<string>)
    ensures |ts| <= |items|
    ensures forall k :: 0 <= k < |ts| ==> !AllSpace(ts[k])
    ensures ts == [] <==> forall i :: 0 <= i < |items| ==> !IsTextPart(items[i])
  {
    if items == [] then []
    else (if IsTextPart(items[0]) then [items[0].s] else []) + PartTexts(items[1..])
  }

  /** `extractTextFromParts(parts)`. */
  function ExtractTextFromParts(parts: Json): (text: string)
    ensures text != [] ==> !IsSpace(text[0]) && !IsSpace(text[|text| - 1])
  {
    match parts
    case JArr(items) => Trim(Join(PartTexts(items), " "))
    case _ => ""
  }

  /** The text is empty exactly when `parts` is not an array or holds no
      non-blank string. */
  lemma ExtractTextEmpty(parts: Json)
    ensures ExtractTextFromParts(parts) == "" <==>
      !parts.JArr? || forall i :: 0 <= i < |parts.items| ==> !IsTextPart(parts.items[i])
  {
    if parts.JArr? {
      var ts := PartTexts(parts.items);
      if ts != [] {
        JoinKeepsNonSpace(ts, " ", 0);
      }
    }
  }

  /** Joining with a blank separator loses no non-blank character. */
  lemma {:induction false} NonSpaceOfJoin(ps: seq<string>, sep: string)
    requires AllSpace(sep)
    ensures NonSpace(Join(ps, sep)) == NonSpace(Flatten(ps))
  {
    if |ps| == 1 {
      assert ps[1..] == [];
      assert Flatten(ps) == ps[0] + [];
      assert ps[0] + [] == ps[0];
    } else if |ps| > 1 {
      var rest := Join(ps[1..], sep);
      NonSpaceOfJoin(ps[1..], sep);
      assert Join(ps, sep) == ps[0] + (sep + rest);
      NonSpaceAppend(ps[0], sep + rest);
      NonSpaceAppend(sep, rest);
      NonSpaceOfAllSpace(sep);
      NonSpaceAppend(ps[0], Flatten(ps[1..]));
    }
  }

  /** The extracted text holds exactly the non-blank characters of the kept
      parts, in order: only whitespace is added or dropped. */
  lemma ExtractTextKeepsCharacters(items: seq<Json>)
    ensures NonSpace(ExtractTextFromParts(JArr(items))) == NonSpace(Flatten(PartTexts(items)))
  {
    NonSpaceOfJoin(PartTexts(items), " ");
  }

  /** A join starts with its first part and ends with its last part. */
  lemma {:induction false} JoinEnds(ps: seq<string>, sep: string)
    requires |ps| >= 1 && forall k :: 0 <= k < |ps| ==> ps[k] != []
    ensures var j := Join(ps, sep);
      |j| >= 1 && j[0] == ps[0][0] && j[|j| - 1] == ps[|ps| - 1][|ps[|ps| - 1]| - 1]
  {
    if |ps| > 1 {
      var rest := Join(ps[1..], sep);
      JoinEnds(ps[1..], sep);
      assert Join(ps, sep) == ps[0] + (sep + rest);
    }
  }

  /** Parts that are all non-blank strings without surrounding whitespace
      come out joined by single spaces, untouched by the final trim. */
  lemma ExtractTextOfCleanParts(items: seq<Json>)
    requires |items| >= 1
    requires forall i :: 0 <= i < |items| ==>
      items[i].JStr? && items[i].s != [] && !IsSpace(items[i].s[0]) && !IsSpace(items[i].s[|items[i].s| - 1])
    ensures ExtractTextFromParts(JArr(items)) == Join(Strings(items), " ")
  {
    var ps := Strings(items);
    assert PartTexts(items) == ps by {
      CleanPartsKept(items);
    }
    assert Trim(Join(ps, " ")) == Join(ps, " ") by {
      CleanPartsKept(items);
      CleanJoinTrimmed(ps);
    }
    assert ExtractTextFromParts(JArr(items)) == Trim(Join(PartTexts(items), " "));
  }

  /** Trimming a join of words without surrounding whitespace changes
      nothing. */
  lemma CleanJoinTrimmed(ps: seq<string>)
    requires |ps| >= 1
    requires forall i :: 0 <= i < |ps| ==> ps[i] != [] && !IsSpace(ps[i][0]) && !IsSpace(ps[i][|ps[i]| - 1])
    ensures Trim(Join(ps, " ")) == Join(ps, " ")
  {
    var j := Join(ps, " ");
    JoinEnds(ps, " ");
    TrimFixedPoint(j);
  }

  /** The strings of string values. */
  function Strings(items: seq<Json>): (ss: seq<string>)
    requires forall i :: 0 <= i < |items| ==> items[i].JStr?
    ensures |ss| == |items| && forall i :: 0 <= i < |items| ==> ss[i] == items[i].s
  {
    seq(|items|, i requires 0 <= i < |items| => items[i].s)
  }

  lemma {:induction false} CleanPartsKept(items: seq<Json>)
    requires forall i :: 0 <= i < |items| ==>
      items[i].JStr? && items[i].s != [] && !IsSpace(items[i].s[0]) && !IsSpace(items[i].s[|items[i].s| - 1])
    ensures PartTexts(items) == Strings(items)
    ensures forall i :: 0 <= i < |items| ==> Strings(items)[i] == items[i].s
  {
    if items != [] {
      assert !AllSpace(items[0].s) by {
        assert !IsSpace(items[0].s[0]);
      }
      CleanPartsKept(items[1..]);
    }
  }

  /** What the parser knows of the enclosing conversation. */
  datatype ConversationInfo = ConversationInfo(id: string, title: string, createTime: Option<int>, updateTime: Option<int>)

  /** `parts.length === 0`: true for an empty array and for an object whose
      `length` property is 0; `undefined === 0` is false for every other
      value. */
  predicate LengthIsZero(v: Json) {
    match v
    case JArr(items) => |items| == 0
    case JStr(s) => |s| == 0
    case JObj(fields) => Lookup(fields, "length") == Some(JNum(0))
    case _ => false
  }

  /** `node.children || []`. */
  function ChildrenOr(v: Option<Json>): Json {
    if Present(v) then v.value else JArr([])
  }

  /** The content `parts` of a node's message. */
  function PartsOf(node: Json): Option<Json> {
    Get(Get(Get(Some(node), "message"), "content"), "parts")
  }

  /** The extracted text of a node's message parts. */
  function NodeText(node: Json): string {
    match PartsOf(node)
    case Some(parts) => ExtractTextFromParts(parts)
    case None => ""
  }

  /** The early returns of the loop body: no node or no message, no content
      or no parts or no parts at all, or blank text. */
  predicate Skipped(node: Json) {
    var message := Get(Some(node), "message");
    var content := Get(message, "content");
    var parts := Get(content, "parts");
    || !Truthy(node) || !Present(message)
    || !Present(content) || !Present(parts) || LengthIsZero(parts.value)
    || NodeText(node) == "" || Trim(NodeText(node)) == ""
  }

  /** The record built for a node that is not skipped. */
  function BuildMessage(nodeId: string, node: Json, conv: ConversationInfo): Message {
    var message := Get(Some(node), "message");
    var metadata := Get(message, "metadata");
    Message(
      StringOr(Get(message, "id"), nodeId),
      NodeText(node),
      StringOr(Get(Get(message, "author"), "role"), UnknownRole),
      match OptNumber(Get(message, "create_time"))
      case Some(t) => Some(t)
      case None => conv.createTime,
      conv.id,
      conv.title,
      nodeId,
      Metadata(
        OptString(Get(metadata, "model_slug")),
        OptString(Get(Get(metadata, "finish_details"), "type")),
        OptString(Get(Some(node), "parent")),
        ChildrenOr(Get(Some(node), "children")),
        conv.createTime,
        conv.updateTime))
  }

  /** One turn of the `Object.keys(mapping).forEach` loop: the message of
      node `nodeId`, or `None` where the loop returns early. */
  function NodeMessage(nodeId: string, node: Json, conv: ConversationInfo): Option<Message> {
    if Skipped(node) then None else Some(BuildMessage(nodeId, node, conv))
  }

  /** The skip rules in closed form: a node yields a message exactly when
      its message's content has a `parts` array holding a non-blank
      string. */
  lemma NodeMessageSkips(nodeId: string, node: Json, conv: ConversationInfo)
    ensures NodeMessage(nodeId, node, conv).Some? <==>
      && PartsOf(node).Some? && PartsOf(node).value.JArr?
      && exists i :: 0 <= i < |PartsOf(node).value.items| && IsTextPart(PartsOf(node).value.items[i])
  {
    var parts := PartsOf(node);
    if parts.Some? {
      var message := Get(Some(node), "message");
      var content := Get(message, "content");
      assert node.JObj? && message.Some? && message.value.JObj? && content.Some? && content.value.JObj?;
      assert NodeText(node) == ExtractTextFromParts(parts.value);
      ExtractTextEmpty(parts.value);
      if parts.value.JArr? && NodeText(node) != "" {
        assert parts.value.items != [];
        assert !IsSpace(NodeText(node)[0]);
      }
    }
  }

  /** A kept node's message carries the extracted text, which is not blank,
      the node id and the conversation's id and title; a missing id falls
      back to the node id, a missing role to "unknown" and a missing
      timestamp to the conversation's creation time. */
  lemma NodeMessageFields(nodeId: string, node: Json, conv: ConversationInfo)
    requires NodeMessage(nodeId, node, conv).Some?
    ensures var m := NodeMessage(nodeId, node, conv).value;
      var message := Get(Some(node), "message");
      && m.text == NodeText(node)
      && !AllSpace(m.text)
      && m.nodeId == nodeId && m.conversationId == conv.id && m.conversationTitle == conv.title
      && m.role != ""
      && (Get(message, "id") == None ==> m.id == nodeId)
      && (Get(Get(message, "author"), "role") == None ==> m.role == UnknownRole)
      && (Get(message, "create_time") == None ==> m.timestamp == conv.createTime)
  {
  }

  /** The present results of `f` over `xs`, in order. */
  function Kept<A, B>(xs: seq<A>, f: A -> Option<B>): (ys: seq<B>)
    ensures |ys| <= |xs|
  {
    if xs == [] then []
    else
      (match f(xs[0])
       case Some(y) => [y]
       case None => []) + Kept(xs[1..], f)
  }

  lemma {:induction false} KeptMembers<A, B>(xs: seq<A>, f: A -> Option<B>, y: B)
    ensures y in Kept(xs, f) <==> exists j :: 0 <= j < |xs| && f(xs[j]) == Some(y)
  {
    if xs != [] {
      KeptMembers(xs[1..], f, y);
      if j :| 1 <= j < |xs| && f(xs[j]) == Some(y) {
        assert xs[1..][j - 1] == xs[j];
      }
      if y in Kept(xs[1..], f) {
        var j :| 0 <= j < |xs[1..]| && f(xs[1..][j]) == Some(y);
        assert xs[j + 1] == xs[1..][j];
      }
    }
  }

  /** The messages of the mapping entries, in key order. */
  function Collect(entries: seq<(string, Json)>, conv: ConversationInfo): (ms: seq<Message>)
    ensures |ms| <= |entries|
  {
    Kept(entries, (e: (string, Json)) => NodeMessage(e.0, e.1, conv))
  }

  /** A message comes out of `Collect` exactly when some entry yields it. */
  lemma CollectMembers(entries: seq<(string, Json)>, conv: ConversationInfo, m: Message)
    ensures m in Collect(entries, conv) <==>
      exists j :: 0 <= j < |entries| && NodeMessage(entries[j].0, entries[j].1, conv) == Some(m)
  {
    KeptMembers(entries, (e: (string, Json)) => NodeMessage(e.0, e.1, conv), m);
  }

  /** `extractMessagesFromMapping(mapping, ...)`: the collected messages,
      stably sorted by `timestamp || 0`. */
  function ExtractMessagesFromMapping(mapping: Json, conv: ConversationInfo): (r: seq<Message>)
    ensures |r| <= |Entries(mapping)|
    ensures Sorted(r, MessageTime)
    ensures multiset(r) == multiset(Collect(Entries(mapping), conv))
  {
    Sort(Collect(Entries(mapping), conv), MessageTime)
  }

  /** The mapping's messages: at most one per key, sorted by time with ties
      in key order, each the message of some node of the mapping and each
      node's message among them, all of the given conversation. */
  lemma MappingMessages(mapping: Json, conv: ConversationInfo)
    ensures var r := ExtractMessagesFromMapping(mapping, conv); var es := Entries(mapping);
      && |r| <= |es|
      && Sorted(r, MessageTime)
      && (forall t :: Select(r, MessageTime, t) == Select(Collect(es, conv), MessageTime, t))
      && (forall m :: m in r <==> exists j :: 0 <= j < |es| && NodeMessage(es[j].0, es[j].1, conv) == Some(m))
      && (forall m :: m in r ==> m.conversationId == conv.id && m.conversationTitle == conv.title && !AllSpace(m.text))
  {
    var es := Entries(mapping);
    var c := Collect(es, conv);
    var r := ExtractMessagesFromMapping(mapping, conv);
    forall m ensures m in r <==> m in c {
      assert m in r <==> m in multiset(r);
    }
    forall m ensures m in r <==> exists j :: 0 <= j < |es| && NodeMessage(es[j].0, es[j].1, conv) == Some(m) {
      CollectMembers(es, conv, m);
    }
    forall m | m in r ensures m.conversationId == conv.id && m.conversationTitle == conv.title && !AllSpace(m.text) {
      var j :| 0 <= j < |es| && NodeMessage(es[j].0, es[j].1, conv) == Some(m);
      NodeMessageFields(es[j].0, es[j].1, conv);
    }
  }

  /** `typeof v === 'object'` for a non-null value. */
  predicate IsObjectLike(v: Json) {
    v.JObj? || v.JArr?
  }

  /** `conversation.id || `conv_${index}``. */
  function ConversationId(conversation: Json, index: nat): string {
    StringOr(Get(Some(conversation), "id"), GeneratedIdPrefix + NatToString(index))
  }

  function InfoOf(conversation: Json, index: nat): ConversationInfo {
    var c := Some(conversation);
    ConversationInfo(
      ConversationId(conversation, index),
      StringOr(Get(c, "title"), UntitledConversation),
      OptNumber(Get(c, "create_time")),
      OptNumber(Get(c, "update_time")))
  }

  /** `conversation.mapping || {}`. */
  function MappingOf(conversation: Json): Json {
    var m := Get(Some(conversation), "mapping");
    if Present(m) then m.value else JObj([])
  }

  /** One turn of `data.forEach`: a falsy or non-object entry is skipped. */
  function ConversationMessages(conversation: Json, index: nat): seq<Message> {
    if !Truthy(conversation) || !IsObjectLike(conversation) then []
    else ExtractMessagesFromMapping(MappingOf(conversation), InfoOf(conversation, index))
  }

  /** The per-entry message lists, in input order. */
  function PerConversation(items: seq<Json>): (mss: seq<seq<Message>>)
    ensures |mss| == |items|
    ensures forall i :: 0 <= i < |items| ==> mss[i] == ConversationMessages(items[i], i)
  {
    seq(|items|, i requires 0 <= i < |items| => ConversationMessages(items[i], i))
  }

  /** `parseConversations` after `JSON.parse`. */
  function ParseConversations(data: Json): (r: Result<seq<Message>, string>)
    ensures r.Err? <==> !data.JArr?
    ensures r.Err? ==> r.error == FormatError
  {
    match data
    case JArr(items) => Ok(Flatten(PerConversation(items)))
    case _ => Err(FormatError)
  }

  /** The parse fails exactly when the top level is not an array, and then
      with the documented message. */
  lemma ParseRejects(data: Json)
    ensures ParseConversations(data).Err? <==> !data.JArr?
    ensures ParseConversations(data).Err? ==> ParseConversations(data).error == FormatError
  {
  }

  /** Every message of an entry belongs to that entry's conversation, and
      only object entries yield messages. */
  lemma ConversationOwnsMessages(conversation: Json, index: nat)
    ensures forall m :: m in ConversationMessages(conversation, index) ==>
      && conversation.JObj?
      && m.conversationId == ConversationId(conversation, index)
      && m.conversationTitle != ""
      && !AllSpace(m.text)
  {
    if Truthy(conversation) && IsObjectLike(conversation) {
      MappingMessages(MappingOf(conversation), InfoOf(conversation, index));
      if conversation.JArr? {
        assert Entries(MappingOf(conversation)) == [];
      }
    }
  }

  /** Flattening then selecting one conversation's messages is selecting in
      every list and flattening. */
  lemma {:induction false} SelectFlatten(mss: seq<seq<Message>>, id: string)
    ensures Select(Flatten(mss), ConversationOf, id) == Flatten(SelectEach(mss, id))
  {
    if mss != [] {
      SelectAppend(mss[0], Flatten(mss[1..]), ConversationOf, id);
      SelectFlatten(mss[1..], id);
      assert SelectEach(mss, id)[1..] == SelectEach(mss[1..], id);
    }
  }

  function SelectEach(mss: seq<seq<Message>>, id: string): (r: seq<seq<Message>>)
    ensures |r| == |mss| && forall i :: 0 <= i < |mss| ==> r[i] == Select(mss[i], ConversationOf, id)
  {
    seq(|mss|, i requires 0 <= i < |mss| => Select(mss[i], ConversationOf, id))
  }

  /** The conversation ids of the object entries are pairwise distinct. */
  predicate DistinctConversationIds(items: seq<Json>) {
    forall i, j :: 0 <= i < j < |items| && items[i].JObj? && items[j].JObj? ==>
      ConversationId(items[i], i) != ConversationId(items[j], j)
  }

  /** When conversation ids are distinct, picking the messages of one
      conversation out of the flat result gives back exactly that
      conversation's sorted messages: the flat list is the per-conversation
      lists concatenated in input order. */
  lemma ParseGroups(items: seq<Json>, k: nat)
    requires k < |items| && items[k].JObj? && DistinctConversationIds(items)
    ensures Select(ParseConversations(JArr(items)).value, ConversationOf, ConversationId(items[k], k))
      == ConversationMessages(items[k], k)
  {
    var mss := PerConversation(items);
    var ids := seq(|items|, i requires 0 <= i < |items| => ConversationId(items[i], i));
    forall i | 0 <= i < |mss|
      ensures forall m: Message :: m in mss[i] ==> m.conversationId == ids[i]
      ensures mss[i] != [] && i != k ==> ids[i] != ids[k]
    {
      ConversationOwnsMessages(items[i], i);
      if mss[i] != [] {
        assert mss[i][0] in mss[i];
      }
    }
    SelectOfFlatten(mss, ids, k);
  }

  /** Lists whose messages each carry the list's own id: selecting one id
      from the concatenation gives back its list, when no other non-empty
      list shares the id. */
  lemma SelectOfFlatten(mss: seq<seq<Message>>, ids: seq<string>, k: nat)
    requires |ids| == |mss| && k < |mss|
    requires forall i :: 0 <= i < |mss| ==> forall m: Message :: m in mss[i] ==> m.conversationId == ids[i]
    requires forall i :: 0 <= i < |mss| && i != k && mss[i] != [] ==> ids[i] != ids[k]
    ensures Select(Flatten(mss), ConversationOf, ids[k]) == mss[k]
  {
    var id := ids[k];
    SelectFlatten(mss, id);
    var sel := SelectEach(mss, id);
    forall i | 0 <= i < |mss| ensures sel[i] == if i == k then mss[k] else [] {
      if i == k {
        SelectAll(mss[i], ConversationOf, id);
      } else {
        if mss[i] != [] {
          forall j | 0 <= j < |mss[i]| ensures mss[i][j].conversationId != id {
            assert mss[i][j] in mss[i];
          }
          SelectAbsent(mss[i], ConversationOf, id);
        }
      }
    }
    FlattenOne(sel, k);
  }

  /** A selection that every element matches keeps everything. */
  lemma {:induction false} SelectAll<T, K>(xs: seq<T>, key: T -> K, k: K)
    requires forall i :: 0 <= i < |xs| ==> key(xs[i]) == k
    ensures Select(xs, key, k) == xs
  {
    if xs != [] {
      var n := |xs| - 1;
      SelectAll(xs[..n], key, k);
      assert xs == xs[..n] + [xs[n]];
    }
  }

  /** Flattening lists of which only the `k`-th can be non-empty. */
  lemma {:induction false} FlattenOne<T>(xss: seq<seq<T>>, k: nat)
    requires k < |xss| && forall i :: 0 <= i < |xss| && i != k ==> xss[i] == []
    ensures Flatten(xss) == xss[k]
  {
    if k == 0 {
      FlattenEmpty(xss[1..]);
    } else {
      FlattenOne(xss[1..], k - 1);
    }
  }

  lemma {:induction false} FlattenEmpty<T>(xss: seq<seq<T>>)
    requires forall i :: 0 <= i < |xss| ==> xss[i] == []
    ensures Flatten(xss) == []
  {
    if xss != [] {
      FlattenEmpty(xss[1..]);
    }
  }

  /** Generated ids `conv_<index>` never collide, so conversations without
      an id of their own always have distinct ids. */
  lemma GeneratedIdsDistinct(i: nat, j: nat)
    requires GeneratedIdPrefix + NatToString(i) == GeneratedIdPrefix + NatToString(j)
    ensures i == j
  {
    var p := |GeneratedIdPrefix|;
    assert NatToString(i) == (GeneratedIdPrefix + NatToString(i))[p..];
    assert NatToString(j) == (GeneratedIdPrefix + NatToString(j))[p..];
    ParsePrinted(i);
    ParsePrinted(j);
  }

  /** An export whose conversations carry no id of their own has distinct
      conversation ids. */
  lemma UnnamedConversationsDistinct(items: seq<Json>)
    requires forall i :: 0 <= i < |items| ==> Get(Some(items[i]), "id") == None
    ensures DistinctConversationIds(items)
  {
    forall i, j | 0 <= i < j < |items| && items[i].JObj? && items[j].JObj?
      ensures ConversationId(items[i], i) != ConversationId(items[j], j)
    {
      if ConversationId(items[i], i) == ConversationId(items[j], j) {
        GeneratedIdsDistinct(i, j);
      }
    }
  }
}
