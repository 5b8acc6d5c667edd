/**
 The records of the pipeline (the pydantic models of the source) and the pydantic constructions that
 turn decoded JSON into them.
 */
module Models {

  import opened Base
  import opened Json

  /** One utterance; the code never restricts `role` to user/assistant. */
  datatype Turn = Turn(role: string, content: string)

  datatype Conversation = Conversation(
    turns: seq<Turn>, domain: string, action: string, description: string)

  datatype Policy = Policy(domain: string, action: string, description: string)

  datatype Intent = Intent(domain: string, action: string, intentName: string, examples: seq<string>)

  datatype AlignmentScore = AlignmentScore(score: real, reasoning: string, isAligned: bool)

  datatype AugmentedConversation = AugmentedConversation(
    conversation: Conversation, augmentationType: string, labelScore: real)

  /** One line of the output dataset: the turns flattened to (role, content) pairs. */
  datatype Record = Record(
    conversation: seq<(string, string)>, domain: string, action: string,
    description: string, labelScore: real, augmentationType: string)

  /** `ConversationTurn(**turn)`: an object with string `role` and `content`. */
  function TurnOf(j: Json): (r: Option<Turn>)
    ensures r.Some? <==> StrField(j, "role").Some? && StrField(j, "content").Some?
    ensures r.Some? ==> r.value.role == j.fields["role"].s && r.value.content == j.fields["content"].s
  {
    match (StrField(j, "role"), StrField(j, "content"))
    case (Some(role), Some(content)) => Some(Turn(role, content))
    case _ => None
  }

  /** Converts every element of an array, failing if any element fails. */
  function TurnsOfItems(items: seq<Json>): (r: Option<seq<Turn>>)
    ensures r.Some? <==> forall i :: 0 <= i < |items| ==> TurnOf(items[i]).Some?
    ensures r.Some? ==> |r.value| == |items|
    ensures r.Some? ==> forall i :: 0 <= i < |items| ==> r.value[i] == TurnOf(items[i]).value
  {
    if |items| == 0 then Some([])
    else match (TurnOf(items[0]), TurnsOfItems(items[1..]))
      case (Some(t), Some(ts)) => Some([t] + ts)
      case (None, _) => None
      case (_, None) => None
  }

  /** `[ConversationTurn(**turn) for turn in data]`. Iterating an object yields its keys
      and iterating a string its characters, which fail as turns: so a non-empty object
      or string fails, while an empty one gives no turns. Other scalars are not
      iterable. */
  function TurnsOf(j: Json): (r: Option<seq<Turn>>)
    ensures j.JArr? ==> r == TurnsOfItems(j.items)
    ensures j.JObj? ==> (r.Some? <==> |j.fields| == 0)
    ensures j.JStr? ==> (r.Some? <==> |j.s| == 0)
    ensures j.JNull? || j.JBool? || j.JNum? ==> r.None?
    ensures r.Some? && !j.JArr? ==> r.value == []
  {
    match j
    case JArr(items) => TurnsOfItems(items)
    case JObj(fields) => if |fields| == 0 then Some([]) else None
    case JStr(s) => if |s| == 0 then Some([]) else None
    case _ => None
  }

  /** `Policy(**result)`: an object with string `domain`, `action` and `description`. */
  function PolicyOf(j: Json): (r: Option<Policy>)
    ensures r.Some? <==> StrField(j, "domain").Some? && StrField(j, "action").Some?
                         && StrField(j, "description").Some?
    ensures r.Some? ==> r.value == Policy(j.fields["domain"].s, j.fields["action"].s,
                                          j.fields["description"].s)
  {
    match (StrField(j, "domain"), StrField(j, "action"), StrField(j, "description"))
    case (Some(d), Some(a), Some(desc)) => Some(Policy(d, a, desc))
    case _ => None
  }

  /** A turn as the JSON object a reply holds, next to any further keys. */
  function TurnJson(t: Turn, extra: map<string, Json>): Json {
    JObj(extra["role" := JStr(t.role)]["content" := JStr(t.content)])
  }

  /** A turn object reads back as its turn, whatever other keys it carries: pydantic
      ignores extra fields. */
  lemma TurnRoundTrip(t: Turn, extra: map<string, Json>)
    ensures TurnOf(TurnJson(t, extra)) == Some(t)
  {
    var f := extra["role" := JStr(t.role)]["content" := JStr(t.content)];
    assert "role" in f && f["role"] == JStr(t.role);
    assert "content" in f && f["content"] == JStr(t.content);
  }

  /** The turns as an array of turn objects. */
  function TurnsJson(ts: seq<Turn>, extra: map<string, Json>): (items: seq<Json>)
    ensures |items| == |ts|
    ensures forall k :: 0 <= k < |ts| ==> items[k] == TurnJson(ts[k], extra)
  {
    seq(|ts|, k requires 0 <= k < |ts| => TurnJson(ts[k], extra))
  }

  /** An array of turn objects reads back as the turns, in order. */
  lemma TurnsRoundTrip(ts: seq<Turn>, extra: map<string, Json>)
    ensures TurnsOf(JArr(TurnsJson(ts, extra))) == Some(ts)
  {
    var items := TurnsJson(ts, extra);
    forall k | 0 <= k < |ts|
      ensures TurnOf(items[k]) == Some(ts[k])
    {
      TurnRoundTrip(ts[k], extra);
    }
    var r := TurnsOfItems(items);
    assert r.Some? && |r.value| == |ts|;
    assert forall k :: 0 <= k < |ts| ==> r.value[k] == ts[k];
    assert r.value == ts;
    assert TurnsOf(JArr(items)) == r;
  }

  /** A policy as the JSON object a reply holds, next to any further keys. */
  function PolicyJson(p: Policy, extra: map<string, Json>): Json {
    JObj(extra["domain" := JStr(p.domain)]["action" := JStr(p.action)]
              ["description" := JStr(p.description)])
  }

  /** A policy object reads back as its policy, whatever other keys it carries. */
  lemma PolicyRoundTrip(p: Policy, extra: map<string, Json>)
    ensures PolicyOf(PolicyJson(p, extra)) == Some(p)
  {
    var f := extra["domain" := JStr(p.domain)]["action" := JStr(p.action)]
                  ["description" := JStr(p.description)];
    assert "domain" in f && f["domain"] == JStr(p.domain);
    assert "action" in f && f["action"] == JStr(p.action);
    assert "description" in f && f["description"] == JStr(p.description);
  }
}
