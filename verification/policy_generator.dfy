/**
 `LLM1PolicyGenerator`: asks the backend for a routing policy (domain, action,
 description) per intent and decodes the reply. Braces are cut out only when the
 trimmed reply opens with a code fence; any other reply is decoded as it stands.
 */
module PolicyGenerator {

  import opened Base
  import opened PyText
  import opened Json
  import opened Models

  /** What the policy prompt is built from. */
  datatype PolicyRequest = PolicyRequest(intentName: string, examples: seq<string>)

  /** `content[content.find("{"):content.rfind("}") + 1]`, with -1 from a failed
      search taking part in the slice as Python lets it. */
  function BraceSlice(content: string): string {
    var start := match IndexOf(content, '{') case Some(i) => i as int case None => -1;
    var end := match LastIndexOf(content, '}') case Some(j) => j + 1 case None => 0;
    PySlice(content, start, end)
  }

  /** With no `}` the slice is empty. */
  lemma BraceSliceWithoutClose(content: string)
    requires '}' !in content
    ensures BraceSlice(content) == []
  {
    assert LastIndexOf(content, '}').None?;
    assert Clamp(0, |content|) == 0;
  }

  /** With a `{` no later than the last `}`, the slice runs from the first `{` through
      the last `}`. */
  lemma BraceSliceSpans(content: string, i: nat, j: nat)
    requires IndexOf(content, '{') == Some(i) && LastIndexOf(content, '}') == Some(j)
    requires i <= j
    ensures BraceSlice(content) == content[i..j + 1]
  {
    assert j < |content|;
  }

  /** Whatever the slice keeps ends in `}`. */
  lemma BraceSliceEndsInBrace(content: string)
    ensures var r := BraceSlice(content); |r| > 0 ==> r[|r| - 1] == '}'
  {
    var start := match IndexOf(content, '{') case Some(i) => i as int case None => -1;
    var r := BraceSlice(content);
    match LastIndexOf(content, '}')
    case None =>
      BraceSliceWithoutClose(content);
    case Some(j) =>
      var lo, hi := Clamp(start, |content|), Clamp(j + 1, |content|);
      assert hi == j + 1;
      assert r == PySlice(content, start, j + 1);
      if lo < hi {
        assert r == content[lo..hi];
        assert r[|r| - 1] == content[j];
      }
  }

  /** The text handed to `json.loads`: cut to braces when the trimmed reply starts with
      ```json or with ```, unchanged otherwise. */
  function PolicyCandidate(content: string): (r: string)
    ensures !StartsWith(content, "```") ==> r == content
    ensures StartsWith(content, "```") ==> r == BraceSlice(content)
  {
    if StartsWith(content, "```json") then
      assert content[..3] == content[..7][..3];
      BraceSlice(content)
    else if StartsWith(content, "```") then BraceSlice(content)
    else content
  }

  /** `generate_policy`: a reply that is missing, or decodes to something that is not a
      policy, raises RuntimeError; a reply that does not decode raises ValueError. */
  function GeneratePolicy(reply: Option<string>, codec: Codec): (r: Result<Policy>)
    ensures reply.None? ==> r == Fail(RuntimeError(NoReply))
    ensures reply.Some? ==>
              var decoded := codec.loads(PolicyCandidate(Strip(reply.value)));
              && (r == Fail(ValueError(JsonDecode)) <==> decoded.None?)
              && (r.Success? <==> decoded.Some? && PolicyOf(decoded.value).Some?)
              && (r.Success? ==> r.value == PolicyOf(decoded.value).value)
    ensures r.Fail? ==> r.error == ValueError(JsonDecode) || r.error.RuntimeError?
  {
    match reply
    case None => Fail(RuntimeError(NoReply))
    case Some(raw) =>
      match codec.loads(PolicyCandidate(Strip(raw)))
      case None => Fail(ValueError(JsonDecode))
      case Some(result) =>
        match PolicyOf(result)
        case None => Fail(RuntimeError(InvalidShape))
        case Some(policy) => Success(policy)
  }

  /** `generate_policies_batch`: one request per intent, built from its name and
      examples; one policy per intent, in order, unless some call raises, in which case
      the first exception escapes. `ask(k, q)` is the backend's reply to the `k`-th
      request `q`. */
  function GeneratePolicies(intents: seq<PolicyRequest>,
                            ask: (nat, PolicyRequest) -> Option<string>, codec: Codec)
    : (r: Result<seq<Policy>>)
    ensures r.Success? <==>
              forall k :: 0 <= k < |intents| ==> GeneratePolicy(ask(k, intents[k]), codec).Success?
    ensures r.Success? ==> |r.value| == |intents|
    ensures r.Success? ==> forall k :: 0 <= k < |intents| ==>
              r.value[k] == GeneratePolicy(ask(k, intents[k]), codec).value
  {
    Batch(intents, (k: nat, q: PolicyRequest) => GeneratePolicy(ask(k, q), codec))
  }

  /** A reply that does not open with a fence goes to the decoder untouched: prose
      around a JSON object is not removed. */
  lemma ProseIsNotCut(pre: string, obj: string)
    requires |pre| > 0 && pre[0] != '`'
    ensures PolicyCandidate(pre + obj) == pre + obj
  {
    var s := pre + obj;
    if |s| >= 3 {
      assert s[..3][0] == pre[0];
    }
  }

  /** A fenced object: the candidate is exactly the object, from its first `{` to its
      last `}`. */
  lemma FencedObject(pre: string, obj: string, post: string)
    requires StartsWith(pre, "```")
    requires '{' !in pre && '}' !in post
    requires |obj| >= 2 && obj[0] == '{' && obj[|obj| - 1] == '}'
    ensures PolicyCandidate(pre + obj + post) == obj
  {
    var s := pre + obj + post;
    assert s[..3] == pre[..3];
    assert s[|pre|] == '{';
    forall k | 0 <= k < |pre|
      ensures s[k] != '{'
    {
      assert s[k] == pre[k];
    }
    assert IndexOf(s, '{') == Some(|pre|);
    var last := |pre| + |obj| - 1;
    assert s[last] == '}';
    assert s[last + 1..] == post;
    assert LastIndexOf(s, '}') == Some(last) by {
      LastIndexOfIs(s, '}', last);
    }
    BraceSliceSpans(s, |pre|, last);
    assert s[|pre|..last + 1] == obj;
  }

  /** A fence with no closing brace leaves nothing to decode. */
  lemma FenceWithoutBrace(content: string)
    requires StartsWith(content, "```") && '}' !in content
    ensures PolicyCandidate(content) == ""
  {
    BraceSliceWithoutClose(content);
  }
}
