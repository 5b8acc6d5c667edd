/**
 `LLM2ConversationSynthesizer`: asks the backend for a conversation that follows a policy
 and decodes the turn array in its reply. The candidate runs from the first `[` to the
 last `]`; if that does not decode, a run of lines starting at the first line that opens
 with `[` is tried instead. The conversation is filed under the policy's domain, action
 and description.
 */
module ConversationSynthesizer {

  import opened Base
  import opened PyText
  import opened Json
  import opened Models

  /** What the conversation prompt is built from. */
  datatype SynthRequest = SynthRequest(
    description: string, domain: string, action: string, numTurns: int)

  /** `random.randint(min_turns, max_turns)` from a draw; an empty range raises
      ValueError before any request is made. */
  function TurnCount(minTurns: int, maxTurns: int, draw: nat): (r: Result<int>)
    ensures r.Success? <==> minTurns <= maxTurns
    ensures r.Success? ==> minTurns <= r.value <= maxTurns
    ensures r.Fail? ==> r.error == ValueError(EmptyTurnRange)
  {
    if minTurns <= maxTurns then Success(minTurns + draw % (maxTurns - minTurns + 1))
    else Fail(ValueError(EmptyTurnRange))
  }

  // ---------------------------------------------------------------------------
  // The candidate array
  // ---------------------------------------------------------------------------

  /** `content[content.find("["):content.rfind("]") + 1]`, or `None` when either
      bracket is missing ("No JSON array found in LLM response"). */
  function ArrayCandidate(content: string): (r: Option<string>)
    ensures r.None? <==> '[' !in content || ']' !in content
    ensures r.Some? && IndexOf(content, '[').value <= LastIndexOf(content, ']').value ==>
              r.value == content[IndexOf(content, '[').value..LastIndexOf(content, ']').value + 1]
    ensures r.Some? && IndexOf(content, '[').value > LastIndexOf(content, ']').value ==>
              r.value == []
  {
    match (IndexOf(content, '['), LastIndexOf(content, ']'))
    case (Some(start), Some(last)) => Some(PySlice(content, start, last + 1))
    case _ => None
  }

  /** An array wrapped in prose with no brackets of its own is cut out exactly. */
  lemma WrappedArray(pre: string, arr: string, post: string)
    requires '[' !in pre && ']' !in post
    requires |arr| >= 2 && arr[0] == '[' && arr[|arr| - 1] == ']'
    ensures ArrayCandidate(pre + arr + post) == Some(arr)
  {
    var s := pre + arr + post;
    forall k | 0 <= k < |pre|
      ensures s[k] != '['
    {
      assert s[k] == pre[k];
    }
    assert s[|pre|] == '[';
    assert IndexOf(s, '[') == Some(|pre|);
    var last := |pre| + |arr| - 1;
    assert s[last] == ']' && s[last + 1..] == post;
    LastIndexOfIs(s, ']', last);
    assert s[|pre|..last + 1] == arr;
  }

  // ---------------------------------------------------------------------------
  // The line fallback
  // ---------------------------------------------------------------------------

  /** How the fallback loop reads a line: it opens a run (`line.strip()` starts with
      `[`), it would close one (it ends with `]` instead), or neither. */
  datatype LineKind = Opening | Closing | Plain

  function KindOf(line: string): (r: LineKind)
    ensures r == Opening <==> StartsWith(Strip(line), "[")
    ensures r == Closing <==> !StartsWith(Strip(line), "[") && EndsWith(Strip(line), "]")
  {
    var t := Strip(line);
    if StartsWith(t, "[") then Opening else if EndsWith(t, "]") then Closing else Plain
  }

  /** A line together with how the loop reads it. */
  type Line = (string, LineKind)

  function Classify(lines: seq<string>): (r: seq<Line>)
    ensures |r| == |lines|
    ensures forall k :: 0 <= k < |r| ==> r[k] == (lines[k], KindOf(lines[k]))
  {
    seq(|lines|, k requires 0 <= k < |lines| => (lines[k], KindOf(lines[k])))
  }

  function Texts(ls: seq<Line>): (r: seq<string>)
    ensures |r| == |ls|
    ensures forall k :: 0 <= k < |r| ==> r[k] == ls[k].0
  {
    seq(|ls|, k requires 0 <= k < |ls| => ls[k].0)
  }

  predicate Opens(l: Line) {
    l.1 == Opening
  }

  predicate Closes(l: Line) {
    l.1 == Closing
  }

  /** The loop over the lines: a line that opens starts (or continues) the run; once in
      the run every line is kept, and the first closing line is the last one kept. */
  function RunLines(ls: seq<Line>, inRun: bool): (r: seq<Line>)
    ensures inRun ==> IsRunOf(ls, r)
    decreases |ls|
  {
    if |ls| == 0 then []
    else if Opens(ls[0]) then
      var rest := RunLines(ls[1..], true);
      RunStep(ls, rest);
      [ls[0]] + rest
    else if inRun then
      if Closes(ls[0]) then [ls[0]]
      else
        var rest := RunLines(ls[1..], true);
        RunStep(ls, rest);
        [ls[0]] + rest
    else RunLines(ls[1..], false)
  }

  /** `r` is the lines up to and including the first closing one, or all of them. */
  predicate IsRunOf(ls: seq<Line>, r: seq<Line>) {
    && |r| <= |ls| && ls[..|r|] == r
    && (forall k :: 0 <= k < |r| - 1 ==> !Closes(ls[k]))
    && (|r| < |ls| ==> |r| > 0 && Closes(ls[|r| - 1]))
  }

  lemma RunStep(ls: seq<Line>, rest: seq<Line>)
    requires |ls| > 0 && !Closes(ls[0])
    requires IsRunOf(ls[1..], rest)
    ensures IsRunOf(ls, [ls[0]] + rest)
  {
    var r := [ls[0]] + rest;
    assert ls[..|r|] == [ls[0]] + ls[1..][..|rest|];
    forall k | 0 <= k < |r| - 1
      ensures !Closes(ls[k])
    {
      if k > 0 {
        assert ls[k] == ls[1..][k - 1];
      }
    }
    if |r| < |ls| {
      assert |rest| < |ls[1..]|;
      assert |rest| > 0;
      assert ls[|r| - 1] == ls[1..][|rest| - 1];
    }
  }

  /** The first line that opens a run, if any. */
  function FirstOpening(ls: seq<Line>): (r: Option<nat>)
    ensures r.None? <==> forall k :: 0 <= k < |ls| ==> !Opens(ls[k])
    ensures r.Some? ==> (r.value < |ls| && Opens(ls[r.value])
                         && forall k :: 0 <= k < r.value ==> !Opens(ls[k]))
  {
    if |ls| == 0 then None
    else if Opens(ls[0]) then Some(0)
    else
      var rest := ls[1..];
      assert forall k :: 1 <= k < |ls| ==> ls[k] == rest[k - 1];
      match FirstOpening(rest)
      case None => None
      case Some(i) => Some(i + 1)
  }

  /** `r` sits in `ls` at `i`, is not empty, has no closing line before its last, and
      ends on a closing line unless it reaches the end. */
  predicate RunAt(ls: seq<Line>, i: nat, r: seq<Line>) {
    && |r| >= 1 && i + |r| <= |ls| && ls[i..i + |r|] == r
    && (forall k :: i < k < i + |r| - 1 ==> !Closes(ls[k]))
    && (i + |r| < |ls| ==> |r| >= 2 && Closes(ls[i + |r| - 1]))
  }

  /** Starting on an opening line, the run begins right there. */
  lemma OpeningRun(ls: seq<Line>)
    requires |ls| > 0 && Opens(ls[0])
    ensures RunAt(ls, 0, RunLines(ls, false))
  {
    var rest := RunLines(ls[1..], true);
    var r := [ls[0]] + rest;
    assert RunLines(ls, false) == r;
    RunStep(ls, rest);
    assert ls[0..|r|] == ls[..|r|];
  }

  /** Skipping a line that does not open shifts the run by one. */
  lemma SkippedRun(ls: seq<Line>, i: nat)
    requires |ls| > 0 && RunAt(ls[1..], i, RunLines(ls[1..], false))
    ensures RunAt(ls, i + 1, RunLines(ls[1..], false))
  {
    var sub := ls[1..];
    var r := RunLines(sub, false);
    DropSlice(ls, i, i + |r|);
    forall k | i + 1 < k < i + 1 + |r| - 1
      ensures !Closes(ls[k])
    {
      assert ls[k] == sub[k - 1];
    }
    if i + 1 + |r| < |ls| {
      assert ls[i + 1 + |r| - 1] == sub[i + |r| - 1];
    }
  }

  lemma DropSlice<T>(s: seq<T>, i: nat, j: nat)
    requires 0 < |s| && i <= j <= |s| - 1
    ensures s[1..][i..j] == s[i + 1..j + 1]
  {
  }

  /** Outside the run the fallback is empty when no line opens; otherwise it is a run
      of consecutive lines that starts at the first opening line and stops after the
      first later closing line, or at the end. */
  lemma {:induction false} FallbackRun(ls: seq<Line>)
    ensures FirstOpening(ls).None? ==> RunLines(ls, false) == []
    ensures FirstOpening(ls).Some? ==> RunAt(ls, FirstOpening(ls).value, RunLines(ls, false))
    decreases |ls|
  {
    if |ls| > 0 {
      if Opens(ls[0]) {
        OpeningRun(ls);
      } else {
        FallbackRun(ls[1..]);
        if FirstOpening(ls[1..]).Some? {
          SkippedRun(ls, FirstOpening(ls[1..]).value);
        }
      }
    }
  }

  /** `"\n".join(json_lines)` over `content.split("\n")`. */
  function Fallback(content: string): string {
    FallbackOf(Split(content, '\n'))
  }

  /** The same over the reply's lines. */
  function FallbackOf(lines: seq<string>): string {
    Join(Texts(RunLines(Classify(lines), false)), '\n')
  }

  /** The fallback keeps the lines verbatim: the collected run, read back, is a
      contiguous slice of the reply's own lines, unstripped. */
  lemma ClassifiedSlice(lines: seq<string>, i: nat, j: nat)
    requires i <= j <= |lines|
    ensures Texts(Classify(lines)[i..j]) == lines[i..j]
  {
    var t := Texts(Classify(lines)[i..j]);
    assert |t| == j - i;
    forall k | 0 <= k < j - i
      ensures t[k] == lines[i..j][k]
    {
      assert Classify(lines)[i..j][k] == Classify(lines)[i + k];
    }
  }

  /** A classified line opens the array exactly when its stripped text starts with `[`. */
  lemma OpensAt(lines: seq<string>, k: nat)
    requires k < |lines|
    ensures Opens(Classify(lines)[k]) <==> StartsWith(Strip(lines[k]), "[")
  {
  }

  /** With no line whose stripped text starts with `[`, the fallback text is empty. */
  lemma FallbackEmpty(lines: seq<string>)
    ensures FirstOpening(Classify(lines)).None? ==>
      && (forall k :: 0 <= k < |lines| ==> !StartsWith(Strip(lines[k]), "["))
      && FallbackOf(lines) == ""
  {
    var ls := Classify(lines);
    if FirstOpening(ls).None? {
      FallbackRun(ls);
      forall k | 0 <= k < |lines|
        ensures !StartsWith(Strip(lines[k]), "[")
      {
        OpensAt(lines, k);
      }
      assert Texts(RunLines(ls, false)) == [];
    }
  }

  /** Otherwise, when line `i` is the first opening one, the fallback text is the
      lines themselves, unstripped, from line `i` up to the first later line that would
      close the array (or to the end), joined with newlines. */
  lemma FallbackLines(lines: seq<string>, i: nat)
    requires FirstOpening(Classify(lines)) == Some(i)
    ensures var r := RunLines(Classify(lines), false);
      1 <= |r| && i + |r| <= |lines| && FallbackOf(lines) == Join(lines[i..i + |r|], '\n')
  {
    RunJoin(lines, i, RunLines(Classify(lines), false));
  }

  /** The first opening line is the first line whose stripped text starts with `[`. */
  lemma FallbackStart(lines: seq<string>, i: nat)
    requires FirstOpening(Classify(lines)) == Some(i)
    ensures i < |lines| && StartsWith(Strip(lines[i]), "[")
    ensures forall k :: 0 <= k < i ==> !StartsWith(Strip(lines[k]), "[")
  {
    OpensAt(lines, i);
    forall k | 0 <= k < i
      ensures !StartsWith(Strip(lines[k]), "[")
    {
      OpensAt(lines, k);
    }
  }

  /** The run's text, joined, is the slice of the lines it covers, joined. */
  lemma RunJoin(lines: seq<string>, i: nat, r: seq<Line>)
    requires FirstOpening(Classify(lines)) == Some(i)
    requires r == RunLines(Classify(lines), false)
    ensures 1 <= |r| && i + |r| <= |lines|
    ensures Join(Texts(r), '\n') == Join(lines[i..i + |r|], '\n')
  {
    RunText(lines, i);
  }

  /** The run read back is the slice of the lines it covers. */
  lemma RunText(lines: seq<string>, i: nat)
    requires FirstOpening(Classify(lines)) == Some(i)
    ensures var r := RunLines(Classify(lines), false);
      1 <= |r| && i + |r| <= |lines| && Texts(r) == lines[i..i + |r|]
  {
    var ls := Classify(lines);
    FallbackRun(ls);
    var r := RunLines(ls, false);
    assert ls[i..i + |r|] == r;
    ClassifiedSlice(lines, i, i + |r|);
  }

  // ---------------------------------------------------------------------------
  // One conversation
  // ---------------------------------------------------------------------------

  /** The decoded turn data: the primary candidate if it decodes, else the fallback;
      `None` when the fallback does not decode either. */
  function Decoded(candidate: string, content: string, codec: Codec): (r: Option<Json>)
    ensures codec.loads(candidate).Some? ==> r == codec.loads(candidate)
    ensures codec.loads(candidate).None? ==> r == codec.loads(Fallback(content))
  {
    match codec.loads(candidate)
    case Some(j) => Some(j)
    case None => codec.loads(Fallback(content))
  }

  /** `generate_conversation`. A missing reply, a missing array or turn data of the wrong
      shape raise RuntimeError; data that decodes under neither rule raises ValueError;
      an empty turn range raises ValueError before the backend is asked. A success is
      filed under the policy's metadata. `ask` is the backend's reply to the request. */
  function GenerateConversation(p: Policy, minTurns: int, maxTurns: int, draw: nat,
                                ask: SynthRequest -> Option<string>, codec: Codec)
    : (r: Result<Conversation>)
    ensures minTurns > maxTurns ==> r == Fail(ValueError(EmptyTurnRange))
    ensures r.Success? ==> r.value.domain == p.domain && r.value.action == p.action
                           && r.value.description == p.description
    ensures r.Fail? && minTurns <= maxTurns ==>
              (r.error == ValueError(JsonDecode) || r.error.RuntimeError?)
    ensures minTurns <= maxTurns ==>
              var reply := ask(SynthRequest(p.description, p.domain, p.action,
                                            TurnCount(minTurns, maxTurns, draw).value));
              && (reply.None? ==> r == Fail(RuntimeError(NoReply)))
              && (reply.Some? && ArrayCandidate(Strip(reply.value)).None? ==>
                    r == Fail(RuntimeError(NoJsonArray)))
    ensures minTurns <= maxTurns ==>
              var reply := ask(SynthRequest(p.description, p.domain, p.action,
                                            TurnCount(minTurns, maxTurns, draw).value));
              reply.Some? && ArrayCandidate(Strip(reply.value)).Some? ==>
                var content := Strip(reply.value);
                var data := Decoded(ArrayCandidate(content).value, content, codec);
                && (r == Fail(ValueError(JsonDecode)) <==> data.None?)
                && (r.Success? <==> data.Some? && TurnsOf(data.value).Some?)
                && (r.Success? ==> r.value.turns == TurnsOf(data.value).value)
  {
    var n :- TurnCount(minTurns, maxTurns, draw);
    match ask(SynthRequest(p.description, p.domain, p.action, n))
    case None => Fail(RuntimeError(NoReply))
    case Some(raw) =>
      var content := Strip(raw);
      match ArrayCandidate(content)
      case None => Fail(RuntimeError(NoJsonArray))
      case Some(candidate) =>
        match Decoded(candidate, content, codec)
        case None => Fail(ValueError(JsonDecode))
        case Some(data) =>
          match TurnsOf(data)
          case None => Fail(RuntimeError(InvalidShape))
          case Some(turns) => Success(Conversation(turns, p.domain, p.action, p.description))
  }

  /** With a usable range and a reply whose array decodes to turns, the conversation is
      those turns under the policy's metadata. */
  lemma DecodedTurnsAreKept(p: Policy, minTurns: int, maxTurns: int, draw: nat,
                            ask: SynthRequest -> Option<string>, codec: Codec,
                            pre: string, arr: string, post: string, turns: seq<Turn>)
    requires minTurns <= maxTurns
    requires ask(SynthRequest(p.description, p.domain, p.action,
                              TurnCount(minTurns, maxTurns, draw).value))
             == Some(pre + arr + post)
    requires Strip(pre + arr + post) == pre + arr + post
    requires '[' !in pre && ']' !in post
    requires |arr| >= 2 && arr[0] == '[' && arr[|arr| - 1] == ']'
    requires codec.loads(arr).Some? && TurnsOf(codec.loads(arr).value) == Some(turns)
    ensures GenerateConversation(p, minTurns, maxTurns, draw, ask, codec)
            == Success(Conversation(turns, p.domain, p.action, p.description))
  {
    WrappedArray(pre, arr, post);
  }

  /** When the array cut out of the reply does not decode but the lines of the fallback
      do, the conversation holds the turns the fallback decodes to. */
  lemma FallbackTurnsAreKept(p: Policy, minTurns: int, maxTurns: int, draw: nat,
                             ask: SynthRequest -> Option<string>, codec: Codec,
                             reply: string, candidate: string, turns: seq<Turn>)
    requires minTurns <= maxTurns
    requires ask(SynthRequest(p.description, p.domain, p.action,
                              TurnCount(minTurns, maxTurns, draw).value)) == Some(reply)
    requires ArrayCandidate(Strip(reply)) == Some(candidate)
    requires codec.loads(candidate).None?
    requires codec.loads(Fallback(Strip(reply))).Some?
    requires TurnsOf(codec.loads(Fallback(Strip(reply))).value) == Some(turns)
    ensures GenerateConversation(p, minTurns, maxTurns, draw, ask, codec)
            == Success(Conversation(turns, p.domain, p.action, p.description))
  {
  }

  /** `generate_conversations_batch`: policy `k` is sent with draw `draws(k)` and gets
      reply `ask(k, ·)`; one conversation per policy, in order, or the first
      exception. */
  function GenerateConversations(ps: seq<Policy>, minTurns: int, maxTurns: int,
                                 draws: nat -> nat,
                                 ask: (nat, SynthRequest) -> Option<string>, codec: Codec)
    : (r: Result<seq<Conversation>>)
    ensures r.Success? <==> forall k :: 0 <= k < |ps| ==>
              GenerateConversation(ps[k], minTurns, maxTurns, draws(k),
                                   (q: SynthRequest) => ask(k, q), codec).Success?
    ensures r.Success? ==> |r.value| == |ps|
    ensures r.Success? ==> forall k :: 0 <= k < |ps| ==>
              r.value[k] == GenerateConversation(ps[k], minTurns, maxTurns, draws(k),
                                                 (q: SynthRequest) => ask(k, q), codec).value
    ensures r.Success? ==> forall k :: 0 <= k < |ps| ==>
              r.value[k].domain == ps[k].domain && r.value[k].action == ps[k].action
              && r.value[k].description == ps[k].description
  {
    var gen := (k: nat, p: Policy) =>
      GenerateConversation(p, minTurns, maxTurns, draws(k), (q: SynthRequest) => ask(k, q), codec);
    var r := Batch(ps, gen);
    FiledUnderPolicy(ps, gen, minTurns, maxTurns, draws, ask, codec);
    r
  }

  lemma FiledUnderPolicy(ps: seq<Policy>, gen: (nat, Policy) -> Result<Conversation>,
                         minTurns: int, maxTurns: int, draws: nat -> nat,
                         ask: (nat, SynthRequest) -> Option<string>, codec: Codec)
    requires forall k: nat, p :: gen(k, p) ==
               GenerateConversation(p, minTurns, maxTurns, draws(k), (q: SynthRequest) => ask(k, q), codec)
    ensures forall k :: 0 <= k < |ps| && gen(k, ps[k]).Success? ==>
              gen(k, ps[k]).value.domain == ps[k].domain
              && gen(k, ps[k]).value.action == ps[k].action
              && gen(k, ps[k]).value.description == ps[k].description
  {
    forall k | 0 <= k < |ps| && gen(k, ps[k]).Success?
      ensures gen(k, ps[k]).value.domain == ps[k].domain
              && gen(k, ps[k]).value.action == ps[k].action
              && gen(k, ps[k]).value.description == ps[k].description
    {
      var c := GenerateConversation(ps[k], minTurns, maxTurns, draws(k),
                                    (q: SynthRequest) => ask(k, q), codec);
      assert gen(k, ps[k]) == c;
    }
  }

  /** An empty turn range fails the whole batch with ValueError as soon as there is a
      policy to serve. */
  lemma EmptyRangeFailsBatch(ps: seq<Policy>, minTurns: int, maxTurns: int,
                             draws: nat -> nat,
                             ask: (nat, SynthRequest) -> Option<string>, codec: Codec)
    requires |ps| > 0 && minTurns > maxTurns
    ensures GenerateConversations(ps, minTurns, maxTurns, draws, ask, codec)
            == Fail(ValueError(EmptyTurnRange))
  {
    var gen := (k: nat, p: Policy) =>
      GenerateConversation(p, minTurns, maxTurns, draws(k), (q: SynthRequest) => ask(k, q), codec);
    var r := Batch(ps, gen);
    assert gen(0, ps[0]).Fail?;
    var k :| 0 <= k < |ps| && gen(k, ps[k]) == Fail(r.error)
             && forall j :: 0 <= j < k ==> gen(j, ps[j]).Success?;
    assert gen(k, ps[k]) == Fail(ValueError(EmptyTurnRange));
  }
}
