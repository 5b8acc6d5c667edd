/**
 `AugmentationModule`: the second phase, which turns each synthesized conversation into
 a small family of labelled variants. The original is always kept; a paraphrase of some
 user turns, a noisy copy and an unrelated conversation are each attempted behind a
 random gate; with mixing on, a conversation blended with one from another domain is
 attempted too. Every attempt asks the backend once, and an attempt that fails is
 dropped without affecting the others.

 Randomness is explicit: each `random.random()` is a real in a draw record, each
 `randint`/`sample`/`choice` an index drawn from a natural number. The backend's reply
 to each request is a parameter (`None` when the call raises or returns no content).
 */
module Augmentation {

  import opened Base
  import opened Json
  import opened Models
  import opened Formatter
  import opened AugmentationParse

  // ---------------------------------------------------------------------------
  // Labels
  // ---------------------------------------------------------------------------

  const Original: string := "original"
  const Paraphrased: string := "paraphrase"
  const Noisy: string := "noise"
  const Irrelevant: string := "irrelevant"
  const DomainMix: string := "domain_mix"

  /** `_get_label_score`: the kept-meaning variants score above one half and the
      negative ones below it; an unknown tag gets exactly one half. */
  function LabelScore(tag: string): (r: real)
    ensures 0.0 < r < 1.0
    ensures r > 0.5 <==> tag == Original || tag == Paraphrased || tag == Noisy
    ensures r < 0.5 <==> tag == Irrelevant || tag == DomainMix
    ensures tag == Original ==> r == 0.95
    ensures tag == Paraphrased ==> r == 0.9
    ensures tag == Noisy ==> r == 0.7
    ensures tag == Irrelevant || tag == DomainMix ==> r == 0.1
    ensures tag !in {Original, Paraphrased, Noisy, Irrelevant, DomainMix} ==> r == 0.5
  {
    if tag == Original then 0.95
    else if tag == Paraphrased then 0.9
    else if tag == Noisy then 0.7
    else if tag == Irrelevant then 0.1
    else if tag == DomainMix then 0.1
    else 0.5
  }

  /** The original scores above a paraphrase, a paraphrase above noise, and both
      negative kinds alike. */
  lemma ScoresOrdered()
    ensures LabelScore(Original) > LabelScore(Paraphrased) > LabelScore(Noisy)
    ensures LabelScore(Noisy) > 0.5 > LabelScore(Irrelevant)
    ensures LabelScore(Irrelevant) == LabelScore(DomainMix)
  {
  }

  /** The order in which `create_conversation_variants` appends the tags. */
  function Rank(tag: string): nat {
    if tag == Original then 0
    else if tag == Paraphrased then 1
    else if tag == Noisy then 2
    else if tag == Irrelevant then 3
    else 4
  }

  // ---------------------------------------------------------------------------
  // Requests and replies
  // ---------------------------------------------------------------------------

  /** What each backend request is built from (the prompt wording is not modelled). */
  datatype Request =
    | ParaphraseRequest(transcript: string, selected: seq<nat>)
    | NoiseRequest(transcript: string)
    | IrrelevantRequest(domain: string, action: string)
    | MixRequest(firstDomain: string, first: string, secondDomain: string, second: string)

  /** One augmentation call: the request sent, if any, and what the call returned or
      raised. */
  datatype Attempt = Attempt(request: Option<Request>, result: Result<AugmentedConversation>)

  /** The shared tail of every augmentation call: a missing reply or a reply that does
      not parse becomes a RuntimeError; otherwise the parsed turns are wrapped with the
      given metadata and tag, scored by `LabelScore`. */
  function Respond(reply: Option<string>, codec: Codec, tag: string,
                   domain: string, action: string, description: string)
    : (r: Result<AugmentedConversation>)
    ensures r.Success? <==> reply.Some? && ParseTurns(reply.value, codec).Success?
    ensures r.Success? ==> r.value == AugmentedConversation(
              Conversation(ParseTurns(reply.value, codec).value, domain, action, description),
              tag, LabelScore(tag))
    ensures r.Fail? ==> r.error.RuntimeError?
    ensures reply.None? ==> r == Fail(RuntimeError(NoReply))
  {
    match reply
    case None => Fail(RuntimeError(NoReply))
    case Some(content) =>
      match ParseTurns(content, codec)
      case Success(turns) =>
        Success(AugmentedConversation(Conversation(turns, domain, action, description),
                                      tag, LabelScore(tag)))
      case Fail(ValueError(cause)) => Fail(RuntimeError(cause))
      case Fail(_) => Fail(RuntimeError(UnboundCandidate))
  }

  // ---------------------------------------------------------------------------
  // Selective paraphrase
  // ---------------------------------------------------------------------------

  /** The positions of the user turns, in increasing order. */
  function UserTurns(turns: seq<Turn>): (r: seq<nat>)
    ensures forall k :: 0 <= k < |r| ==> r[k] < |turns| && turns[r[k]].role == "user"
    ensures forall i :: 0 <= i < |turns| && turns[i].role == "user" ==> i in r
    ensures forall a, b :: 0 <= a < b < |r| ==> r[a] < r[b]
  {
    if |turns| == 0 then []
    else
      var r := UserTurns(turns[..|turns| - 1]);
      if turns[|turns| - 1].role == "user" then r + [|turns| - 1] else r
  }

  /** `random.sample(pool, k)`, drawing `picks(from)`, `picks(from + 1)`, ... as the
      positions chosen among what is left of the pool. */
  function Sample(pool: seq<nat>, k: nat, picks: nat -> nat, from: nat): (r: seq<nat>)
    ensures |r| == if k <= |pool| then k else |pool|
    ensures forall x :: x in r ==> x in pool
    ensures Distinct(pool) ==> Distinct(r)
    decreases k
  {
    if k == 0 || |pool| == 0 then []
    else
      var j := picks(from) % |pool|;
      var left := pool[..j] + pool[j + 1..];
      var rest := Sample(left, k - 1, picks, from + 1);
      RemovedIsGone(pool, j);
      [pool[j]] + rest
  }

  /** Removing one element of a distinct sequence removes it for good. */
  lemma RemovedIsGone(pool: seq<nat>, j: nat)
    requires j < |pool|
    ensures forall x :: x in pool[..j] + pool[j + 1..] ==> x in pool
    ensures Distinct(pool) ==> (pool[j] !in pool[..j] + pool[j + 1..]
                                && Distinct(pool[..j] + pool[j + 1..]))
  {
    var left := pool[..j] + pool[j + 1..];
    assert forall a :: 0 <= a < |left| ==> left[a] == if a < j then pool[a] else pool[a + 1];
  }

  /** `randint(1, min(3, n))` from a draw. */
  function TurnCount(n: nat, draw: nat): (r: nat)
    requires n > 0
    ensures 1 <= r <= 3 && r <= n
  {
    1 + draw % (if n < 3 then n else 3)
  }

  /** `selective_paraphrase`. With no user turn the conversation comes back unchanged,
      tagged as a paraphrase, and the backend is not asked. Otherwise one to three
      distinct user turns are chosen, the backend is asked to rewrite them in the
      transcript, and the reply's turns replace the conversation's under the same
      domain, action and description. */
  function Paraphrase(c: Conversation, countDraw: nat, picks: nat -> nat,
                      reply: Option<string>, codec: Codec): (a: Attempt)
    ensures a.request.None? <==> |UserTurns(c.turns)| == 0
    ensures a.request.None? ==> a.result == Success(AugmentedConversation(c, Paraphrased, 0.9))
    ensures a.request.Some? ==> a.request.value.ParaphraseRequest?
    ensures a.request.Some? ==>
              var sel := a.request.value.selected;
              && 1 <= |sel| <= 3 && Distinct(sel)
              && (forall k :: 0 <= k < |sel| ==> sel[k] < |c.turns| && c.turns[sel[k]].role == "user")
    ensures a.request.Some? ==> a.request.value.transcript == FormatConversation(c)
    ensures a.request.Some? ==>
              a.result == Respond(reply, codec, Paraphrased, c.domain, c.action, c.description)
  {
    var users := UserTurns(c.turns);
    if |users| == 0 then
      Attempt(None, Success(AugmentedConversation(c, Paraphrased, LabelScore(Paraphrased))))
    else
      var selected := Sample(users, TurnCount(|users|, countDraw), picks, 0);
      SelectionIsUserTurns(c.turns, users, selected);
      Attempt(Some(ParaphraseRequest(FormatConversation(c), selected)),
              Respond(reply, codec, Paraphrased, c.domain, c.action, c.description))
  }

  /** What `random.sample` draws from the user positions is a distinct set of user
      positions. */
  lemma SelectionIsUserTurns(turns: seq<Turn>, users: seq<nat>, sel: seq<nat>)
    requires users == UserTurns(turns)
    requires forall x :: x in sel ==> x in users
    requires Distinct(users) ==> Distinct(sel)
    ensures Distinct(sel)
    ensures forall k :: 0 <= k < |sel| ==> sel[k] < |turns| && turns[sel[k]].role == "user"
  {
    forall k | 0 <= k < |sel|
      ensures sel[k] < |turns| && turns[sel[k]].role == "user"
    {
      assert sel[k] in users;
    }
  }

  // ---------------------------------------------------------------------------
  // Noise, irrelevant conversations, domain mixing
  // ---------------------------------------------------------------------------

  /** `inject_noise`: the reply's turns under the original metadata. */
  function Noise(c: Conversation, reply: Option<string>, codec: Codec): (a: Attempt)
    ensures a.request == Some(NoiseRequest(FormatConversation(c)))
    ensures a.result.Success? ==> (a.result.value.conversation.domain == c.domain
                                   && a.result.value.conversation.action == c.action
                                   && a.result.value.conversation.description == c.description)
    ensures a.result == Respond(reply, codec, Noisy, c.domain, c.action, c.description)
  {
    Attempt(Some(NoiseRequest(FormatConversation(c))),
            Respond(reply, codec, Noisy, c.domain, c.action, c.description))
  }

  /** `create_irrelevant_conversation`: asked only for the domain and action, and the
      result is filed under the fixed "irrelevant" metadata, whatever the input was. */
  function IrrelevantConversation(c: Conversation, reply: Option<string>, codec: Codec)
    : (a: Attempt)
    ensures a.request == Some(IrrelevantRequest(c.domain, c.action))
    ensures a.result.Success? ==>
              a.result.value.conversation.domain == "irrelevant"
              && a.result.value.conversation.action == "irrelevant_chat"
              && a.result.value.conversation.description == "Irrelevant conversation for negative training"
    ensures a.result == Respond(reply, codec, Irrelevant, "irrelevant", "irrelevant_chat",
                                "Irrelevant conversation for negative training")
  {
    Attempt(Some(IrrelevantRequest(c.domain, c.action)),
            Respond(reply, codec, Irrelevant, "irrelevant", "irrelevant_chat",
                    "Irrelevant conversation for negative training"))
  }

  /** `create_domain_mixed_conversation`: both domains and both transcripts are sent, and the result is
      filed under the fixed "mixed" metadata. */
  function MixedConversation(c: Conversation, other: Conversation, reply: Option<string>,
                             codec: Codec): (a: Attempt)
    ensures a.request == Some(MixRequest(c.domain, FormatConversation(c), other.domain, FormatConversation(other)))
    ensures a.result.Success? ==>
              a.result.value.conversation.domain == "mixed"
              && a.result.value.conversation.action == "mixed_domains"
              && a.result.value.conversation.description == "Domain-mixed conversation for negative training"
    ensures a.result == Respond(reply, codec, DomainMix, "mixed", "mixed_domains",
                                "Domain-mixed conversation for negative training")
  {
    Attempt(Some(MixRequest(c.domain, FormatConversation(c), other.domain, FormatConversation(other))),
            Respond(reply, codec, DomainMix, "mixed", "mixed_domains",
                    "Domain-mixed conversation for negative training"))
  }

  // ---------------------------------------------------------------------------
  // Variants of one conversation
  // ---------------------------------------------------------------------------

  const ParaphraseRate: real := 0.35
  const NoiseRate: real := 0.225
  const IrrelevantRate: real := 0.125
  const MixRate: real := 0.05

  /** The random draws and backend replies one call of `create_conversation_variants`
      consumes: three `random.random()` gates, the `randint` and `sample` draws of the
      paraphrase, and one reply per attempted call. */
  datatype VariantDraws = VariantDraws(
    paraphraseRoll: real, noiseRoll: real, irrelevantRoll: real,
    countDraw: nat, picks: nat -> nat,
    paraphraseReply: Option<string>, noiseReply: Option<string>,
    irrelevantReply: Option<string>)

  function Kept(c: Conversation): AugmentedConversation {
    AugmentedConversation(c, Original, LabelScore(Original))
  }

  predicate HasTag(r: seq<AugmentedConversation>, tag: string) {
    exists k :: 0 <= k < |r| && r[k].augmentationType == tag
  }

  /** Every entry of `p` carries `tag` and its score. */
  predicate Tagged(p: seq<AugmentedConversation>, tag: string) {
    forall k :: 0 <= k < |p| ==>
      p[k].augmentationType == tag && p[k].labelScore == LabelScore(tag)
  }

  /** Every entry of `p` has `c`'s domain, action and description. */
  predicate SameMeta(p: seq<AugmentedConversation>, c: Conversation) {
    forall k :: 0 <= k < |p| ==>
      p[k].conversation.domain == c.domain && p[k].conversation.action == c.action
      && p[k].conversation.description == c.description
  }

  /** Every entry of `r` ranks below `n`. */
  predicate RanksBelow(r: seq<AugmentedConversation>, n: nat) {
    forall k :: 0 <= k < |r| ==> Rank(r[k].augmentationType) < n
  }

  /** The entries of `r` carry increasing ranks and the score of their tag; all but an
      irrelevant conversation keep `c`'s metadata. */
  predicate WellFormedVariants(c: Conversation, r: seq<AugmentedConversation>) {
    && (forall a, b :: 0 <= a < b < |r| ==>
          Rank(r[a].augmentationType) < Rank(r[b].augmentationType))
    && (forall k :: 0 <= k < |r| ==> r[k].labelScore == LabelScore(r[k].augmentationType))
    && (forall k :: 0 <= k < |r| && r[k].augmentationType != Irrelevant ==>
          r[k].conversation.domain == c.domain && r[k].conversation.action == c.action
          && r[k].conversation.description == c.description)
  }

  /** Appending at most one entry of a later tag keeps a variant list well formed. */
  lemma ExtendVariants(c: Conversation, r: seq<AugmentedConversation>,
                       p: seq<AugmentedConversation>, tag: string)
    requires WellFormedVariants(c, r) && RanksBelow(r, Rank(tag))
    requires |p| <= 1 && Tagged(p, tag) && (tag != Irrelevant ==> SameMeta(p, c))
    ensures WellFormedVariants(c, r + p) && RanksBelow(r + p, Rank(tag) + 1)
    ensures forall t :: HasTag(r + p, t) <==> HasTag(r, t) || (|p| == 1 && t == tag)
  {
    var q := r + p;
    assert forall k :: 0 <= k < |r| ==> q[k] == r[k];
    assert |p| == 1 ==> q[|r|] == p[0];
    forall t
      ensures HasTag(q, t) <==> HasTag(r, t) || (|p| == 1 && t == tag)
    {
      if HasTag(q, t) {
        var k :| 0 <= k < |q| && q[k].augmentationType == t;
        if k >= |r| {
          assert q[k] == p[0];
        }
      }
      if |p| == 1 && t == tag {
        assert q[|r|].augmentationType == t;
      }
    }
  }

  /** The three gated attempts, each contributing its result only if it succeeded. */
  function ParaphraseStep(c: Conversation, d: VariantDraws, codec: Codec)
    : (p: seq<AugmentedConversation>)
    ensures |p| <= 1 && Tagged(p, Paraphrased) && SameMeta(p, c)
    ensures |p| == 1 <==>
              d.paraphraseRoll < ParaphraseRate
              && Paraphrase(c, d.countDraw, d.picks, d.paraphraseReply, codec).result.Success?
  {
    if d.paraphraseRoll < ParaphraseRate
    then Paraphrase(c, d.countDraw, d.picks, d.paraphraseReply, codec).result.ToSeq()
    else []
  }

  function NoiseStep(c: Conversation, d: VariantDraws, codec: Codec)
    : (p: seq<AugmentedConversation>)
    ensures |p| <= 1 && Tagged(p, Noisy) && SameMeta(p, c)
    ensures |p| == 1 <==> d.noiseRoll < NoiseRate && Noise(c, d.noiseReply, codec).result.Success?
  {
    if d.noiseRoll < NoiseRate then Noise(c, d.noiseReply, codec).result.ToSeq() else []
  }

  function IrrelevantStep(c: Conversation, d: VariantDraws, codec: Codec)
    : (p: seq<AugmentedConversation>)
    ensures |p| <= 1 && Tagged(p, Irrelevant)
    ensures |p| == 1 <==>
              d.irrelevantRoll < IrrelevantRate
              && IrrelevantConversation(c, d.irrelevantReply, codec).result.Success?
  {
    if d.irrelevantRoll < IrrelevantRate
    then IrrelevantConversation(c, d.irrelevantReply, codec).result.ToSeq()
    else []
  }

  /** The original followed by the surviving attempts' results, in tag order. */
  function Assemble(c: Conversation, p: seq<AugmentedConversation>,
                    n: seq<AugmentedConversation>, i: seq<AugmentedConversation>)
    : (r: seq<AugmentedConversation>)
    requires |p| <= 1 && Tagged(p, Paraphrased) && SameMeta(p, c)
    requires |n| <= 1 && Tagged(n, Noisy) && SameMeta(n, c)
    requires |i| <= 1 && Tagged(i, Irrelevant)
    ensures 1 <= |r| <= 4
    ensures r[0] == Kept(c)
    ensures WellFormedVariants(c, r)
    ensures HasTag(r, Paraphrased) <==> |p| == 1
    ensures HasTag(r, Noisy) <==> |n| == 1
    ensures HasTag(r, Irrelevant) <==> |i| == 1
    ensures !HasTag(r, DomainMix)
    ensures forall k :: 1 <= k < |r| ==> r[k].augmentationType != Original
  {
    var r0 := [Kept(c)];
    assert r0[0].augmentationType == Original;
    assert forall t :: HasTag(r0, t) <==> t == Original;
    ExtendVariants(c, r0, p, Paraphrased);
    ExtendVariants(c, r0 + p, n, Noisy);
    ExtendVariants(c, r0 + p + n, i, Irrelevant);
    var r := r0 + p + n + i;
    assert r[0] == Kept(c);
    r
  }

  /** `create_conversation_variants`: the original first, then whichever of paraphrase,
      noise and irrelevant were drawn and succeeded, in that order, so one to four
      entries with distinct tags. */
  function CreateVariants(c: Conversation, d: VariantDraws, codec: Codec)
    : (r: seq<AugmentedConversation>)
    ensures 1 <= |r| <= 4
    ensures r[0] == Kept(c)
    ensures WellFormedVariants(c, r)
    ensures HasTag(r, Paraphrased) <==>
              d.paraphraseRoll < ParaphraseRate
              && Paraphrase(c, d.countDraw, d.picks, d.paraphraseReply, codec).result.Success?
    ensures HasTag(r, Noisy) <==>
              d.noiseRoll < NoiseRate && Noise(c, d.noiseReply, codec).result.Success?
    ensures HasTag(r, Irrelevant) <==>
              d.irrelevantRoll < IrrelevantRate
              && IrrelevantConversation(c, d.irrelevantReply, codec).result.Success?
    ensures !HasTag(r, DomainMix)
    ensures forall k :: 1 <= k < |r| ==> r[k].augmentationType != Original
  {
    Assemble(c, ParaphraseStep(c, d, codec), NoiseStep(c, d, codec), IrrelevantStep(c, d, codec))
  }

  /** A failed paraphrase is the same as one never drawn: the `except` clauses isolate
      the branches from each other. */
  lemma FailedParaphraseIsSkipped(c: Conversation, d: VariantDraws, codec: Codec)
    requires !Paraphrase(c, d.countDraw, d.picks, d.paraphraseReply, codec).result.Success?
    ensures CreateVariants(c, d, codec) == CreateVariants(c, d.(paraphraseRoll := 1.0), codec)
  {
    var e := d.(paraphraseRoll := 1.0);
    assert ParaphraseStep(c, d, codec) == [] == ParaphraseStep(c, e, codec);
    assert NoiseStep(c, d, codec) == NoiseStep(c, e, codec);
    assert IrrelevantStep(c, d, codec) == IrrelevantStep(c, e, codec);
  }

  /** Likewise a failed noise attempt. */
  lemma FailedNoiseIsSkipped(c: Conversation, d: VariantDraws, codec: Codec)
    requires !Noise(c, d.noiseReply, codec).result.Success?
    ensures CreateVariants(c, d, codec) == CreateVariants(c, d.(noiseRoll := 1.0), codec)
  {
    var e := d.(noiseRoll := 1.0);
    assert ParaphraseStep(c, d, codec) == ParaphraseStep(c, e, codec);
    assert NoiseStep(c, d, codec) == [] == NoiseStep(c, e, codec);
    assert IrrelevantStep(c, d, codec) == IrrelevantStep(c, e, codec);
  }

  /** Likewise a failed irrelevant conversation. */
  lemma FailedIrrelevantIsSkipped(c: Conversation, d: VariantDraws, codec: Codec)
    requires !IrrelevantConversation(c, d.irrelevantReply, codec).result.Success?
    ensures CreateVariants(c, d, codec) == CreateVariants(c, d.(irrelevantRoll := 1.0), codec)
  {
    var e := d.(irrelevantRoll := 1.0);
    assert ParaphraseStep(c, d, codec) == ParaphraseStep(c, e, codec);
    assert NoiseStep(c, d, codec) == NoiseStep(c, e, codec);
    assert IrrelevantStep(c, d, codec) == [] == IrrelevantStep(c, e, codec);
  }

  /** With every gate shut the original alone comes back, whatever the replies. */
  lemma ClosedGatesKeepOriginal(c: Conversation, d: VariantDraws, codec: Codec)
    requires d.paraphraseRoll >= ParaphraseRate && d.noiseRoll >= NoiseRate
    requires d.irrelevantRoll >= IrrelevantRate
    ensures CreateVariants(c, d, codec) == [Kept(c)]
  {
  }

  // ---------------------------------------------------------------------------
  // Whole batches
  // ---------------------------------------------------------------------------

  /** The entries tagged "original", in order. */
  function Originals(r: seq<AugmentedConversation>): (o: seq<Conversation>)
    ensures |o| <= |r|
  {
    if |r| == 0 then []
    else Originals(r[..|r| - 1])
         + (if r[|r| - 1].augmentationType == Original then [r[|r| - 1].conversation] else [])
  }

  lemma {:induction false} OriginalsAppend(a: seq<AugmentedConversation>, b: seq<AugmentedConversation>)
    ensures Originals(a + b) == Originals(a) + Originals(b)
    decreases |b|
  {
    if |b| == 0 {
      assert a + b == a;
    } else {
      assert (a + b)[..|a + b| - 1] == a + b[..|b| - 1];
      OriginalsAppend(a, b[..|b| - 1]);
    }
  }

  /** A list that opens with an original and has none after it yields just that one. */
  lemma {:induction false} OriginalsOfHead(r: seq<AugmentedConversation>, n: nat)
    requires 1 <= n <= |r| && r[0].augmentationType == Original
    requires forall k :: 1 <= k < |r| ==> r[k].augmentationType != Original
    ensures Originals(r[..n]) == [r[0].conversation]
  {
    if n == 1 {
      assert r[..1][..0] == [];
    } else {
      assert r[..n][..n - 1] == r[..n - 1];
      OriginalsOfHead(r, n - 1);
    }
  }

  /** A variant list holds exactly one original: its conversation. */
  lemma VariantOriginals(c: Conversation, d: VariantDraws, codec: Codec)
    ensures Originals(CreateVariants(c, d, codec)) == [c]
  {
    var r := CreateVariants(c, d, codec);
    OriginalsOfHead(r, |r|);
    assert r[..|r|] == r;
  }

  /** `augment_conversations`: the variants of each conversation, concatenated in
      order; conversation `i` consumes draws `tape(i)`. */
  function AugmentConversations(cs: seq<Conversation>, tape: nat -> VariantDraws, codec: Codec)
    : (r: seq<AugmentedConversation>)
    ensures |cs| <= |r| <= 4 * |cs|
    ensures Originals(r) == cs
  {
    if |cs| == 0 then []
    else
      var n := |cs| - 1;
      var prev := AugmentConversations(cs[..n], tape, codec);
      var vs := CreateVariants(cs[n], tape(n), codec);
      OriginalsAppend(prev, vs);
      VariantOriginals(cs[n], tape(n), codec);
      PrefixStep(cs, |cs|);
      prev + vs
  }

  // ---------------------------------------------------------------------------
  // Domain mixing
  // ---------------------------------------------------------------------------

  /** The keys of `domain_groups`: each domain once, in order of first appearance. */
  function Domains(cs: seq<Conversation>): (ds: seq<string>)
    ensures Distinct(ds)
    ensures forall d :: d in ds <==> exists k :: 0 <= k < |cs| && cs[k].domain == d
  {
    if |cs| == 0 then []
    else
      var n := |cs| - 1;
      var ds := Domains(cs[..n]);
      assert forall k :: 0 <= k < n ==> cs[..n][k] == cs[k];
      if cs[n].domain in ds then ds else ds + [cs[n].domain]
  }

  /** `domain_groups[d]`: the conversations of domain `d`, in order. */
  function Group(cs: seq<Conversation>, d: string): (g: seq<Conversation>)
    ensures forall k :: 0 <= k < |g| ==> g[k] in cs && g[k].domain == d
    ensures forall k :: 0 <= k < |cs| && cs[k].domain == d ==> cs[k] in g
    ensures |g| > 0 <==> d in Domains(cs)
  {
    if |cs| == 0 then []
    else
      var n := |cs| - 1;
      var g := Group(cs[..n], d);
      assert forall k :: 0 <= k < n ==> cs[..n][k] == cs[k];
      if cs[n].domain == d then g + [cs[n]] else g
  }

  /** Grouping runs through the input in order: the group of a concatenation is the
      group of each part, one after the other. */
  lemma {:induction false} GroupAppend(a: seq<Conversation>, b: seq<Conversation>, d: string)
    ensures Group(a + b, d) == Group(a, d) + Group(b, d)
  {
    if |b| > 0 {
      var n := |b| - 1;
      var ab := a + b;
      var m := |a| + n;
      var t := if b[n].domain == d then [b[n]] else [];
      assert ab[..m] == a + b[..n];
      assert ab[m] == b[n];
      GroupAppend(a, b[..n], d);
      GroupLast(ab, m, d);
      GroupLast(b, n, d);
    } else {
      assert a + b == a;
    }
  }

  /** The last conversation joins the group of the ones before it, or not. */
  lemma GroupLast(cs: seq<Conversation>, n: nat, d: string)
    requires n + 1 == |cs|
    ensures Group(cs, d) == Group(cs[..n], d) + (if cs[n].domain == d then [cs[n]] else [])
  {
  }

  /** The group holds each conversation of its domain exactly as often as the input
      does, and no other. */
  lemma {:induction false} GroupCounts(cs: seq<Conversation>, d: string)
    ensures forall c :: multiset(Group(cs, d))[c] == if c.domain == d then multiset(cs)[c] else 0
  {
    if |cs| > 0 {
      var n := |cs| - 1;
      GroupCounts(cs[..n], d);
      assert cs == cs[..n] + [cs[n]];
    }
  }

  /** Keys are added in order of first appearance: the domains of a prefix of the
      input are a prefix of the domains of the whole. */
  lemma {:induction false} DomainsGrow(cs: seq<Conversation>, n: nat)
    requires n <= |cs|
    ensures Domains(cs[..n]) <= Domains(cs)
  {
    if n < |cs| {
      var m := |cs| - 1;
      DomainsGrow(cs[..m], n);
      assert cs[..m][..n] == cs[..n];
    } else {
      assert cs[..n] == cs;
    }
  }

  /** The draws of one round of `augment_conversations_with_mixing`. */
  datatype MixDraws = MixDraws(
    variants: VariantDraws, mixRoll: real, domainPick: nat, partnerPick: nat,
    mixReply: Option<string>)

  /** The conversation `c` is blended with: drawn when the gate opens and several
      domains exist, from a domain other than `c`'s. */
  function MixPartner(cs: seq<Conversation>, c: Conversation, m: MixDraws)
    : (r: Option<Conversation>)
    requires c in cs
    ensures r.Some? <==> m.mixRoll < MixRate && |Domains(cs)| > 1
    ensures r.Some? ==> r.value in cs && r.value.domain != c.domain
  {
    var ds := Domains(cs);
    if m.mixRoll < MixRate && |ds| > 1 then
      var other := OtherDomain(ds, c.domain, m.domainPick);
      var group := Group(cs, other);
      Some(group[m.partnerPick % |group|])
    else None
  }

  /** `random.choice([d for d in domains if d != own])`; never empty when there are
      two distinct domains. */
  function OtherDomain(ds: seq<string>, own: string, pick: nat): (d: string)
    requires Distinct(ds) && |ds| > 1
    ensures d in ds && d != own
  {
    var others := Without(ds, own);
    assert ds[0] != ds[1];
    assert ds[0] in others || ds[1] in others;
    others[pick % |others|]
  }

  /** The elements of `s` other than `x`, in order. */
  function Without(s: seq<string>, x: string): (r: seq<string>)
    ensures forall y :: y in r <==> y in s && y != x
  {
    if |s| == 0 then []
    else (if s[0] == x then [] else [s[0]]) + Without(s[1..], x)
  }

  /** One round: the variants of `c`, then at most one mixed conversation. */
  function MixRound(cs: seq<Conversation>, c: Conversation, m: MixDraws, codec: Codec)
    : (r: seq<AugmentedConversation>)
    requires c in cs
    ensures |CreateVariants(c, m.variants, codec)| <= |r| <= |CreateVariants(c, m.variants, codec)| + 1
    ensures r[..|CreateVariants(c, m.variants, codec)|] == CreateVariants(c, m.variants, codec)
    ensures |r| > |CreateVariants(c, m.variants, codec)| <==>
              MixPartner(cs, c, m).Some?
              && MixedConversation(c, MixPartner(cs, c, m).value, m.mixReply, codec).result.Success?
  {
    var vs := CreateVariants(c, m.variants, codec);
    match MixPartner(cs, c, m)
    case None => vs
    case Some(other) => vs + MixedConversation(c, other, m.mixReply, codec).result.ToSeq()
  }

  /** The rounds for `cs[..n]`. */
  function MixRounds(cs: seq<Conversation>, n: nat, tape: nat -> MixDraws, codec: Codec)
    : (r: seq<AugmentedConversation>)
    requires n <= |cs|
    ensures n <= |r| <= 5 * n
    ensures Originals(r) == cs[..n]
  {
    if n == 0 then []
    else
      var prev := MixRounds(cs, n - 1, tape, codec);
      var round := MixRound(cs, cs[n - 1], tape(n - 1), codec);
      var vs := CreateVariants(cs[n - 1], tape(n - 1).variants, codec);
      MixRoundOriginals(cs, cs[n - 1], tape(n - 1), codec);
      OriginalsAppend(prev, round);
      PrefixStep(cs, n);
      prev + round
  }

  lemma MixRoundOriginals(cs: seq<Conversation>, c: Conversation, m: MixDraws, codec: Codec)
    requires c in cs
    ensures Originals(MixRound(cs, c, m, codec)) == [c]
  {
    var vs := CreateVariants(c, m.variants, codec);
    var r := MixRound(cs, c, m, codec);
    VariantOriginals(c, m.variants, codec);
    if |r| > |vs| {
      assert r == vs + [r[|vs|]];
      OriginalsAppend(vs, [r[|vs|]]);
      assert r[|vs|].augmentationType == DomainMix;
      assert Originals([r[|vs|]]) == Originals([]) + [];
    } else {
      assert r == vs;
    }
  }

  /** `augment_conversations_with_mixing`: every conversation yields its variants and
      at most one mixed conversation, so between one and five entries each, and the
      originals come out in input order. */
  function AugmentWithMixing(cs: seq<Conversation>, tape: nat -> MixDraws, codec: Codec)
    : (r: seq<AugmentedConversation>)
    ensures |cs| <= |r| <= 5 * |cs|
    ensures Originals(r) == cs
  {
    assert cs[..|cs|] == cs;
    MixRounds(cs, |cs|, tape, codec)
  }

  /** With a single domain a round adds no mixed conversation. */
  lemma NoPartnerRound(cs: seq<Conversation>, n: nat, tape: nat -> MixDraws, codec: Codec)
    requires 0 < n <= |cs| && |Domains(cs)| <= 1
    ensures MixRounds(cs, n, tape, codec)
            == MixRounds(cs, n - 1, tape, codec) + CreateVariants(cs[n - 1], tape(n - 1).variants, codec)
  {
    assert MixPartner(cs, cs[n - 1], tape(n - 1)).None?;
  }

  /** The plain augmentation of a longer prefix extends that of the shorter one. */
  lemma AugmentStep(cs: seq<Conversation>, n: nat, tape: nat -> VariantDraws, codec: Codec)
    requires 0 < n <= |cs|
    ensures AugmentConversations(cs[..n], tape, codec)
            == AugmentConversations(cs[..n - 1], tape, codec) + CreateVariants(cs[n - 1], tape(n - 1), codec)
  {
    var pre := cs[..n];
    assert pre[..n - 1] == cs[..n - 1];
  }

  /** With a single domain no mixing happens: the result is the plain augmentation
      driven by the same variant draws. */
  lemma {:induction false} SingleDomainNoMixing(cs: seq<Conversation>, n: nat, tape: nat -> MixDraws,
                                                vt: nat -> VariantDraws, codec: Codec)
    requires n <= |cs| && |Domains(cs)| <= 1
    requires forall i :: vt(i) == tape(i).variants
    ensures MixRounds(cs, n, tape, codec) == AugmentConversations(cs[..n], vt, codec)
  {
    if n > 0 {
      SingleDomainNoMixing(cs, n - 1, tape, vt, codec);
      NoPartnerRound(cs, n, tape, codec);
      AugmentStep(cs, n, vt, codec);
    }
  }
}
