/**
 `ArchRouterPipeline.run_pipeline`: intents from the corpus, a policy per intent,
 a conversation per policy, a verdict per conversation, augmentation of the aligned
 ones, flattening to records and truncation to the target size. Every backend reply
 and random draw comes from an `Environment`.
 */
module Pipeline {

  import opened Base
  import opened PyText
  import opened Json
  import opened Models
  import opened Augmentation
  import DataProcessor
  import PolicyGenerator
  import ConversationSynthesizer
  import AlignmentEvaluator

  /** The fields of `Config` the pipeline reads. */
  datatype Config = Config(
    maxSamplesPerIntent: int, maxTurns: int, minTurns: int, targetSize: int,
    threshold: real, useMixing: bool)

  const DefaultConfig: Config := Config(10, 5, 2, 3, 0.9, false)

  /** The backend's replies (indexed by position in their batch) and the random draws. */
  datatype Environment = Environment(
    policyReplies: (nat, PolicyGenerator.PolicyRequest) -> Option<string>,
    turnDraws: nat -> nat,
    conversationReplies: (nat, ConversationSynthesizer.SynthRequest) -> Option<string>,
    evaluationReplies: (nat, AlignmentEvaluator.EvalRequest) -> Option<string>,
    variantTape: nat -> VariantDraws,
    mixTape: nat -> MixDraws,
    codec: Codec)

  // ---------------------------------------------------------------------------
  // Intents
  // ---------------------------------------------------------------------------

  /** The `{"intent_name", "examples"}` dicts handed to the policy generator. */
  function IntentRequests(intents: seq<Intent>): (r: seq<PolicyGenerator.PolicyRequest>)
    ensures |r| == |intents|
    ensures forall k :: 0 <= k < |r| ==>
              r[k] == PolicyGenerator.PolicyRequest(intents[k].intentName, intents[k].examples)
  {
    seq(|intents|, k requires 0 <= k < |intents| =>
      PolicyGenerator.PolicyRequest(intents[k].intentName, intents[k].examples))
  }

  /** `xs[:min(len(xs), target // 2)]`: the first `target // 2` entries, or, when that
      bound is negative, all but the last `-(target // 2)`. */
  function CapIntents<T>(xs: seq<T>, target: int): (r: seq<T>)
    ensures target / 2 >= 0 ==> r == xs[..DataProcessor.Min(|xs|, target / 2)]
    ensures target / 2 < 0 ==> r == xs[..DataProcessor.Max(0, |xs| + target / 2)]
  {
    PySlice(xs, 0, DataProcessor.Min(|xs|, target / 2))
  }

  /** The cap changes nothing on what `process_intents` returns, which is already
      bounded by `target // 2`. */
  lemma CapIsNoOp(data: DataProcessor.Corpus, target: int, maxSamples: int)
    ensures var xs := IntentRequests(DataProcessor.ProcessIntents(data, target, maxSamples));
            CapIntents(xs, target) == xs
  {
    var xs := IntentRequests(DataProcessor.ProcessIntents(data, target, maxSamples));
    assert xs[..|xs|] == xs;
  }

  // ---------------------------------------------------------------------------
  // The alignment split
  // ---------------------------------------------------------------------------

  /** The entries of `cs` whose verdict (the score at the same position) is `want`,
      in order. */
  function Picked<T>(cs: seq<T>, scores: seq<AlignmentScore>, want: bool): (r: seq<T>)
    requires |cs| <= |scores|
    ensures |r| <= |cs|
  {
    if |cs| == 0 then []
    else
      var n := |cs| - 1;
      Picked(cs[..n], scores, want) + (if scores[n].isAligned == want then [cs[n]] else [])
  }

  /** The positions below `n` whose verdict is `want`, in increasing order. */
  function Chosen(scores: seq<AlignmentScore>, n: nat, want: bool): (ix: seq<nat>)
    requires n <= |scores|
    ensures forall k :: k in ix <==> 0 <= k < n && scores[k].isAligned == want
    ensures forall a, b :: 0 <= a < b < |ix| ==> ix[a] < ix[b]
    ensures forall i :: 0 <= i < |ix| ==> ix[i] < n
  {
    if n == 0 then []
    else
      var prev := Chosen(scores, n - 1, want);
      var tail: seq<nat> := if scores[n - 1].isAligned == want then [n - 1] else [];
      assert forall i :: 0 <= i < |prev| ==> prev[i] < n - 1;
      prev + tail
  }

  /** The entries of `cs` at the positions `ix`. */
  function At<T>(cs: seq<T>, ix: seq<nat>): (r: seq<T>)
    requires forall i :: 0 <= i < |ix| ==> ix[i] < |cs|
  {
    seq(|ix|, i requires 0 <= i < |ix| => cs[ix[i]])
  }

  lemma AtStep<T>(cs: seq<T>, ix: seq<nat>, n: nat, pick: bool)
    requires n < |cs|
    requires forall i :: 0 <= i < |ix| ==> ix[i] < n
    ensures At(cs[..n], ix) + (if pick then [cs[n]] else [])
            == At(cs, ix + (if pick then [n] else []))
  {
    var tail: seq<nat> := if pick then [n] else [];
    assert At(cs[..n], ix) == At(cs, ix);
    assert At(cs, ix + tail) == At(cs, ix) + At(cs, tail);
  }

  /** Each side of the split is exactly the entries whose verdict is `want`, taken in
      input order. */
  lemma {:induction false} PickedInOrder<T>(cs: seq<T>, scores: seq<AlignmentScore>, want: bool)
    requires |cs| <= |scores|
    ensures Picked(cs, scores, want) == At(cs, Chosen(scores, |cs|, want))
  {
    if |cs| > 0 {
      var n := |cs| - 1;
      PickedInOrder(cs[..n], scores, want);
      AtStep(cs, Chosen(scores, n, want), n, scores[n].isAligned == want);
    }
  }

  lemma SplitStep<T>(a: seq<T>, b: seq<T>, pre: seq<T>, c: T, left: bool)
    requires multiset(a) + multiset(b) == multiset(pre)
    ensures multiset(a + (if left then [c] else [])) + multiset(b + (if left then [] else [c]))
            == multiset(pre + [c])
  {
  }

  /** Together the two sides hold every entry exactly once. */
  lemma {:induction false} SplitIsComplete<T>(cs: seq<T>, scores: seq<AlignmentScore>)
    requires |cs| <= |scores|
    ensures multiset(Picked(cs, scores, true)) + multiset(Picked(cs, scores, false)) == multiset(cs)
  {
    if |cs| > 0 {
      var n := |cs| - 1;
      SplitIsComplete(cs[..n], scores);
      SplitStep(Picked(cs[..n], scores, true), Picked(cs[..n], scores, false), cs[..n],
                cs[n], scores[n].isAligned);
      assert cs == cs[..n] + [cs[n]];
    }
  }

  /** The `for conv, score in zip(...)` loop: `zip` stops at the shorter list. */
  method SplitByVerdict(cs: seq<Conversation>, scores: seq<AlignmentScore>)
    returns (aligned: seq<Conversation>, rejected: seq<Conversation>)
    ensures var n := DataProcessor.Min(|cs|, |scores|);
            && aligned == Picked(cs[..n], scores, true)
            && rejected == Picked(cs[..n], scores, false)
  {
    var n := DataProcessor.Min(|cs|, |scores|);
    aligned, rejected := [], [];
    var i := 0;
    while i < n
      invariant 0 <= i <= n
      invariant aligned == Picked(cs[..i], scores, true)
      invariant rejected == Picked(cs[..i], scores, false)
    {
      assert cs[..i + 1][..i] == cs[..i];
      if scores[i].isAligned {
        aligned := aligned + [cs[i]];
      } else {
        rejected := rejected + [cs[i]];
      }
      i := i + 1;
    }
  }

  // ---------------------------------------------------------------------------
  // Augmentation
  // ---------------------------------------------------------------------------

  /** The branching augmentation, followed by the mixing pass when enabled, so
      that with mixing every aligned conversation appears twice as an original. */
  function AugmentAligned(aligned: seq<Conversation>, useMixing: bool,
                          variantTape: nat -> VariantDraws, mixTape: nat -> MixDraws,
                          codec: Codec)
    : (r: seq<AugmentedConversation>)
    ensures Originals(r) == if useMixing then aligned + aligned else aligned
    ensures |aligned| <= |r| <= (if useMixing then 9 else 4) * |aligned|
  {
    var plain := AugmentConversations(aligned, variantTape, codec);
    if useMixing then
      var mixed := AugmentWithMixing(aligned, mixTape, codec);
      OriginalsAppend(plain, mixed);
      plain + mixed
    else plain
  }

  // ---------------------------------------------------------------------------
  // Statistics
  // ---------------------------------------------------------------------------

  /** How many of the first `n` entries carry `tag`. */
  function Occurrences(augs: seq<AugmentedConversation>, n: nat, tag: string): (r: nat)
    requires n <= |augs|
    ensures r <= n
  {
    if n == 0 then 0
    else Occurrences(augs, n - 1, tag) + (if augs[n - 1].augmentationType == tag then 1 else 0)
  }

  /** Each key appears once, as in a dict. */
  predicate DistinctKeys(counts: seq<(string, nat)>) {
    forall i, j :: 0 <= i < j < |counts| ==> counts[i].0 != counts[j].0
  }

  /** `tag` is one of the keys. */
  predicate Listed(counts: seq<(string, nat)>, tag: string) {
    exists i :: 0 <= i < |counts| && counts[i].0 == tag
  }

  /** `counts` is the tally of the first `n` entries: distinct keys, exactly the tags
      that occur, each with its (positive) number of occurrences. */
  ghost predicate Counted(counts: seq<(string, nat)>, augs: seq<AugmentedConversation>, n: nat)
    requires n <= |augs|
  {
    && DistinctKeys(counts)
    && (forall i :: 0 <= i < |counts| ==>
          counts[i].1 == Occurrences(augs, n, counts[i].0) && counts[i].1 > 0)
    && (forall t :: Occurrences(augs, n, t) > 0 ==> Listed(counts, t))
  }

  function Total(counts: seq<(string, nat)>): nat {
    if |counts| == 0 then 0 else Total(counts[..|counts| - 1]) + counts[|counts| - 1].1
  }

  lemma {:induction false} TotalBump(counts: seq<(string, nat)>, j: nat)
    requires j < |counts|
    ensures Total(counts[j := (counts[j].0, counts[j].1 + 1)]) == Total(counts) + 1
  {
    var bumped := counts[j := (counts[j].0, counts[j].1 + 1)];
    var m := |counts| - 1;
    if j < m {
      TotalBump(counts[..m], j);
      assert bumped[..m] == counts[..m][j := (counts[j].0, counts[j].1 + 1)];
    } else {
      assert bumped[..m] == counts[..m];
    }
  }

  /** The position of `tag` among the keys, if present. */
  function KeyIndex(counts: seq<(string, nat)>, tag: string): (r: Option<nat>)
    ensures r.Some? ==> r.value < |counts| && counts[r.value].0 == tag
    ensures r.None? ==> !Listed(counts, tag)
  {
    if |counts| == 0 then None
    else if counts[|counts| - 1].0 == tag then Some(|counts| - 1)
    else KeyIndex(counts[..|counts| - 1], tag)
  }

  /** `type_counts[t] = type_counts.get(t, 0) + 1`: an existing key is bumped in place,
      a new one is appended with count 1; nothing else changes. */
  function Tally(counts: seq<(string, nat)>, tag: string): (next: seq<(string, nat)>)
    requires DistinctKeys(counts)
    ensures DistinctKeys(next)
    ensures |next| == if Listed(counts, tag) then |counts| else |counts| + 1
    ensures forall i :: 0 <= i < |counts| ==> next[i].0 == counts[i].0
    ensures forall i :: 0 <= i < |counts| ==>
              next[i].1 == counts[i].1 + (if counts[i].0 == tag then 1 else 0)
    ensures !Listed(counts, tag) ==> next[|counts|] == (tag, 1)
    ensures Listed(next, tag)
    ensures Total(next) == Total(counts) + 1
  {
    match KeyIndex(counts, tag)
    case Some(j) =>
      TotalBump(counts, j);
      var next := counts[j := (tag, counts[j].1 + 1)];
      assert next[j].0 == tag;
      next
    case None =>
      var next := counts + [(tag, 1)];
      assert next[..|counts|] == counts;
      assert next[|counts|].0 == tag;
      next
  }

  /** Tallying one more entry keeps the tally exact. */
  lemma TallyCounts(counts: seq<(string, nat)>, augs: seq<AugmentedConversation>, n: nat)
    requires n < |augs| && Counted(counts, augs, n)
    ensures Counted(Tally(counts, augs[n].augmentationType), augs, n + 1)
  {
    var tag := augs[n].augmentationType;
    var next := Tally(counts, tag);
    forall t | Occurrences(augs, n + 1, t) > 0
      ensures Listed(next, t)
    {
      if t != tag {
        assert Occurrences(augs, n, t) > 0;
        assert Listed(counts, t);
        var i :| 0 <= i < |counts| && counts[i].0 == t;
        assert next[i].0 == t;
      }
    }
    forall i | 0 <= i < |next|
      ensures next[i].1 == Occurrences(augs, n + 1, next[i].0) && next[i].1 > 0
    {
      if i == |counts| {
        assert next[i] == (tag, 1);
        assert Occurrences(augs, n, tag) == 0;
      }
    }
  }

  /** The tally of the first `n` entries. */
  function TallyUpTo(augs: seq<AugmentedConversation>, n: nat): (counts: seq<(string, nat)>)
    requires n <= |augs|
    ensures Counted(counts, augs, n)
    ensures Total(counts) == n
  {
    if n == 0 then []
    else
      var prev := TallyUpTo(augs, n - 1);
      TallyCounts(prev, augs, n - 1);
      Tally(prev, augs[n - 1].augmentationType)
  }

  /** The `type_counts` loop: one entry per tag, in order of first appearance, whose
      count is the number of entries carrying that tag; the counts add up to the
      number of entries. */
  method TypeCounts(augs: seq<AugmentedConversation>) returns (counts: seq<(string, nat)>)
    ensures Counted(counts, augs, |augs|)
    ensures Total(counts) == |augs|
  {
    counts := [];
    var n := 0;
    while n < |augs|
      invariant 0 <= n <= |augs|
      invariant counts == TallyUpTo(augs, n)
    {
      counts := Tally(counts, augs[n].augmentationType);
      n := n + 1;
    }
  }

  /** The sum of the label scores. */
  function ScoreSum(augs: seq<AugmentedConversation>): real {
    if |augs| == 0 then 0.0 else ScoreSum(augs[..|augs| - 1]) + augs[|augs| - 1].labelScore
  }

  /** `sum(label_scores) / len(label_scores)`: the average, or ZeroDivisionError on an
      empty list, which ends the run. */
  function AverageLabelScore(augs: seq<AugmentedConversation>): (r: Result<real>)
    ensures r.Fail? <==> |augs| == 0
    ensures r.Fail? ==> r.error == ZeroDivisionError
    ensures r.Success? ==> r.value * (|augs| as real) == ScoreSum(augs)
  {
    if |augs| == 0 then Fail(ZeroDivisionError) else Success(ScoreSum(augs) / (|augs| as real))
  }

  lemma {:induction false} ScoreSumBounds(augs: seq<AugmentedConversation>, lo: real, hi: real)
    requires forall k :: 0 <= k < |augs| ==> lo <= augs[k].labelScore <= hi
    ensures lo * (|augs| as real) <= ScoreSum(augs) <= hi * (|augs| as real)
  {
    if |augs| > 0 {
      ScoreSumBounds(augs[..|augs| - 1], lo, hi);
    }
  }

  /** The average lies within any bounds every label score lies within. */
  lemma AverageWithin(augs: seq<AugmentedConversation>, lo: real, hi: real)
    requires |augs| > 0
    requires forall k :: 0 <= k < |augs| ==> lo <= augs[k].labelScore <= hi
    ensures lo <= AverageLabelScore(augs).value <= hi
  {
    ScoreSumBounds(augs, lo, hi);
    var n := |augs| as real;
    var a := AverageLabelScore(augs).value;
    assert a * n == ScoreSum(augs);
    assert (a - lo) * n >= 0.0;
    assert (hi - a) * n >= 0.0;
  }

  // ---------------------------------------------------------------------------
  // Records
  // ---------------------------------------------------------------------------

  function Flatten(turns: seq<Turn>): (r: seq<(string, string)>)
    ensures |r| == |turns|
  {
    if |turns| == 0 then []
    else Flatten(turns[..|turns| - 1]) + [(turns[|turns| - 1].role, turns[|turns| - 1].content)]
  }

  function Unflatten(pairs: seq<(string, string)>): (r: seq<Turn>) {
    if |pairs| == 0 then []
    else Unflatten(pairs[..|pairs| - 1]) + [Turn(pairs[|pairs| - 1].0, pairs[|pairs| - 1].1)]
  }

  lemma {:induction false} FlattenRoundTrip(turns: seq<Turn>)
    ensures Unflatten(Flatten(turns)) == turns
  {
    if |turns| > 0 {
      var m := |turns| - 1;
      FlattenRoundTrip(turns[..m]);
      var f := Flatten(turns);
      assert f[..m] == Flatten(turns[..m]);
      assert turns == turns[..m] + [turns[m]];
    }
  }

  /** One output dict: the turns as (role, content) pairs and the other fields as they are. */
  function RecordOf(a: AugmentedConversation): Record {
    Record(Flatten(a.conversation.turns), a.conversation.domain, a.conversation.action,
           a.conversation.description, a.labelScore, a.augmentationType)
  }

  /** Reads an augmented conversation back out of a record. */
  function AugmentedOf(r: Record): AugmentedConversation {
    AugmentedConversation(Conversation(Unflatten(r.conversation), r.domain, r.action, r.description),
                          r.augmentationType, r.labelScore)
  }

  /** Flattening loses nothing: the record reads back as the conversation it came from. */
  lemma RecordRoundTrip(a: AugmentedConversation)
    ensures AugmentedOf(RecordOf(a)) == a
  {
    FlattenRoundTrip(a.conversation.turns);
  }

  /** `_format_final_dataset`: one record per augmented conversation, in order, each
      reading back as that conversation. */
  function FormatDataset(augs: seq<AugmentedConversation>): (r: seq<Record>)
    ensures |r| == |augs|
    ensures forall k :: 0 <= k < |r| ==> AugmentedOf(r[k]) == augs[k]
  {
    if |augs| == 0 then []
    else
      var m := |augs| - 1;
      RecordRoundTrip(augs[m]);
      FormatDataset(augs[..m]) + [RecordOf(augs[m])]
  }

  /** `if len(final) > target: final = final[:target]`. */
  function Truncate<T>(final: seq<T>, target: int): (r: seq<T>)
    ensures target >= 0 ==> r == final[..DataProcessor.Min(|final|, target)]
    ensures target < 0 ==> r == final[..DataProcessor.Max(0, |final| + target)]
  {
    if |final| > target then PySlice(final, 0, target) else final
  }

  /** With a non-negative target, truncating twice is truncating once. */
  lemma TruncateIdempotent<T>(final: seq<T>, target: int)
    requires target >= 0
    ensures Truncate(Truncate(final, target), target) == Truncate(final, target)
  {
    var once := Truncate(final, target);
    assert once[..DataProcessor.Min(|once|, target)] == once;
  }

  // ---------------------------------------------------------------------------
  // The whole run
  // ---------------------------------------------------------------------------

  /** What each step of a successful run produced. */
  datatype Trace = Trace(
    requests: seq<PolicyGenerator.PolicyRequest>, policies: seq<Policy>,
    conversations: seq<Conversation>, scores: seq<AlignmentScore>,
    aligned: seq<Conversation>, rejected: seq<Conversation>,
    augmented: seq<AugmentedConversation>)

  /** Intent processing: one policy request per intent `process_intents` keeps. */
  function Requests(data: DataProcessor.Corpus, cfg: Config): (r: seq<PolicyGenerator.PolicyRequest>)
    ensures r == IntentRequests(DataProcessor.ProcessIntents(data, cfg.targetSize, cfg.maxSamplesPerIntent))
  {
    var intents := DataProcessor.ProcessIntents(data, cfg.targetSize, cfg.maxSamplesPerIntent);
    CapIsNoOp(data, cfg.targetSize, cfg.maxSamplesPerIntent);
    CapIntents(IntentRequests(intents), cfg.targetSize)
  }

  /** The split into aligned and rejected conversations, and the augmentation of
      the aligned ones. */
  function Filtered(conversations: seq<Conversation>, scores: seq<AlignmentScore>,
                    cfg: Config, env: Environment)
    : (r: (seq<Conversation>, seq<Conversation>, seq<AugmentedConversation>))
    requires |conversations| <= |scores|
    ensures r.0 == Picked(conversations, scores, true)
    ensures r.1 == Picked(conversations, scores, false)
    ensures Originals(r.2) == (if cfg.useMixing then r.0 + r.0 else r.0)
    ensures |r.0| <= |r.2| <= 9 * |r.0|
  {
    var aligned := Picked(conversations, scores, true);
    var augmented := AugmentAligned(aligned, cfg.useMixing, env.variantTape, env.mixTape, env.codec);
    (aligned, Picked(conversations, scores, false), augmented)
  }

  /** Generation and evaluation: one policy per request, one conversation per policy, filed under
      it, and one score per conversation, each verdict the threshold comparison of its
      score. */
  function Generated(requests: seq<PolicyGenerator.PolicyRequest>, cfg: Config, env: Environment)
    : (r: Result<(seq<Policy>, seq<Conversation>, seq<AlignmentScore>)>)
    ensures r.Success? ==>
              var (policies, conversations, scores) := r.value;
              && |policies| == |requests|
              && |conversations| == |policies| && |scores| == |conversations|
              && (forall k :: 0 <= k < |conversations| ==>
                    conversations[k].domain == policies[k].domain
                    && conversations[k].action == policies[k].action
                    && conversations[k].description == policies[k].description)
              && (forall k :: 0 <= k < |scores| ==>
                    (scores[k].isAligned <==> scores[k].score >= cfg.threshold))
  {
    var policies :- PolicyGenerator.GeneratePolicies(requests, env.policyReplies, env.codec);
    var conversations :- ConversationSynthesizer.GenerateConversations(
      policies, cfg.minTurns, cfg.maxTurns, env.turnDraws, env.conversationReplies, env.codec);
    var scores :- AlignmentEvaluator.EvaluateBatch(
      conversations, env.evaluationReplies, cfg.threshold, env.codec);
    AlignmentEvaluator.BatchVerdicts(conversations, env.evaluationReplies, cfg.threshold, env.codec);
    Success((policies, conversations, scores))
  }

  /** Every stage before the statistics: the first exception of a batch ends the run. */
  function Steps(data: DataProcessor.Corpus, cfg: Config, env: Environment): (r: Result<Trace>)
    ensures r.Success? ==>
              var t := r.value;
              && t.requests == IntentRequests(DataProcessor.ProcessIntents(data, cfg.targetSize, cfg.maxSamplesPerIntent))
              && |t.policies| == |t.requests| && |t.conversations| == |t.policies|
              && |t.scores| == |t.conversations|
              && (forall k :: 0 <= k < |t.conversations| ==>
                    t.conversations[k].domain == t.policies[k].domain
                    && t.conversations[k].action == t.policies[k].action
                    && t.conversations[k].description == t.policies[k].description)
              && (forall k :: 0 <= k < |t.scores| ==>
                    (t.scores[k].isAligned <==> t.scores[k].score >= cfg.threshold))
              && t.aligned == Picked(t.conversations, t.scores, true)
              && t.rejected == Picked(t.conversations, t.scores, false)
              && Originals(t.augmented) == (if cfg.useMixing then t.aligned + t.aligned else t.aligned)
              && |t.aligned| <= |t.augmented| <= 9 * |t.aligned|
  {
    var requests := Requests(data, cfg);
    var generated :- Generated(requests, cfg, env);
    var (policies, conversations, scores) := generated;
    var (aligned, rejected, augmented) := Filtered(conversations, scores, cfg, env);
    Success(Trace(requests, policies, conversations, scores, aligned, rejected, augmented))
  }

  /** The statistics and the output: the statistics, which divide by the number of augmented
      conversations, then one record per conversation, cut to the target size. */
  function Finish(augmented: seq<AugmentedConversation>, target: int): (r: Result<seq<Record>>)
    ensures r.Success? <==> |augmented| > 0
    ensures r.Success? && target >= 0 ==> |r.value| == DataProcessor.Min(|augmented|, target)
    ensures r.Success? && target < 0 ==> |r.value| == DataProcessor.Max(0, |augmented| + target)
    ensures r.Success? ==> forall k :: 0 <= k < |r.value| ==> AugmentedOf(r.value[k]) == augmented[k]
    ensures |augmented| == 0 ==> r == Fail(ZeroDivisionError)
  {
    var _ :- AverageLabelScore(augmented);
    Success(Truncate(FormatDataset(augmented), target))
  }

  /** `run_pipeline`: the statistics step fails on an empty augmentation, and the
      records are cut to the target size. */
  function RunPipeline(data: DataProcessor.Corpus, cfg: Config, env: Environment)
    : (r: Result<seq<Record>>)
    ensures r.Success? <==> Steps(data, cfg, env).Success? && |Steps(data, cfg, env).value.augmented| > 0
    ensures r.Success? ==>
              var augmented := Steps(data, cfg, env).value.augmented;
              && |r.value| == DataProcessor.Min(|augmented|, cfg.targetSize)
              && forall k :: 0 <= k < |r.value| ==> AugmentedOf(r.value[k]) == augmented[k]
    ensures Steps(data, cfg, env).Success? && |Steps(data, cfg, env).value.augmented| == 0 ==>
              r == Fail(ZeroDivisionError)
  {
    AugmentedNeedsTwo(data, cfg, env);
    var t :- Steps(data, cfg, env);
    Finish(t.augmented, cfg.targetSize)
  }

  /** Anything augmented means a target of at least two: below that no intent is kept,
      so nothing is generated, judged or augmented. */
  lemma AugmentedNeedsTwo(data: DataProcessor.Corpus, cfg: Config, env: Environment)
    ensures Steps(data, cfg, env).Success? && |Steps(data, cfg, env).value.augmented| > 0 ==>
              cfg.targetSize >= 2
  {
    var r := Steps(data, cfg, env);
    if r.Success? && |r.value.augmented| > 0 {
      var t := r.value;
      assert |t.aligned| > 0;
      SplitIsComplete(t.conversations, t.scores);
      var intents := DataProcessor.ProcessIntents(data, cfg.targetSize, cfg.maxSamplesPerIntent);
      assert |intents| > 0;
    }
  }

  /** A run that succeeds had a target of at least two; below that the statistics
      divide by zero. */
  lemma SuccessNeedsTwo(data: DataProcessor.Corpus, cfg: Config, env: Environment)
    ensures RunPipeline(data, cfg, env).Success? ==> cfg.targetSize >= 2
  {
    AugmentedNeedsTwo(data, cfg, env);
  }

  /** A successful run yields between one and `target_dataset_size` records. */
  lemma RunSize(data: DataProcessor.Corpus, cfg: Config, env: Environment)
    ensures RunPipeline(data, cfg, env).Success? ==>
              0 < |RunPipeline(data, cfg, env).value| <= cfg.targetSize
  {
    SuccessNeedsTwo(data, cfg, env);
  }
}
