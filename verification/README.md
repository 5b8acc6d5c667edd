# archdata dataset pipeline — a Dafny model

archdata builds an intent-routing dataset in seven steps:

1. Read the CLINC150 corpus and keep a few intents, each with example utterances.
2. Ask a language model (LLM-1) for a routing policy per intent: domain, action and description.
3. Ask LLM-2 for a conversation that follows each policy.
4. Ask LLM-3 how well each conversation follows its policy, and keep the aligned ones.
5. Augment the aligned ones. Paraphrase, noise and irrelevant variants are always possible; domain-mixed variants are added when mixing is on.
6. Flatten everything into records.
7. Cut the records to the target size.

This project models that logic in Dafny and proves what the code guarantees. Every backend reply and every random draw is an explicit input.

- **Backend replies.** A reply is an `Option<string>`. `None` stands for a call that raised or returned no content. A batch stage receives its replies as a function of the item's position and the request built for it. The request records what the prompt is built from.
- **Random draws.** `random.random()` becomes a real in [0, 1) compared with the gate's rate. `randint`, `sample` and `choice` become natural-number picks, taken modulo the pool size.
- **Decoding.** `json.loads` and `float(str)` are foreign parsers, passed in as a `Codec` of two partial functions. Pydantic's constructions from decoded JSON are modelled in `Models`: `ConversationTurn(**turn)`, `Policy(**result)` and the `turns` list. They follow pydantic 2 in lax mode: a `str` field accepts only a JSON string, and extra keys are ignored. Pydantic 1 would coerce a number to a string, and that would change `TurnOf`, `PolicyOf` and `Verdict`.
- **Exceptions.** They become a `Result`. Its failure records the Python class that leaves the stage (`ValueError`, `RuntimeError`, `UnboundLocalError` or `ZeroDivisionError`), together with the underlying cause.

Modules, one per source file:

- `Base`: `Option`, `Result` and the fail-fast batch loop.
- `PyText`: Python string operations on `seq<char>`: `strip`, `find`, `rfind`, `split`, `join`, `replace`, slicing with negative indices, and string order.
- `Json` and `Models`: the decoded values and the records.
- `Formatter`: `format_conversation`.
- `DataProcessor`: intent extraction from an in-memory corpus.
- `PolicyGenerator`: LLM-1.
- `ConversationSynthesizer`: LLM-2.
- `AlignmentEvaluator`: LLM-3.
- `AugmentationParse`: `ConversationResponse.from_llm_response`.
- `Augmentation`: the augmentation module.
- `Pipeline`: `ArchRouterPipeline.run_pipeline`.

Behaviour of the code as written that the model keeps, and proves:

- **Lost examples with a non-positive sample bound.** With `max_samples_per_intent <= 0`, the outer split loop of `process_intents` stops after the first split that is present. An intent whose label first occurs in a later split therefore keeps no example (`DataProcessor.NonPositiveBoundDropsExamples`).
- **Unterminated code fence.** The augmentation parser leaves `json_str` unassigned when a code fence is never closed. That raises `UnboundLocalError` outside the parser's `try` (`AugmentationParse.UnterminatedFence`, `AugmentationParse.ParseTurns`). Each augmentation branch then turns it into a `RuntimeError`, and the variant is dropped.
- **The non-greedy bracket rule cuts short.** The parser's candidate ends at the first `]` after the first `[`. An array whose strings contain `]` is therefore cut short (`AugmentationParse.NonGreedyMatch`).
- **A successful run needs a target of two or more.** `target_dataset_size // 2` intents are kept. Below 2 nothing is generated, and the statistics step divides by zero (`Pipeline.SuccessNeedsTwo`).
- **Unclamped scores.** A decoded score is stored exactly as decoded, outside [0, 1] included (`AlignmentEvaluator.ScoreIsNotClamped`).

## Model

| member | source | states |
|---|---|---|
| Base.Batch | src/phase1/llm1_policy_generator.py:54-62 | The fail-fast loop shared by the three batch methods: it succeeds exactly when every item's call succeeds, with one result per item in order, and a failure is the failure of some item's call. |
| PyText.StripLeftCuts | src/phase1/llm2_conversation_synthesizer.py:42 | The leading half of `strip()`: what is kept is a suffix that does not open with whitespace, and everything cut before it is whitespace. |
| PyText.StripRightCuts | src/phase1/llm2_conversation_synthesizer.py:42 | The trailing half of `strip()`: what is kept is a prefix that does not end in whitespace, and everything cut after it is whitespace. |
| PyText.StripTrims | src/phase1/llm2_conversation_synthesizer.py:42 | `str.strip()` leaves a window of the input with no whitespace at either end, and everything it cut away is whitespace. |
| PyText.StripUnchanged | src/phase1/llm2_conversation_synthesizer.py:42 | A string with no whitespace at either end strips to itself. |
| PyText.IndexOf | src/phase1/llm2_conversation_synthesizer.py:45 | `find` of one character: absent exactly when the character does not occur; otherwise the position of its first occurrence. |
| PyText.LastIndexOf | src/phase1/llm2_conversation_synthesizer.py:46 | `rfind` of one character: absent exactly when the character does not occur; otherwise an occurrence with none after it. |
| PyText.LastIndexOfIs | src/phase1/llm2_conversation_synthesizer.py:46 | The occurrence after which the character no longer appears is the one `rfind` returns. |
| PyText.FindFrom | src/phase2/augmentation_module.py:34-35 | `find(p, start)`: the first occurrence at or after `start`, or none when there is no occurrence there at all. |
| PyText.Split | src/phase1/llm2_conversation_synthesizer.py:58 | `split("\n")` gives at least one piece, no piece holds the separator, and joining the pieces gives the input back. |
| PyText.SplitJoin | src/phase1/llm2_conversation_synthesizer.py:58-70 | Splitting a join of separator-free pieces gives the pieces back: the two operations are inverse on such pieces. |
| PyText.CountJoin | src/utils/conversation_formatter.py:9 | Joining n separator-free pieces puts exactly n - 1 separators in. |
| PyText.JoinEnds | src/utils/conversation_formatter.py:9 | A join starts with its first piece and ends with its last. |
| PyText.JoinAppend | src/utils/conversation_formatter.py:9 | Joining two non-empty lists one after the other is joining each, with one separator between the results. |
| PyText.ClampNormal | src/phase1/llm1_policy_generator.py:39 | A normalised slice index is already normal, and normalising keeps the order of two indices of the same sign. |
| PyText.NegativeIndexFromEnd | src/phase1/llm1_policy_generator.py:39 | A negative slice bound names the same place as that bound plus the length, so `s[a - len(s):b]` is `s[a:b]`, and likewise for the end, for bounds below the length. |
| PyText.PySlice | src/phase1/llm1_policy_generator.py:39 | `s[a:b]` agrees with the plain slice for in-range bounds, with the prefix for a zero start, and is empty when the end is not after the start. |
| PyText.PySliceSplit | src/phase1/llm1_policy_generator.py:39 | `s[a:m] + s[m:b]` is `s[a:b]` for any 0 ≤ a ≤ m ≤ b, past the end included: slicing loses and duplicates nothing. |
| PyText.LexLessIrreflexive | src/phase1/data_processor.py:43 | Python's string order is irreflexive. |
| PyText.LexLessTransitive | src/phase1/data_processor.py:43 | Python's string order is transitive. |
| PyText.LexLessTotal | src/phase1/data_processor.py:43 | Two different strings are always ordered one way or the other. |
| Models.TurnRoundTrip | src/models/conversation.py:5-9 | `ConversationTurn(**turn)` on an object carrying a turn's role and content as strings gives that turn back, whatever other keys the object holds. |
| Models.TurnsOfItems | src/phase2/augmentation_module.py:57 | A list of turn objects converts exactly when every element does, element by element, in order. |
| Models.TurnsRoundTrip | src/phase1/llm2_conversation_synthesizer.py:72 | A list of such objects converts back to exactly the turns, in order. |
| Models.PolicyRoundTrip | src/phase1/llm1_policy_generator.py:48 | `Policy(**result)` on an object carrying a policy's domain, action and description as strings gives that policy back, whatever other keys it holds. |
| Formatter.LinesAppend | src/utils/conversation_formatter.py:6-8 | Rendering is per turn: the lines of two turn lists one after the other are the lines of each. |
| Formatter.FormatConversation | src/utils/conversation_formatter.py:4-9 | No turns format to "". Otherwise the text opens with the first turn's `role: ` and ends with the last turn's line. |
| Formatter.OneTurnTranscript | src/utils/conversation_formatter.py:4-9 | A one-turn transcript is exactly that turn's `role: content` line, line breaks inside the content included. |
| Formatter.TranscriptLines | src/utils/conversation_formatter.py:7-9 | When no role or content holds a line break, splitting the transcript at line breaks gives back the turns' lines. The text has exactly #turns − 1 line breaks, and line i opens with turn i's role and ": ". |
| Formatter.TranscriptAppend | src/utils/conversation_formatter.py:4-9 | The transcript of two non-empty turn lists one after the other is the two transcripts separated by a single line break. |
| DataProcessor.ExtractDomainAction | src/phase1/data_processor.py:18-27 | With an underscore, the domain is the text before the first one and `domain + "_" + action` is the name. Without one, the result is ("general", name). The domain never holds an underscore. |
| DataProcessor.LabelsIn | src/phase1/data_processor.py:38-40 | The labels collected from a split are exactly the second cells of its list items of length ≥ 2. |
| DataProcessor.AllLabels | src/phase1/data_processor.py:35-40 | A label is collected exactly when it labels such an item in a present train, val or test split. |
| DataProcessor.SortedIsDistinct | src/phase1/data_processor.py:43 | A strictly increasing list has no repeats. |
| DataProcessor.Insert | src/phase1/data_processor.py:35-40 | Adding a label to the sorted label set keeps it strictly increasing, and it then holds exactly the old labels and the new one. |
| DataProcessor.SortDistinct | src/phase1/data_processor.py:43 | `sorted(set(xs))` is strictly increasing and holds exactly the elements of `xs`. |
| DataProcessor.SortedLabels | src/phase1/data_processor.py:34-43 | The labels iterated are strictly increasing and are exactly the collected labels. |
| DataProcessor.NotOos | src/phase1/data_processor.py:44 | Dropping "oos" keeps exactly the other labels. |
| DataProcessor.SelectIsPrefix | src/phase1/data_processor.py:42-47 | The intent loop keeps exactly the first `cap` labels other than "oos", because every later label is skipped once the count reaches the cap. |
| DataProcessor.LabelledHasUtterance | src/phase1/data_processor.py:53-59 | An item labelled with the intent contributes an utterance. |
| DataProcessor.ScanItemsTakes | src/phase1/data_processor.py:53-61 | The inner loop extends the list by a prefix of the split's matching utterances, in order. Starting short of the bound it stops when the list reaches the bound or the split runs out. At or past the bound it adds at most the one utterance that triggers the break. |
| DataProcessor.ScanSplitsTakes | src/phase1/data_processor.py:51-63 | The outer loop extends the list by a prefix of the utterances of train, then val, then test. Starting short of the bound it fills the list to the bound or runs out, and it never passes the bound by more than one utterance. |
| DataProcessor.Examples | src/phase1/data_processor.py:49-63 | An intent's examples are a prefix of its utterances in train→val→test order. The prefix has length at most max(1, max_samples_per_intent), and exactly min(#utterances, bound) for a positive bound. |
| DataProcessor.ProcessIntents | src/phase1/data_processor.py:29-74 | One intent per label kept, in sorted order, as many as min(#labels other than "oos", target // 2). Each has empty domain and action and the examples collected for it. |
| DataProcessor.IntentsChosen | src/phase1/data_processor.py:42-47 | No intent is "oos", the names strictly increase, there are at most target // 2 of them, and each name labels an item of some split. |
| DataProcessor.NotOosSorted | src/phase1/data_processor.py:43-44 | Dropping "oos" from a strictly increasing list keeps it strictly increasing. |
| DataProcessor.LabelHasUtterance | src/phase1/data_processor.py:35-59 | A label collected from the splits has at least one utterance under the same item filter. |
| DataProcessor.EveryIntentHasExamples | src/phase1/data_processor.py:49-63 | With a positive sample bound every produced intent has at least one example. |
| DataProcessor.TwoIntents | src/phase1/data_processor.py:42-72 | With exactly two labels other than "oos" and a target of at least 4, both intents are produced, in order, with their examples. |
| DataProcessor.NonPositiveBoundDropsExamples | src/phase1/data_processor.py:60-63 | With a sample bound of 0, the corpus `train: [("hi","a")], val: [("yo","b")]` yields intent "a" with ["hi"] and intent "b" with no example, because the outer loop breaks after train. |
| PolicyGenerator.BraceSliceWithoutClose | src/phase1/llm1_policy_generator.py:37-39 | Without a `}` the brace slice is empty: a failed `rfind` makes the slice end 0. |
| PolicyGenerator.BraceSliceSpans | src/phase1/llm1_policy_generator.py:37-39 | When the first `{` is not after the last `}`, the slice runs from that `{` through that `}`. |
| PolicyGenerator.BraceSliceEndsInBrace | src/phase1/llm1_policy_generator.py:37-39 | Whatever the brace slice keeps ends in `}`. |
| PolicyGenerator.PolicyCandidate | src/phase1/llm1_policy_generator.py:36-45 | Content not starting with a code fence goes to the decoder unchanged. Content starting with ```` ``` ```` or ```` ```json ```` is cut to the same brace slice in both branches. |
| PolicyGenerator.GeneratePolicy | src/phase1/llm1_policy_generator.py:25-52 | No reply raises RuntimeError. An undecodable candidate raises ValueError, and only it does. A decoded value becomes a policy exactly when it has the policy's string fields; otherwise RuntimeError. |
| PolicyGenerator.GeneratePolicies | src/phase1/llm1_policy_generator.py:54-62 | The batch succeeds exactly when every intent's call does, with one policy per intent, in order, each built from that intent's request. |
| PolicyGenerator.ProseIsNotCut | src/phase1/llm1_policy_generator.py:44-45 | A reply that opens with prose reaches the decoder whole; no braces are cut out of it. |
| PolicyGenerator.FencedObject | src/phase1/llm1_policy_generator.py:36-43 | A fenced reply whose fence holds no brace before the object and none after it yields exactly the object. |
| PolicyGenerator.FenceWithoutBrace | src/phase1/llm1_policy_generator.py:37-47 | A fenced reply with no `}` yields the empty candidate. |
| ConversationSynthesizer.TurnCount | src/phase1/llm2_conversation_synthesizer.py:29 | The requested turn count lies in [min_turns, max_turns]; an empty range raises ValueError. |
| ConversationSynthesizer.ArrayCandidate | src/phase1/llm2_conversation_synthesizer.py:45-51 | There is no candidate exactly when `[` or `]` is missing. Otherwise the candidate is the slice from the first `[` through the last `]`, or empty when the last `]` comes first. |
| ConversationSynthesizer.WrappedArray | src/phase1/llm2_conversation_synthesizer.py:45-51 | An array with no `[` before it and no `]` after it is cut out exactly. |
| ConversationSynthesizer.RunLines | src/phase1/llm2_conversation_synthesizer.py:61-68 | Once inside the array, the loop collects a contiguous run of lines. The run ends at the first later closing line, or at the end of the input. |
| ConversationSynthesizer.RunStep | src/phase1/llm2_conversation_synthesizer.py:65-68 | A line that does not close the array continues the run. |
| ConversationSynthesizer.FirstOpening | src/phase1/llm2_conversation_synthesizer.py:62-64 | The first line that opens the array, or none when no line does. |
| ConversationSynthesizer.OpeningRun | src/phase1/llm2_conversation_synthesizer.py:62-68 | A run started by an opening line is that line followed by the run up to the next closing line. |
| ConversationSynthesizer.SkippedRun | src/phase1/llm2_conversation_synthesizer.py:61-62 | Lines before the first opening line are skipped. |
| ConversationSynthesizer.FallbackRun | src/phase1/llm2_conversation_synthesizer.py:58-70 | The fallback collects nothing when no line opens the array. Otherwise it collects the contiguous run that starts at the first opening line and stops at the first later closing line or at the end. |
| ConversationSynthesizer.FallbackEmpty | src/phase1/llm2_conversation_synthesizer.py:58-70 | When no line's stripped text starts with `[`, the fallback text is "". |
| ConversationSynthesizer.FallbackStart | src/phase1/llm2_conversation_synthesizer.py:61-64 | The line the fallback starts on is the first whose stripped text starts with `[`. |
| ConversationSynthesizer.FallbackLines | src/phase1/llm2_conversation_synthesizer.py:58-70 | The fallback text is the reply's own lines, unstripped, from that line through the first later closing line (or to the end), joined with line breaks. |
| ConversationSynthesizer.GenerateConversation | src/phase1/llm2_conversation_synthesizer.py:27-83 | An empty turn range raises ValueError. No reply, or no array, raises RuntimeError. With an array, ValueError comes exactly when neither the candidate nor the line fallback decodes. Success comes exactly when the decoded data converts to turns, and then the conversation holds exactly those turns under the policy's domain, action and description. |
| ConversationSynthesizer.DecodedTurnsAreKept | src/phase1/llm2_conversation_synthesizer.py:45-79 | A stripped reply made of an array with no `[` before it and no `]` after it, whose array decodes to turns, yields exactly those turns under the policy's metadata. |
| ConversationSynthesizer.FallbackTurnsAreKept | src/phase1/llm2_conversation_synthesizer.py:54-79 | When the candidate does not decode but the line fallback decodes to turns, the conversation holds exactly those turns under the policy's metadata. |
| ConversationSynthesizer.GenerateConversations | src/phase1/llm2_conversation_synthesizer.py:85-93 | The batch succeeds exactly when every per-policy call succeeds. Conversation k is then the k-th call's result, filed under policy k's metadata. |
| ConversationSynthesizer.FiledUnderPolicy | src/phase1/llm2_conversation_synthesizer.py:74-93 | Each conversation of a batch carries the domain, action and description of the policy at its position. |
| ConversationSynthesizer.EmptyRangeFailsBatch | src/phase1/llm2_conversation_synthesizer.py:29-93 | An empty turn range fails any non-empty batch with ValueError. |
| AlignmentEvaluator.Verdict | src/phase1/llm3_alignment_evaluator.py:44-50 | A verdict exists exactly when the decoded value is an object whose score and reasoning convert. `is_aligned` holds exactly when score ≥ threshold. |
| AlignmentEvaluator.EvaluateAlignment | src/phase1/llm3_alignment_evaluator.py:35-54 | The whole stripped reply is decoded, with no extraction. ValueError comes exactly from a decode failure; any other failure is RuntimeError. A success's verdict is its threshold comparison. |
| AlignmentEvaluator.DefaultScoreIsRejected | src/phase1/llm3_alignment_evaluator.py:44-46 | A reply without a score is scored 0.5, which no threshold above 0.5, the default 0.9 among them, accepts. |
| AlignmentEvaluator.EmptyObjectDefaults | src/phase1/llm3_alignment_evaluator.py:44-46 | An object with neither key gets both defaults. |
| AlignmentEvaluator.ScoreIsNotClamped | src/phase1/llm3_alignment_evaluator.py:44-49 | Any decoded numeric score is stored exactly, outside [0, 1] included, and compared unclamped with the threshold. |
| AlignmentEvaluator.EvaluateBatch | src/phase1/llm3_alignment_evaluator.py:56-62 | The batch succeeds exactly when every conversation's evaluation does, with one score per conversation, in order. |
| AlignmentEvaluator.BatchVerdicts | src/phase1/llm3_alignment_evaluator.py:56-62 | Every verdict of a successful batch is the threshold comparison of its score. |
| AugmentationParse.NonGreedyMatch | src/phase2/augmentation_module.py:28-30 | There is a match exactly when some `]` follows some `[`. The match starts at the first `[` and ends at the first `]` after it, so it holds exactly one `]`, its last character. |
| AugmentationParse.NoCloseAfterFirstOpen | src/phase2/augmentation_module.py:28 | No `]` after the first `[` means no bracket pair anywhere. |
| AugmentationParse.FirstPair | src/phase2/augmentation_module.py:28 | The first `[` and the first `]` after it delimit the lazy match. |
| AugmentationParse.Candidate | src/phase2/augmentation_module.py:28-44 | A bracket pair decides the candidate. Without one, content with no fence is used whole; the fenced cases are stated by the fence lemmas below. |
| AugmentationParse.FenceMarkers | src/phase2/augmentation_module.py:33-38 | A ```` ```json ```` fence is also a ```` ``` ```` fence, so the second test is only reached without the first. |
| AugmentationParse.JsonFenceBody | src/phase2/augmentation_module.py:33-37 | With no bracket pair, a closed ```` ```json ```` fence gives the trimmed body up to the next ```` ``` ````. |
| AugmentationParse.JsonFenceChosen | src/phase2/augmentation_module.py:31-37 | With no bracket pair, a ```` ```json ```` fence takes precedence over a plain fence. |
| AugmentationParse.PlainFenceChosen | src/phase2/augmentation_module.py:31-42 | With no bracket pair and no ```` ```json ````, a plain ```` ``` ```` fence decides the candidate. |
| AugmentationParse.PlainFenceBody | src/phase2/augmentation_module.py:38-42 | With no bracket pair, a closed plain fence gives its trimmed body. |
| AugmentationParse.FencedBodyIs | src/phase2/augmentation_module.py:34-37 | The fence opened by the first marker and closed by the first ```` ``` ```` after it holds the text between them, trimmed. |
| AugmentationParse.UnterminatedFence | src/phase2/augmentation_module.py:33-47 | With no bracket pair, a ```` ```json ```` fence that is never closed leaves no candidate, so `json_str` is unbound. |
| AugmentationParse.UnterminatedPlainFence | src/phase2/augmentation_module.py:38-47 | With no bracket pair, a plain fence that is never closed leaves no candidate, so `json_str` is unbound. |
| AugmentationParse.RemoveHashComments | src/phase2/augmentation_module.py:48 | Text with no `#` passes unchanged, and the pass never lengthens its input. |
| AugmentationParse.HashPassClean | src/phase2/augmentation_module.py:48 | After the `#` pass, no `#` has a line break anywhere after it. |
| AugmentationParse.HashCommentDropped | src/phase2/augmentation_module.py:48 | The first `#` comment, through its line break, is removed and the text before it is kept; the pass then goes on after it. |
| AugmentationParse.HashCommentKept | src/phase2/augmentation_module.py:48 | A `#` with no line break after it is not a comment and is kept, with everything after it. |
| AugmentationParse.RemoveSlashComments | src/phase2/augmentation_module.py:49 | Text with no `//` passes unchanged, and the pass never lengthens its input. |
| AugmentationParse.SlashPassClean | src/phase2/augmentation_module.py:49 | After the `//` pass, no `//` has a line break anywhere after it, and the `#` guarantee survives. |
| AugmentationParse.SlashCommentDropped | src/phase2/augmentation_module.py:49 | The first `//` comment, through its line break, is removed and the text before it is kept; the pass then goes on after it. |
| AugmentationParse.SlashCommentKept | src/phase2/augmentation_module.py:49 | A `//` with no line break after it is not a comment and is kept, with everything after it. |
| AugmentationParse.CommentFreeSuffix | src/phase2/augmentation_module.py:48-49 | A suffix of comment-free text is comment-free. |
| AugmentationParse.DropSlashComment | src/phase2/augmentation_module.py:49 | Deleting the first `//` comment through its line break keeps the prefix clean and preserves the `#` guarantee. |
| AugmentationParse.WithComma | src/phase2/augmentation_module.py:52-53 | Each replacement is its pattern with a comma right after the `}`. |
| AugmentationParse.InsertsCommasTransitive | src/phase2/augmentation_module.py:52-53 | Two comma-inserting passes in a row only insert commas. |
| AugmentationParse.InsertsCommasChars | src/phase2/augmentation_module.py:52-53 | Inserting commas adds no character other than commas. |
| AugmentationParse.ReplaceInsertsCommas | src/phase2/augmentation_module.py:52-53 | `replace(p, p-with-comma)` only inserts commas. |
| AugmentationParse.ReplaceLeavesAbsent | src/phase2/augmentation_module.py:52-53 | After the replacement the pattern is gone, and a pattern already absent stays absent. |
| AugmentationParse.ReplaceAbsent | src/phase2/augmentation_module.py:52-53 | Replacing a pattern that does not occur changes nothing. |
| AugmentationParse.RepairCommas | src/phase2/augmentation_module.py:52-53 | The two repairs only insert commas, and afterwards neither `}\n    {` nor `}\n{` occurs. |
| AugmentationParse.RepairIdempotent | src/phase2/augmentation_module.py:52-53 | Repairing twice is repairing once. |
| AugmentationParse.CommaInsertionKeepsComments | src/phase2/augmentation_module.py:47-53 | Inserting commas after the comment passes does not bring a comment back. |
| AugmentationParse.Clean | src/phase2/augmentation_module.py:46-53 | The cleaned candidate has no `#` or `//` followed anywhere by a line break, and neither repair pattern occurs in it. What survives is stated by the comment lemmas above and `CleanWithoutComments`. |
| AugmentationParse.CleanWithoutComments | src/phase2/augmentation_module.py:46-53 | A candidate with no `#` and no `//` is only stripped and comma-repaired, so cleaning only inserts commas, and changes nothing beyond the strip when neither repair pattern occurs. |
| AugmentationParse.ParseTurns | src/phase2/augmentation_module.py:22-60 | An unbound candidate raises UnboundLocalError, outside the `try`. Every other failure is ValueError. |
| AugmentationParse.ParsedTurnsAreKept | src/phase2/augmentation_module.py:55-58 | A candidate that cleans to the JSON list of some turns' objects parses to exactly those turns, whatever other keys the objects hold. |
| Augmentation.LabelScore | src/phase2/augmentation_module.py:76-84 | original 0.95, paraphrase 0.9, noise 0.7, irrelevant and domain_mix 0.1, and any other tag 0.5. |
| Augmentation.ScoresOrdered | src/phase2/augmentation_module.py:77-83 | The scores order the tags original > paraphrase > noise > ½ > irrelevant = domain_mix. |
| Augmentation.Respond | src/phase2/augmentation_module.py:123-142 | No content, or content that does not parse, raises RuntimeError. Otherwise the parsed turns are wrapped with the given metadata, tag and tag score. |
| Augmentation.UserTurns | src/phase2/augmentation_module.py:96-98 | Exactly the positions of user turns, increasing. |
| Augmentation.Sample | src/phase2/augmentation_module.py:106-110 | Drawing k members without replacement gives min(k, pool size) members of the pool, distinct when the pool is. Its one caller passes k ≤ #user turns, where `random.sample` returns exactly k. |
| Augmentation.RemovedIsGone | src/phase2/augmentation_module.py:110 | Drawing without replacement removes the drawn member for good. |
| Augmentation.TurnCount | src/phase2/augmentation_module.py:106-109 | The number of turns to paraphrase lies between 1 and min(3, #user turns). |
| Augmentation.SelectionIsUserTurns | src/phase2/augmentation_module.py:96-110 | What is sampled from the user positions is a distinct set of user-turn positions. |
| Augmentation.Paraphrase | src/phase2/augmentation_module.py:95-142 | With no user turn, the source comes back unchanged, tagged paraphrase at 0.9, and the backend is not asked. Otherwise 1 to 3 distinct user turns are selected, and the reply's turns keep the source's domain, action and description. |
| Augmentation.Noise | src/phase2/augmentation_module.py:144-175 | The request is the transcript. A success keeps the source's domain, action and description, tagged noise. |
| Augmentation.IrrelevantConversation | src/phase2/augmentation_module.py:177-211 | The request is the domain and action. A success is always `irrelevant` / `irrelevant_chat` with the fixed description, tagged irrelevant. |
| Augmentation.MixedConversation | src/phase2/augmentation_module.py:213-245 | The request holds both domains and both transcripts. A success is always `mixed` / `mixed_domains` with the fixed description, tagged domain_mix. |
| Augmentation.ExtendVariants | src/phase2/augmentation_module.py:260-279 | Appending at most one result of a later tag keeps the variant list well formed, and adds exactly that tag. |
| Augmentation.ParaphraseStep | src/phase2/augmentation_module.py:260-265 | The paraphrase branch contributes one entry exactly when its gate opens and the attempt succeeds. |
| Augmentation.NoiseStep | src/phase2/augmentation_module.py:267-272 | The noise branch contributes one entry exactly when its gate opens and the attempt succeeds. |
| Augmentation.IrrelevantStep | src/phase2/augmentation_module.py:274-279 | The irrelevant branch contributes one entry exactly when its gate opens and the attempt succeeds. |
| Augmentation.Assemble | src/phase2/augmentation_module.py:250-281 | Assembly gives the original first and 1 to 4 entries. The tags come in the order original, paraphrase, noise, irrelevant, each at most once, and there is no domain_mix. |
| Augmentation.CreateVariants | src/phase2/augmentation_module.py:247-281 | Element 0 is the unmodified source at 0.95, and there are 1 to 4 entries in tag order. Each later tag is present exactly when its gate opened and its attempt succeeded. |
| Augmentation.FailedParaphraseIsSkipped | src/phase2/augmentation_module.py:260-265 | A failed paraphrase is the same as one never drawn: the siblings are unaffected. |
| Augmentation.FailedNoiseIsSkipped | src/phase2/augmentation_module.py:267-272 | A failed noise attempt is the same as one never drawn. |
| Augmentation.FailedIrrelevantIsSkipped | src/phase2/augmentation_module.py:274-279 | A failed irrelevant attempt is the same as one never drawn. |
| Augmentation.ClosedGatesKeepOriginal | src/phase2/augmentation_module.py:250-281 | With every gate shut, the original alone comes back, whatever the replies. |
| Augmentation.OriginalsAppend | src/phase2/augmentation_module.py:290 | The originals of a concatenation are the originals of each part, in order. |
| Augmentation.OriginalsOfHead | src/phase2/augmentation_module.py:252-258 | A list that opens with an original and has none after it has that one original. |
| Augmentation.VariantOriginals | src/phase2/augmentation_module.py:250-281 | A variant list holds exactly one original: its source. |
| Augmentation.AugmentConversations | src/phase2/augmentation_module.py:283-292 | The originals of the batch are the input conversations, in order, and the batch has K to 4K entries. |
| Augmentation.Domains | src/phase2/augmentation_module.py:299-303 | The keys of `domain_groups` are each domain of the input once. |
| Augmentation.DomainsGrow | src/phase2/augmentation_module.py:299-303 | Keys are added in order of first appearance: the domains of any prefix of the input are a prefix of the domains of the whole. |
| Augmentation.Group | src/phase2/augmentation_module.py:299-303 | A domain's group holds only input conversations of that domain, and holds every one of them; it is non-empty exactly for the domains present. |
| Augmentation.GroupCounts | src/phase2/augmentation_module.py:299-303 | Each conversation of the domain appears in the group exactly as often as in the input, and no other conversation appears. |
| Augmentation.GroupAppend | src/phase2/augmentation_module.py:299-303 | Appending keeps input order: the group of a concatenation is the group of the first part followed by the group of the second. |
| Augmentation.OtherDomain | src/phase2/augmentation_module.py:310-314 | With more than one domain, the partner domain is a key other than the conversation's own. |
| Augmentation.Without | src/phase2/augmentation_module.py:310-312 | Exactly the keys other than the given one. |
| Augmentation.MixPartner | src/phase2/augmentation_module.py:309-315 | A partner is drawn exactly when the mixing gate opens and there are several domains, and it comes from a different domain. |
| Augmentation.MixRound | src/phase2/augmentation_module.py:305-322 | A round is the conversation's variants followed by at most one mixed conversation. The mixed one is there exactly when a partner was drawn and mixing succeeded. |
| Augmentation.MixRounds | src/phase2/augmentation_module.py:305-324 | The rounds so far have the conversations so far as their originals, in order, and between n and 5n entries. |
| Augmentation.MixRoundOriginals | src/phase2/augmentation_module.py:305-322 | A round has exactly one original: its conversation. |
| Augmentation.AugmentWithMixing | src/phase2/augmentation_module.py:294-324 | K originals in order, and K to 5K entries: at most one domain_mix per conversation. |
| Augmentation.NoPartnerRound | src/phase2/augmentation_module.py:309 | With a single domain, a round adds no mixed conversation. |
| Augmentation.AugmentStep | src/phase2/augmentation_module.py:288-290 | The plain augmentation of a longer prefix extends that of the shorter one by the next conversation's variants. |
| Augmentation.SingleDomainNoMixing | src/phase2/augmentation_module.py:294-324 | With a single domain, mixing adds nothing: the result equals the plain augmentation under the same variant draws. |
| Pipeline.CapIntents | src/pipeline.py:69-72 | The first min(n, target // 2) requests, with Python's reading of a negative bound. |
| Pipeline.CapIsNoOp | src/pipeline.py:69-72 | The cap changes nothing on what `process_intents` returns, which is already capped at the same bound. |
| Pipeline.Picked | src/pipeline.py:89-93 | Each side of the split is no longer than the input. |
| Pipeline.Chosen | src/pipeline.py:89-90 | The positions whose verdict is the wanted one, increasing. |
| Pipeline.PickedInOrder | src/pipeline.py:86-93 | Each side of the split is exactly the conversations whose verdict is the wanted one, in input order. |
| Pipeline.SplitIsComplete | src/pipeline.py:86-93 | Together the aligned and rejected lists hold every conversation exactly once. |
| Pipeline.SplitByVerdict | src/pipeline.py:86-93 | The `zip` loop: the split of the first min(#conversations, #scores) entries. |
| Pipeline.AugmentAligned | src/pipeline.py:101-111 | Only aligned conversations are augmented. With mixing, the plain batch is followed by the mixing batch, so every aligned conversation appears twice as an original. |
| Pipeline.Occurrences | src/pipeline.py:156-159 | The count of a tag among the first n entries is at most n. |
| Pipeline.TotalBump | src/pipeline.py:159 | Bumping one count raises the total by one. |
| Pipeline.KeyIndex | src/pipeline.py:159 | The position of a key in the counts, or none when it is not listed. |
| Pipeline.Tally | src/pipeline.py:159 | `get(t, 0) + 1`: an existing key is bumped in place, and a new key is appended with count 1. The keys stay distinct and the total grows by one. |
| Pipeline.TallyCounts | src/pipeline.py:157-159 | Tallying one more entry keeps every count exact. |
| Pipeline.TallyUpTo | src/pipeline.py:156-159 | The tally of the first n entries is exact and totals n. |
| Pipeline.TypeCounts | src/pipeline.py:156-159 | The per-type counts are exact, each key is listed once, and the counts sum to the number of augmented conversations. |
| Pipeline.AverageLabelScore | src/pipeline.py:167-168 | An empty list raises ZeroDivisionError. Otherwise the average times the count is the sum of the scores. |
| Pipeline.ScoreSumBounds | src/pipeline.py:167-168 | The sum of scores lies between n·lo and n·hi when every score lies in [lo, hi]. |
| Pipeline.AverageWithin | src/pipeline.py:167-168 | The average lies within any bounds every label score lies within. |
| Pipeline.Flatten | src/pipeline.py:136-139 | One (role, content) pair per turn. |
| Pipeline.FlattenRoundTrip | src/pipeline.py:136-139 | Flattening the turns loses nothing: they read back in order. |
| Pipeline.RecordRoundTrip | src/pipeline.py:134-146 | A record reads back as the augmented conversation it came from, with every field copied verbatim. |
| Pipeline.FormatDataset | src/pipeline.py:130-148 | One record per augmented conversation, in order, each reading back as that conversation. |
| Pipeline.Truncate | src/pipeline.py:121-122 | The output is a prefix of length min(n, target) for a non-negative target, with Python's reading of a negative target. |
| Pipeline.TruncateIdempotent | src/pipeline.py:121-122 | Truncating twice to a non-negative target is truncating once. |
| Pipeline.Requests | src/pipeline.py:58-72 | The requests are those of the intents `process_intents` keeps; the cap removes none. |
| Pipeline.Generated | src/pipeline.py:75-84 | One policy per request, one conversation per policy filed under it, and one score per conversation, each verdict its threshold comparison. |
| Pipeline.Filtered | src/pipeline.py:86-111 | The aligned and rejected lists are the split by verdict, and the augmentation has the aligned ones as its originals, twice with mixing. |
| Pipeline.Steps | src/pipeline.py:52-111 | A successful run's steps chain as stated: requests from the intents, one policy, conversation and score per item, the split by verdict, and the augmentation of the aligned ones. |
| Pipeline.Finish | src/pipeline.py:116-168 | Success exactly when something was augmented; an empty augmentation raises ZeroDivisionError. The records are the first min(n, target) of one record per augmented conversation. |
| Pipeline.RunPipeline | src/pipeline.py:52-128 | A run succeeds exactly when the steps do and something was augmented. Its records are a prefix, of length min(n, target), of one record per augmented conversation. An empty augmentation raises ZeroDivisionError. |
| Pipeline.AugmentedNeedsTwo | src/pipeline.py:69-103 | Anything augmented means a target of at least two: below that no intent is kept, so nothing is generated, judged or augmented. |
| Pipeline.SuccessNeedsTwo | src/pipeline.py:68-116 | A run that succeeds had a target of at least two. |
| Pipeline.RunSize | src/pipeline.py:116-122 | A successful run yields between one and target_dataset_size records. |

## Left out

- Backend calls: the Groq client calls (`client.chat.completions.create`) are network I/O. Each reply is an input.
- Prompts: the prompt templates under `src/prompts` are prose with no logic. The model keeps only what each prompt is built from. What the prompts ask of the model is not enforced by the code and is not modelled as a guarantee. Examples are keeping the assistant turns, or 4–8 turns.
- The JSON parser: `json.loads` is foreign code, passed in as `Codec.loads`. Which of several duplicate keys wins is left to it.
- Float parsing: `float(str)` is foreign code, passed in as `Codec.parseFloat`.
- Floating point: scores are reals. NaN, infinities, rounding and `float` overflow are not modelled.
- Corpus cells: non-string cells are not modelled. An item is a list of strings, or something that is not a list.
- Augmentation.Sample: `random.sample` is modelled as drawing without replacement by picks taken modulo the remaining pool. CPython's exact selection algorithm and the draws' distribution are not modelled; only what any draw yields is.
- Gate probabilities: the rates 0.35 / 0.225 / 0.125 / 0.05 appear only as the thresholds the draws are compared with. Their statistical effect is not modelled.
- File I/O: `load_clinc_data`, `save_processed_intents`, `get_domain_action_pairs` (it re-reads the file) and `save_dataset` are file I/O. `process_intents` works on an in-memory corpus.
- Console output: printing, including the percentages and the average in `_show_augmentation_stats`. The average is modelled only for its division by zero.
- `_parse_llm_response`: it prints and re-raises, so `ParseTurns` stands for it.
- Configuration: the `Config` class of `src/config.py` holds constants only. The fields the pipeline reads are a `Config` datatype, with the defaults in `Pipeline.DefaultConfig`. `max_regeneration_attempts` and `batch_size` are never read.
- Entry point: `main.py`, dotenv and `sys.exit`.
- ConversationSynthesizer.DecodedTurnsAreKept: stated only for a stripped reply whose array has no `[` before it and no `]` after it. The general case, fallback included, is stated by `GenerateConversation` and `FallbackTurnsAreKept`.
- AugmentationParse.ParseTurns: states the exception classes. Its success case is stated only for decoded data in the turns' own encoding (`ParsedTurnsAreKept`); the rest is the decoder's and pydantic's business.
