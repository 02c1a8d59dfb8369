# Interview question generator: the deterministic core

`app.py` is a small Flask service. It asks a text generator for interview
questions and answers in five categories: Technical, Behavioral,
Situational, Cultural/Personality and Problem-Solving. The service itself
does the following, and this is what the model covers:

- it plans how many questions each category gets
  (`calculate_question_distribution`);
- it counts the `Question N:` markers in a response
  (`validate_questions_count`);
- it retries the generator at most twice;
- when the count is still wrong, it rebuilds the text category by category
  (`extract_questions_by_category`, `force_correct_categorized_questions`):
  it pairs questions with answers, cuts or pads each category to its quota
  and renumbers everything from 1;
- it normalises the request (`/generate`, `/distribution`): the count is
  clamped to 5..20, and an unknown complexity becomes "intermediate".

Modules, in the order the program uses them:

- `Text`: strip, split on newlines, upper/lower case, decimal numerals.
- `Markers`: the pattern `Question\s+\d+:` as a small scanner; the
  case-insensitive count; the case-sensitive `re.sub` renumbering.
- `Planner`: the distribution, the stable descending order in which the
  excess is removed, and the correction pass.
- `Request`: clamping, complexity normalisation, the guideline lookup.
- `Bucketing`: the line scan that sorts question and answer lines into
  category buckets.
- `Repair`: pairing, trimming, padding and writing out each category.
- `RepairCount`: what the rebuilt text counts, and when it meets the quota.
- `Pipeline`: the retry policy and the `/generate` and `/distribution`
  routes. The generator is a parameter `respond: nat -> string`, giving
  the response to each attempt.

The central result is `RepairCount.RepairValidates`. Suppose every line the
scan keeps in a bucket is well counted: a question line carries one marker
and an answer line none (`RepairCount.KeptWellCounted`). Then the rebuilt text
holds exactly `sum(distribution)` markers. Lines outside the buckets, such as
those before the first header, may hold any number of markers. `RepairCount.DriftBelowTotal` shows that
this hypothesis is needed. A kept line that starts with "Question" but has no
number (`RepairCount.UnlabelledQuestionLine`) passes the renumbering
unchanged, so the rebuilt text falls short and fails the check it was built
to pass. `Pipeline.ReplyFacts` carries both facts up to the route's reply.

For 10 questions the estimates are 4/2/1/1/1. They add up to 9, and the
missing question goes to Technical, which gives 5/2/1/1/1
(`Planner.DistributionOfTen`).

## Model

| member | source | states |
|---|---|---|
| Text.StripLeft | app.py:220 | a suffix of the line; everything cut off before it is whitespace, and it does not start with whitespace |
| Text.StripRight | app.py:220 | a prefix of the line; everything cut off after it is whitespace, and it does not end with whitespace |
| Text.Strip | app.py:220 | a piece of the line with only whitespace before and after it, and no whitespace at either of its own ends |
| Text.StripUnchanged | app.py:220 | a line with no whitespace at either end is left as it is |
| Text.StripIdempotent | app.py:220 | stripping a stripped line changes nothing |
| Text.SplitJoin | app.py:217 | joining the pieces of `split('\n')` with newlines gives back the text |
| Text.SplitNoNewline | app.py:217 | no piece of the split holds a newline |
| Text.JoinSplit | app.py:217 | splitting lines without newlines, joined with newlines, gives back the lines |
| Text.Itoa | app.py:289 | the decimal numeral is non-empty and all digits; with Text.ItoaCanonical and Text.ReadItoa it is exactly `str(k)` |
| Text.ItoaCanonical | app.py:289 | the numeral is the one `str(k)` writes: "0" for zero, and no leading zero for any other k |
| Text.ReadItoa | app.py:289 | reading back the numeral written for k gives k |
| Markers.Labels | app.py:44-45 | definition of `re.findall` for `<word>\s+\d+:`; specified by Markers.LabelHasShape, Markers.ShapeIsLabel, Markers.LabelsSplit and Markers.LabelsBound |
| Markers.LabelsBound | app.py:44-45 | the matches do not overlap, so a text holds at most one per `len(word) + 3` characters |
| Markers.CountQuestions | app.py:44-45 | the number of case-insensitive question markers; at most one per 11 characters |
| Markers.ValidateQuestionsCount | app.py:41-47 | definition of `validate_questions_count`; only a count from 0 up to one per 11 characters of the text can pass |
| Markers.Relabel | app.py:289-290 | definition of the `re.sub` renumbering; specified by Markers.RelabelNumbers, Markers.RelabelCount and Markers.RelabelUnlabelled |
| Markers.LabelAt | app.py:44 | a label found at the front of a text is at least the word plus a space, a digit and a colon long, and lies within the text |
| Markers.LabelHasShape | app.py:44 | a label found by the scanner is the word, one or more whitespace characters, one or more digits and a colon, and its number is the value of those digits |
| Markers.ShapeIsLabel | app.py:44 | every text of that shape is found by the scanner with that length and number |
| Markers.IgnoringCase | app.py:45 | a label matched case-sensitively is also matched under `re.IGNORECASE` |
| Markers.LabelsNoDigit | app.py:44 | a text without digits holds no labels |
| Markers.LabelsNoColon | app.py:44 | a text without a colon holds no labels |
| Markers.LabelsSplit | app.py:45 | the labels of two texts joined at a whitespace/letter border are those of each text, in order |
| Markers.TagIsLabel | app.py:289 | the replacement `Question {k}:` is itself a label numbered k |
| Markers.RelabelNumbers | app.py:289-290 | after `re.sub` every label of the word is numbered k, and there are as many as before |
| Markers.RelabelCount | app.py:289-290 | renumbering one word's labels keeps the number of labels of either word, case-sensitive or not |
| Markers.RelabelUnlabelled | app.py:289 | a line without labels of the word comes out of `re.sub` unchanged |
| Planner.InitialQuotas | app.py:52-58 | five estimates; category c gets `max(1, floor(n * share_c))` with shares 40/20/15/10/15 per cent |
| Planner.InitialQuotasPositive | app.py:52-58 | every estimate is at least 1; below 5 questions they are all 1 |
| Planner.SortMembers | app.py:68 | the sort of the first k categories holds exactly the indices below k |
| Planner.SortStable | app.py:68 | that sort is descending by quota, and ties keep dictionary order |
| Planner.OrderIsStableSort | app.py:68 | the removal order holds each of the five categories once, descending by quota, ties in dictionary order |
| Planner.Order | app.py:68 | the removal order lists five category indices; Planner.OrderIsStableSort proves it is the stable descending sort |
| Planner.Reduce | app.py:68-74 | definition of the excess loop; it keeps five quotas; specified by Planner.ReduceFacts |
| Planner.Corrected | app.py:60-74 | definition of the correction pass; it keeps five quotas; specified by Planner.CorrectedPositive, Planner.CorrectedSum, Planner.ShortfallToTechnical and Planner.ExcessOnlyLowers |
| Planner.Distribution | app.py:49-76 | definition of `calculate_question_distribution`; five quotas; specified by Planner.DistributionFacts |
| Planner.ReduceFacts | app.py:68-74 | the removal loop keeps every quota between 1 and its estimate; it removes the whole excess, or else every quota ends at 1 |
| Planner.ShortfallToTechnical | app.py:62-64 | a shortfall goes to Technical in full, and the other four are unchanged |
| Planner.ExcessOnlyLowers | app.py:65-74 | an excess only lowers quotas, never below 1 |
| Planner.CorrectedPositive | app.py:60-74 | the corrected quotas are five and each is at least 1 |
| Planner.CorrectedSum | app.py:60-74 | from 5 questions up, the corrected quotas add up to the request |
| Planner.CorrectTotal | app.py:60-74 | the correction pass, written as the source's loop, computes the corrected quotas |
| Planner.CalculateQuestionDistribution | app.py:49-76 | five quotas of at least 1; they add up to n when n >= 5; they are all 1 below that |
| Planner.DistributionFacts | app.py:49-76 | the same three facts about the distribution as a function of n |
| Planner.DistributionSmall | app.py:49-76 | below 5 questions every category gets one, so the sum exceeds the request |
| Planner.DistributionOfTen | app.py:49-76 | 10 questions split 5/2/1/1/1 |
| Planner.DistributionOfFive | app.py:65-74 | 5 questions split 1/1/1/1/1: Technical, first in the order, gives up the one excess |
| Planner.DistributionOfTwenty | app.py:49-76 | 20 questions split 8/4/3/2/3 |
| Request.Clamp | app.py:334 | the result lies in 5..20, equals n inside that range, and is the nearer bound outside it |
| Request.ClampIdempotentMonotone | app.py:334 | clamping is idempotent and keeps the order of counts |
| Request.RequestedCount | app.py:324-334 | a missing count means 10; a count in 5..20 is kept; the result lies in 5..20 |
| Request.ClampedDistribution | app.py:389-392 | for every request, the clamped count splits into five quotas of at least 1 that add up to it |
| Request.ParseComplexity | app.py:327-331 | a missing or unknown level is intermediate; a known name reads as its level |
| Request.NormalizeComplexity | app.py:327-331 | the result is one of the three names; a known name is kept; anything else becomes "intermediate" |
| Request.ComplexityRoundTrip | app.py:330-331 | a level's name parses back to the level, and normalising twice equals normalising once |
| Request.Guideline | app.py:100 | "basic" and "advanced" pick their paragraph; every other string falls back to intermediate |
| Bucketing.HeaderIn | app.py:225-228 | a header match names one of the five categories |
| Bucketing.HeaderFromFirst | app.py:225-228 | the key search from category c finds the first key from c on that occurs in the upper-cased line |
| Bucketing.HeaderInFirst | app.py:225-228 | the category found is the first whose key occurs in the upper-cased line; none found means no key occurs |
| Bucketing.HeaderKeysAreNames | app.py:207-213 | the five bucket keys are the category names upper-cased plus " QUESTIONS" |
| Bucketing.Initial | app.py:207-216 | the scan starts with five empty buckets and no current category |
| Bucketing.Step | app.py:219-232 | one line keeps the scan well formed |
| Bucketing.Run | app.py:219-232 | the scan over all lines stays well formed |
| Bucketing.Extract | app.py:205-234 | definition of `extract_questions_by_category` as a scan over the split lines; five buckets; specified by the Bucketing lemmas below |
| Bucketing.ExtractQuestionsByCategory | app.py:205-234 | the loop over the lines yields the five buckets of the scan |
| Bucketing.ScanLine | app.py:219-232 | one iteration of the loop: a blank line changes nothing; otherwise the current category and buckets become those of one scan step |
| Bucketing.FindHeader | app.py:224-228 | the header search loop finds the first category whose key occurs in the upper-cased line, or none |
| Bucketing.HeaderThenQuestion | app.py:219-232 | a header line followed by a kept line puts that line, alone, in the header's bucket |
| Bucketing.BucketLinesClean | app.py:220-232 | every bucketed line is stripped and starts with "Question" or "Answer" |
| Bucketing.BucketsInOrder | app.py:219-232 | each bucket is a subsequence of the stripped lines, in their original order |
| Bucketing.CurrentIsLastHeader | app.py:224-228 | after any prefix, the current category is the one named by the last header line |
| Bucketing.ExtractAppend | app.py:219-232 | one more line changes the buckets exactly as one step on the last header does |
| Bucketing.HeaderlessRun | app.py:231 | a text without header lines leaves every bucket empty |
| Bucketing.BeforeFirstHeaderDropped | app.py:231 | lines before the first header are dropped |
| Repair.NoAnswer | app.py:264 | definition of the placeholder answer; RepairCount.NoAnswerCount proves it carries no question marker |
| Repair.PairFrom | app.py:256-267 | every pair holds a question line, and its answer is an answer line or the placeholder |
| Repair.PairingIsPerQuestion | app.py:256-267 | the pairing loop yields one pair per question line; the answer is the next line when it starts with "Answer", else the placeholder |
| Repair.PairLines | app.py:253-267 | the loop over a bucket builds equally long question and answer lists that zip to the pairing |
| Repair.Pad | app.py:275-278 | definition of one padding pair; RepairCount.PadCount proves it carries exactly one marker |
| Repair.Padding | app.py:275-278 | the padding pairs are numbered on from the kept ones and hold the complexity and lower-cased category |
| Repair.Fit | app.py:269-278 | exactly target pairs: the first target found, or all found followed by padding |
| Repair.TrimPairs | app.py:270-273 | popping leaves the first min(found, target) pairs |
| Repair.PadPairs | app.py:275-278 | appending leaves the found pairs followed by the padding up to target |
| Repair.FitToTarget | app.py:269-278 | both loops together give exactly target pairs, the fitted pairs |
| Repair.Emitted | app.py:250-278 | category c writes exactly its quota of pairs |
| Repair.Start | app.py:243 | every category's first question number is at least 1 |
| Repair.StartIsSum | app.py:293 | category c's first question number is 1 plus the quotas before it |
| Repair.GlobalNumbering | app.py:283-293 | the counter at category c is one past the number of pairs written so far |
| Repair.TotalEmitted | app.py:283-293 | the rebuilt text holds as many pairs as the quotas add up to |
| Repair.CategoryKey | app.py:247 | the key is the category name upper-cased plus " QUESTIONS", which is the bucket key |
| Repair.WritePairs | app.py:283-293 | the writing loop appends each pair, numbered from the counter on, and advances the counter by the number of pairs |
| Repair.RenderPair | app.py:289-292 | definition of one written pair; specified by Repair.PairNumbered |
| Repair.Repair | app.py:236-295 | definition of `force_correct_categorized_questions` on values; Repair.ForceCorrectCategorizedQuestions computes it, and RepairCount.RepairCountIsPairCount and RepairCount.RepairValidates state its count |
| Repair.RenderPairsSnoc | app.py:292 | one more pair appends its text, numbered after the ones before |
| Repair.PairNumbered | app.py:289-292 | a written pair is `q_text\na_text\n\n`; its labels all carry the new number, and it keeps its number of markers |
| Repair.WriteCategory | app.py:246-293 | one loop iteration appends that category's section and leaves the counter at the next category's start |
| Repair.ForceCorrectCategorizedQuestions | app.py:236-295 | the method returns the header and quota of pairs of each category, in order |
| Repair.RepairOfEmpty | app.py:239-278 | with nothing to extract, every category is pure padding numbered from its start |
| RepairCount.RenderedCount | app.py:283-293 | the written pairs hold exactly as many markers as the pairs did |
| RepairCount.HeaderCount | app.py:281 | a category header holds no marker |
| RepairCount.SectionCount | app.py:281-293 | a section holds exactly the markers of its pairs |
| RepairCount.RepairCountIsPairCount | app.py:236-295 | the rebuilt text's marker count is the markers of all emitted pairs |
| RepairCount.PairedFromLines | app.py:256-267 | every pair's question and answer come from the bucket or are the placeholder |
| RepairCount.PadCount | app.py:276-278 | a padding pair has one marker in its question and none in its answer, when the complexity and category have no colon |
| RepairCount.BucketWellCounted | app.py:239 | buckets of a well-counted text are well counted |
| RepairCount.AllLinesKeptWellCounted | app.py:219-232 | a text whose stripped lines are all well counted has well-counted kept lines |
| RepairCount.GoodPairsCount | app.py:283-293 | pairs with one marker each count one per pair |
| RepairCount.RepairValidates | app.py:236-237 | when the kept lines are well counted and the complexity has no colon, the rebuilt text passes `validate_questions_count` for the sum of the quotas |
| RepairCount.UnlabelledQuestionLine | app.py:258 | the bare line "Question" is kept as a question but carries no marker |
| RepairCount.PairsCountBelow | app.py:283-293 | pairs with at most one marker each count at most one per pair, and fewer once one carries none |
| RepairCount.DriftBelowTotal | app.py:236-237 | once an emitted pair carries no marker, the rebuilt text counts fewer than the sum and fails the validator |
| RepairCount.DriftExample | app.py:258 | the first header followed by the bare line "Question", repaired with five quotas of one, fails the validator for 5 |
| RepairCount.DriftAfterHeader | app.py:236-295 | any header line of the first category followed by a kept question line without a marker drifts below five markers under quotas of one |
| RepairCount.DriftFromBuckets | app.py:256-293 | whenever the only bucketed line is such a question in the first category, the repair with quotas of one fails the validator |
| Pipeline.Retry | app.py:188-199 | definition of the retry recursion; specified by Pipeline.RetryFirstAccepted, Pipeline.RetryNoneAccepted, Pipeline.RetryAccepted and Pipeline.CallsBounded |
| Pipeline.Generated | app.py:188-199 | definition of `generate_categorized_questions` from attempt 0; specified by Pipeline.GeneratedValidates |
| Pipeline.ReplyContent | app.py:341-356 | definition of the content `/generate` replies with; specified by Pipeline.ReplyFacts |
| Pipeline.RetryFirstAccepted | app.py:192-196 | the first accepted response is returned unchanged |
| Pipeline.RetryNoneAccepted | app.py:194-199 | when all three responses are rejected, the result is the repair of the third |
| Pipeline.RetryAccepted | app.py:192-199 | the result is accepted whenever the repair of the last response is |
| Pipeline.CallsBounded | app.py:194-196 | at most three generator calls; every response before the last was rejected; the last was accepted or was the third |
| Pipeline.GenerateCategorizedQuestions | app.py:188-199 | from attempt `retry_count` on, the recursion returns the retry policy's result and makes as many generator calls as that policy |
| Pipeline.GeneratedValidates | app.py:188-199 | from 5 questions up, a third response whose kept lines are well counted makes the result pass the validator |
| Pipeline.NormalizedNoColon | app.py:330-331 | a normalised complexity holds no colon |
| Pipeline.HandleGenerate | app.py:309-356 | the reply carries the clamped count, the normalised complexity, that count's distribution, and the generated content, repaired once more if its count is wrong |
| Pipeline.ReplyFacts | app.py:341-356 | the reply's distribution has five quotas of at least 1 adding up to its count; when the third response's kept lines are well counted, the final check changes nothing and the content validates |
| Pipeline.DistributionReply | app.py:384-396 | `/distribution` answers with a total in 5..20 and five quotas of at least 1 that add up to it |

## Left out

- HTTP handling is not modelled: Flask routing, JSON and form parsing, the file-presence checks with their 400 replies, and the 500 replies built from exceptions. The routes are modelled from the point where the count and complexity are known, as `Option` values.
- PDF text extraction (`extract_text_from_pdf`) is left out. It calls into PyPDF2.
- The generator call is left out, along with the prompt text and the model configuration. The generator is an oracle `respond(attempt)`, and the three guideline paragraphs are parameters of `Request.Guideline`.
- Console printing, the API-key check and the upload folder are left out; they have no effect on the results.
- `int(...)` on a count that is not a number is left out; it raises and ends in the 500 reply.
- The `/` page, `/categories` and `/complexity-levels` are left out: they return fixed lists and compute nothing.
- `generate_interview_questions` is left out as a separate member: it only forwards to `generate_categorized_questions` (`Pipeline.Generated`).
- Planner.InitialQuotas: the float products `n * 0.4` etc. are modelled as exact `n * 40 / 100` floors. They agree with the float results on 5..20, the only counts the routes pass. For negative n both give 1 through the `max`.
- Text.Upper: `str.upper`, `str.lower` and `\d` are modelled on ASCII only. Unicode case mappings and non-ASCII digits are not modelled.
- Markers.CharMatches: `re.IGNORECASE` is modelled as equality after ASCII lower-casing. Python's case-insensitive match also pairs `s` with `ſ` (U+017F) and `i` with `ı` (U+0131) and `İ` (U+0130), so a text such as "Queſtion 1:" is counted by `validate_questions_count` but not by `Markers.CountQuestions`. Whitespace (`str.strip`, `\s`) is Python's full set of whitespace characters.
- `old_q_num` in the writing loop is computed and never used, so it is not modelled.
- The `num_questions` parameter of `force_correct_categorized_questions` is never read by its body: the quotas come from `distribution`. `Repair.Repair` and `Repair.ForceCorrectCategorizedQuestions` therefore take no count.
- The writing loop's fallback answer for `i >= len(answers)` is not modelled: it never happens, because the answer list is always as long as the question list. `Repair.FitToTarget` proves the two lengths equal.
- The `.get(category_upper, [])` default is not modelled: it is never taken, because the five keys always exist (`Repair.CategoryKey`).
- RepairCount.RepairValidates: the exact count is proved only for texts whose kept lines are well counted: each bucketed question line carries one marker and each bucketed answer line none. The code does not keep the promise in its own docstring for other texts, as `RepairCount.DriftBelowTotal` shows.
- Repair.WritePairs: it takes the renderer as a parameter. `Repair.WriteCategory` passes the source's `re.sub` renumbering (`Repair.RenderPair`).
