/** `force_correct_categorized_questions`: rebuild a generated text so that
    every category holds exactly its quota of question/answer pairs, with the
    pairs numbered 1, 2, ... across the whole text. */
module Repair {
  import opened Text
  import opened Markers
  import opened Planner
  import opened Bucketing
  import opened Seqs

  /** The label words the repair pass renumbers. */
  const QuestionWord: string := "Question"
  const AnswerWord: string := "Answer"

  /** A question line and the answer line that goes with it. */
  datatype QA = QA(question: string, answer: string)

  predicate IsQuestion(line: string) { StartsWith(line, "Question") }

  predicate IsAnswer(line: string) { StartsWith(line, "Answer") }

  /** The answer put under a question that has none; it carries the number
      of the category's first question, and the renumbering fixes it later. */
  function NoAnswer(counter: nat): string {
    "Answer " + Itoa(counter) + ": No answer available"
  }

  // ---------------------------------------------------------------------
  // Pairing

  /** The pairing loop from position i of a bucket: a question line takes
      the next line as its answer when that one starts with "Answer", and
      the placeholder otherwise; every other line is skipped. */
  function PairFrom(lines: seq<string>, i: nat, counter: nat): (r: seq<QA>)
    ensures forall j :: 0 <= j < |r| ==> IsQuestion(r[j].question)
    ensures forall j :: 0 <= j < |r| ==> r[j].answer == NoAnswer(counter) || IsAnswer(r[j].answer)
    decreases |lines| - i
  {
    if i >= |lines| then []
    else if IsQuestion(lines[i]) then
      if i + 1 < |lines| && IsAnswer(lines[i + 1]) then
        [QA(lines[i], lines[i + 1])] + PairFrom(lines, i + 2, counter)
      else
        [QA(lines[i], NoAnswer(counter))] + PairFrom(lines, i + 1, counter)
    else PairFrom(lines, i + 1, counter)
  }

  /** The answer a question line at position i deserves: the line right
      after it if that is an answer line, else the placeholder. */
  function AnswerFor(lines: seq<string>, i: nat, counter: nat): string
    requires i < |lines|
  {
    if i + 1 < |lines| && IsAnswer(lines[i + 1]) then lines[i + 1] else NoAnswer(counter)
  }

  /** Reference reading of the pairing: one pair per question line, in
      order, each with the answer it deserves; nothing else. */
  function Paired(lines: seq<string>, i: nat, counter: nat): seq<QA>
    decreases |lines| - i
  {
    if i >= |lines| then []
    else
      var here := if IsQuestion(lines[i]) then [QA(lines[i], AnswerFor(lines, i, counter))] else [];
      here + Paired(lines, i + 1, counter)
  }

  lemma AnswerIsNoQuestion(line: string)
    requires IsAnswer(line)
    ensures !IsQuestion(line)
  {
    assert line[0] == 'A';
  }

  /** The pairing loop gives one pair per question line, in order; a
      question's answer is the line right after it when that line starts
      with "Answer", otherwise the placeholder; answer lines that follow no
      question are dropped. */
  lemma {:induction false} PairingIsPerQuestion(lines: seq<string>, i: nat, counter: nat)
    ensures PairFrom(lines, i, counter) == Paired(lines, i, counter)
    decreases |lines| - i
  {
    if i < |lines| {
      if IsQuestion(lines[i]) && i + 1 < |lines| && IsAnswer(lines[i + 1]) {
        PairingIsPerQuestion(lines, i + 2, counter);
        AnswerIsNoQuestion(lines[i + 1]);
        assert Paired(lines, i + 1, counter) == Paired(lines, i + 2, counter);
      } else {
        PairingIsPerQuestion(lines, i + 1, counter);
      }
    }
  }

  function Zip(questions: seq<string>, answers: seq<string>): (r: seq<QA>)
    requires |questions| == |answers|
    ensures |r| == |questions|
    ensures forall j :: 0 <= j < |r| ==> r[j] == QA(questions[j], answers[j])
  {
    seq(|questions|, j requires 0 <= j < |questions| => QA(questions[j], answers[j]))
  }

  /** The `while i < len(category_lines)` loop: questions and answers
      collected into two lists of equal length. */
  method PairLines(lines: seq<string>, counter: nat) returns (questions: seq<string>, answers: seq<string>)
    ensures |questions| == |answers|
    ensures Zip(questions, answers) == PairFrom(lines, 0, counter)
  {
    questions, answers := [], [];
    var i := 0;
    while i < |lines|
      invariant |questions| == |answers|
      invariant Zip(questions, answers) + PairFrom(lines, i, counter) == PairFrom(lines, 0, counter)
      decreases |lines| - i
    {
      ghost var before := Zip(questions, answers);
      if IsQuestion(lines[i]) {
        var answer := if i + 1 < |lines| && IsAnswer(lines[i + 1]) then lines[i + 1] else NoAnswer(counter);
        ghost var next := if i + 1 < |lines| && IsAnswer(lines[i + 1]) then i + 2 else i + 1;
        assert PairFrom(lines, i, counter) == [QA(lines[i], answer)] + PairFrom(lines, next, counter);
        ZipSnoc(questions, answers, lines[i], answer);
        Associative(before, [QA(lines[i], answer)], PairFrom(lines, next, counter));
        questions := questions + [lines[i]];
        answers := answers + [answer];
        i := if i + 1 < |lines| && IsAnswer(lines[i + 1]) then i + 2 else i + 1;
      } else {
        i := i + 1;
      }
    }
  }

  lemma ZipSnoc(questions: seq<string>, answers: seq<string>, q: string, a: string)
    requires |questions| == |answers|
    ensures Zip(questions + [q], answers + [a]) == Zip(questions, answers) + [QA(q, a)]
  {
  }

  // ---------------------------------------------------------------------
  // Trimming and padding to the quota

  /** The j-th padding pair (j counted from 1 within the category) for the
      question numbered qNum. */
  function Pad(j: nat, qNum: nat, complexity: string, category: string): QA {
    QA("Question " + Itoa(qNum) + ": Additional " + complexity + " " + Lower(category) + " question " + Itoa(j),
       "Answer " + Itoa(qNum) + ": Additional " + complexity + " " + Lower(category) + " answer " + Itoa(j))
  }

  /** The padding pairs that take a category from have pairs up to target,
      for a category whose first question is numbered start. */
  function Padding(have: nat, target: nat, start: nat, complexity: string, category: string): (r: seq<QA>)
    ensures |r| == if target <= have then 0 else target - have
    ensures forall i :: 0 <= i < |r| ==> r[i] == Pad(have + i + 1, start + have + i, complexity, category)
    decreases target
  {
    if target <= have then []
    else Padding(have, target - 1, start, complexity, category) + [Pad(target, start + target - 1, complexity, category)]
  }

  /** The pairs of a category cut down or padded to its quota: surplus pairs
      are dropped from the end, missing ones are padding pairs. */
  function Fit(pairs: seq<QA>, target: nat, start: nat, complexity: string, category: string): (r: seq<QA>)
    ensures |r| == target
    ensures |pairs| >= target ==> r == pairs[..target]
    ensures |pairs| < target ==> r[..|pairs|] == pairs
    ensures forall i :: |pairs| <= i < target ==> r[i] == Pad(i + 1, start + i, complexity, category)
  {
    if |pairs| >= target then pairs[..target]
    else pairs + Padding(|pairs|, target, start, complexity, category)
  }

  /** The `pop` loop and the padding loop. */
  method FitToTarget(givenQuestions: seq<string>, givenAnswers: seq<string>, target: nat, counter: nat,
                     complexity: string, category: string)
    returns (questions: seq<string>, answers: seq<string>)
    requires |givenQuestions| == |givenAnswers|
    ensures |questions| == |answers| == target
    ensures Zip(questions, answers) == Fit(Zip(givenQuestions, givenAnswers), target, counter, complexity, category)
  {
    questions, answers := TrimPairs(givenQuestions, givenAnswers, target);
    ghost var kept := Zip(questions, answers);
    questions, answers := PadPairs(questions, answers, target, counter, complexity, category);
    if |givenQuestions| >= target {
      assert Padding(target, target, counter, complexity, category) == [];
      assert kept + [] == kept;
    }
  }

  /** `while len(questions) > target_count`: drop pairs from the end. */
  method TrimPairs(givenQuestions: seq<string>, givenAnswers: seq<string>, target: nat)
    returns (questions: seq<string>, answers: seq<string>)
    requires |givenQuestions| == |givenAnswers|
    ensures |questions| == |answers| == Min(|givenQuestions|, target)
    ensures Zip(questions, answers) == Zip(givenQuestions, givenAnswers)[..|questions|]
  {
    ghost var pairs := Zip(givenQuestions, givenAnswers);
    questions, answers := givenQuestions, givenAnswers;
    while |questions| > target
      invariant |answers| == |questions| <= |givenQuestions|
      invariant |questions| >= Min(|givenQuestions|, target)
      invariant |questions| < |givenQuestions| ==> |questions| >= target
      invariant Zip(questions, answers) == pairs[..|questions|]
    {
      ZipPrefix(questions, answers, |questions| - 1);
      PrefixOfPrefix(pairs, |questions| - 1, |questions|);
      questions := questions[..|questions| - 1];
      if |answers| > 0 {
        answers := answers[..|answers| - 1];
      }
    }
  }

  /** `while len(questions) < target_count`: append numbered padding pairs. */
  method PadPairs(givenQuestions: seq<string>, givenAnswers: seq<string>, target: nat, counter: nat,
                  complexity: string, category: string)
    returns (questions: seq<string>, answers: seq<string>)
    requires |givenQuestions| == |givenAnswers| <= target
    ensures |questions| == |answers| == target
    ensures Zip(questions, answers) == Zip(givenQuestions, givenAnswers) + Padding(|givenQuestions|, target, counter, complexity, category)
  {
    ghost var pairs := Zip(givenQuestions, givenAnswers);
    questions, answers := givenQuestions, givenAnswers;
    assert Padding(|givenQuestions|, |questions|, counter, complexity, category) == [];
    while |questions| < target
      invariant |givenQuestions| <= |answers| == |questions| <= target
      invariant Zip(questions, answers) == pairs + Padding(|givenQuestions|, |questions|, counter, complexity, category)
    {
      ghost var padded := Padding(|givenQuestions|, |questions|, counter, complexity, category);
      ghost var before := questions;
      var qNum := counter + |questions|;
      var question := "Question " + Itoa(qNum) + ": Additional " + complexity + " " + Lower(category) + " question " + Itoa(|questions| + 1);
      questions := questions + [question];
      var answer := "Answer " + Itoa(qNum) + ": Additional " + complexity + " " + Lower(category) + " answer " + Itoa(|questions|);
      assert QA(question, answer) == Pad(|questions|, qNum, complexity, category);
      PaddingSnoc(|givenQuestions|, |before|, counter, complexity, category);
      ZipSnoc(before, answers, question, answer);
      Associative(pairs, padded, [QA(question, answer)]);
      answers := answers + [answer];
    }
  }

  lemma PaddingSnoc(have: nat, target: nat, start: nat, complexity: string, category: string)
    requires have <= target
    ensures Padding(have, target + 1, start, complexity, category)
      == Padding(have, target, start, complexity, category) + [Pad(target + 1, start + target, complexity, category)]
  {
  }

  lemma ZipPrefix(questions: seq<string>, answers: seq<string>, m: nat)
    requires |questions| == |answers| && m <= |questions|
    ensures Zip(questions[..m], answers[..m]) == Zip(questions, answers)[..m]
  {
  }

  // ---------------------------------------------------------------------
  // Numbering and rendering

  /** Quotas as the repair pass takes them: one per category, none negative. */
  predicate ValidTargets(t: seq<int>) {
    |t| == CategoryCount && forall c :: 0 <= c < CategoryCount ==> t[c] >= 0
  }

  /** The number of the first question of category c: `question_counter`
      when the loop reaches that category. */
  function Start(t: seq<int>, c: nat): (r: nat)
    requires ValidTargets(t) && c <= CategoryCount
    ensures r >= 1
  {
    if c == 0 then 1 else Start(t, c - 1) + t[c - 1]
  }

  /** One pair as written out, every `Question N:` label of the question
      line and every `Answer N:` label of the answer line renumbered k. */
  function RenderPair(p: QA, k: nat): string {
    PairText(Relabel(p.question, QuestionWord, k), Relabel(p.answer, AnswerWord, k))
  }

  /** `f"{q_text}\n{a_text}\n\n"` */
  function PairText(qText: string, aText: string): string {
    qText + "\n" + aText + "\n\n"
  }

  /** The pairs of one category written out, numbered from k on. */
  function RenderPairs(ps: seq<QA>, k: nat): string {
    Joined(ps, k, RenderPair)
  }

  function Header(c: nat): string
    requires c < CategoryCount
  {
    "\n" + HeaderKeys[c] + ":\n\n"
  }

  /** The pairs written out for category c: its bucket paired up, then cut
      or padded to the quota. */
  function Emitted(buckets: seq<seq<string>>, t: seq<int>, complexity: string, c: nat): (r: seq<QA>)
    requires |buckets| == CategoryCount && ValidTargets(t) && c < CategoryCount
    ensures |r| == t[c]
  {
    var start := Start(t, c);
    Fit(PairFrom(buckets[c], 0, start), t[c], start, complexity, CategoryNames[c])
  }

  function Section(buckets: seq<seq<string>>, t: seq<int>, complexity: string, c: nat): string
    requires |buckets| == CategoryCount && ValidTargets(t) && c < CategoryCount
  {
    Header(c) + RenderPairs(Emitted(buckets, t, complexity, c), Start(t, c))
  }

  /** The sections by category index (empty past the last category). */
  function Sections(buckets: seq<seq<string>>, t: seq<int>, complexity: string): nat -> string
    requires |buckets| == CategoryCount && ValidTargets(t)
  {
    (c: nat) => if c < CategoryCount then Section(buckets, t, complexity, c) else []
  }

  /** The text written for the categories before c. */
  function RepairUpTo(buckets: seq<seq<string>>, t: seq<int>, complexity: string, c: nat): string
    requires |buckets| == CategoryCount && ValidTargets(t) && c <= CategoryCount
  {
    Fold(Sections(buckets, t, complexity), c)
  }

  /** What `force_correct_categorized_questions(content, ..., distribution,
      complexity)` returns for the quotas t. */
  function Repair(content: string, t: seq<int>, complexity: string): string
    requires ValidTargets(t)
  {
    RepairUpTo(Extract(content), t, complexity, CategoryCount)
  }

  /** `force_correct_categorized_questions` */
  method ForceCorrectCategorizedQuestions(content: string, targets: seq<int>, complexity: string)
    returns (newContent: string)
    requires ValidTargets(targets)
    ensures newContent == Repair(content, targets, complexity)
  {
    var categories := ExtractQuestionsByCategory(content);
    newContent := "";
    var questionCounter := 1;
    for c := 0 to CategoryCount
      invariant questionCounter == Start(targets, c)
      invariant newContent == RepairUpTo(categories, targets, complexity, c)
    {
      newContent, questionCounter := WriteCategory(categories, targets, complexity, c, newContent, questionCounter);
    }
  }

  /** One pass of the category loop: pair the bucket's lines, fit them to
      the quota, append the header and the renumbered pairs. */
  method WriteCategory(categories: seq<seq<string>>, targets: seq<int>, complexity: string, c: nat,
                       text: string, counter: nat)
    returns (newContent: string, questionCounter: nat)
    requires |categories| == CategoryCount && ValidTargets(targets) && c < CategoryCount
    requires counter == Start(targets, c)
    ensures newContent == text + Section(categories, targets, complexity, c)
    ensures questionCounter == Start(targets, c + 1)
  {
    var category := CategoryNames[c];
    var targetCount := targets[c];
    var categoryUpper := CategoryKey(c);
    var categoryLines := categories[c];
    var questions, answers := PairLines(categoryLines, counter);
    questions, answers := FitToTarget(questions, answers, targetCount, counter, complexity, category);
    ghost var pairs := Emitted(categories, targets, complexity, c);
    assert Zip(questions, answers) == pairs;
    var header := "\n" + categoryUpper + ":\n\n";
    assert header == Header(c);
    newContent, questionCounter := WritePairs(text + header, questions, answers, counter, RenderPair);
    Associative(text, header, RenderPairs(pairs, counter));
    SectionParts(categories, targets, complexity, c, header, pairs);
  }

  lemma SectionParts(buckets: seq<seq<string>>, t: seq<int>, complexity: string, c: nat,
                     header: string, pairs: seq<QA>)
    requires |buckets| == CategoryCount && ValidTargets(t) && c < CategoryCount
    requires header == Header(c) && pairs == Emitted(buckets, t, complexity, c)
    ensures Section(buckets, t, complexity, c) == header + RenderPairs(pairs, Start(t, c))
  {
  }

  /** `category.upper() + " QUESTIONS"`, which is the bucket's key, so
      `categories.get(category_upper, [])` always finds the bucket. */
  method CategoryKey(c: nat) returns (categoryUpper: string)
    requires c < CategoryCount
    ensures categoryUpper == Upper(CategoryNames[c]) + " QUESTIONS"
    ensures categoryUpper == HeaderKeys[c]
  {
    categoryUpper := Upper(CategoryNames[c]) + " QUESTIONS";
    HeaderKeysAreNames();
  }

  /** The `for i in range(target_count)` loop: append the pairs, each
      written out by render numbered from the counter on, and advance the
      counter past them. The repair pass renders with RenderPair. */
  method WritePairs(text: string, questions: seq<string>, answers: seq<string>, counter: nat,
                    render: (QA, nat) -> string)
    returns (newContent: string, questionCounter: nat)
    requires |questions| == |answers|
    ensures newContent == text + Joined(Zip(questions, answers), counter, render)
    ensures questionCounter == counter + |questions|
  {
    ghost var pairs := Zip(questions, answers);
    newContent, questionCounter := text, counter;
    for i := 0 to |questions|
      invariant questionCounter == counter + i
      invariant newContent == text + Joined(pairs[..i], counter, render)
    {
      var block := render(QA(questions[i], answers[i]), questionCounter);
      JoinedStep(text, pairs, i, counter, render, QA(questions[i], answers[i]), block);
      newContent := newContent + block;
      questionCounter := questionCounter + 1;
    }
    assert pairs[..|questions|] == pairs;
  }

  lemma RenderPairsSnoc(ps: seq<QA>, p: QA, k: nat)
    ensures RenderPairs(ps + [p], k) == RenderPairs(ps, k) + RenderPair(p, k + |ps|)
  {
    JoinedSnoc(ps, p, k, RenderPair);
  }

  // ---------------------------------------------------------------------
  // What the repaired text holds

  /** The first question of category c is numbered one more than the quotas
      before it add up to; the counter ends one past the total. */
  lemma {:induction false} StartIsSum(t: seq<int>, c: nat)
    requires ValidTargets(t) && c <= CategoryCount
    ensures Start(t, c) == 1 + Sum(t[..c])
    decreases c
  {
    if c > 0 {
      StartIsSum(t, c - 1);
      assert t[..c][..c - 1] == t[..c - 1];
    }
  }

  /** The emitted pairs by category index (none past the last category). */
  function EmittedBy(buckets: seq<seq<string>>, t: seq<int>, complexity: string): nat -> seq<QA>
    requires |buckets| == CategoryCount && ValidTargets(t)
  {
    (c: nat) => if c < CategoryCount then Emitted(buckets, t, complexity, c) else []
  }

  /** The pairs emitted for the categories before c, in output order. */
  function EmittedUpTo(buckets: seq<seq<string>>, t: seq<int>, complexity: string, c: nat): seq<QA>
    requires |buckets| == CategoryCount && ValidTargets(t) && c <= CategoryCount
  {
    Fold(EmittedBy(buckets, t, complexity), c)
  }

  /** Numbering is global and gap-free: category c's first pair is numbered
      one past the pairs emitted before it. */
  lemma {:induction false} GlobalNumbering(buckets: seq<seq<string>>, t: seq<int>, complexity: string, c: nat)
    requires |buckets| == CategoryCount && ValidTargets(t) && c <= CategoryCount
    ensures Start(t, c) == |EmittedUpTo(buckets, t, complexity, c)| + 1
    decreases c
  {
    if c > 0 {
      GlobalNumbering(buckets, t, complexity, c - 1);
      var before := EmittedUpTo(buckets, t, complexity, c - 1);
      var here := Emitted(buckets, t, complexity, c - 1);
      assert |before + here| == |before| + t[c - 1];
    }
  }

  /** The whole text holds as many pairs as the quotas add up to. */
  lemma TotalEmitted(buckets: seq<seq<string>>, t: seq<int>, complexity: string)
    requires |buckets| == CategoryCount && ValidTargets(t)
    ensures |EmittedUpTo(buckets, t, complexity, CategoryCount)| == Sum(t)
  {
    GlobalNumbering(buckets, t, complexity, CategoryCount);
    StartIsSum(t, CategoryCount);
    assert t[..CategoryCount] == t;
  }

  /** The k-th pair is written with every `Question N:` label of its
      question line and every `Answer N:` label of its answer line reading
      k, and renumbering neither adds nor removes a question marker. */
  lemma PairNumbered(p: QA, k: nat)
    ensures var qText := Relabel(p.question, QuestionWord, k);
      var aText := Relabel(p.answer, AnswerWord, k);
      && RenderPair(p, k) == qText + "\n" + aText + "\n\n"
      && Labels(qText, QuestionWord, false) == Repeat(k, |Labels(p.question, QuestionWord, false)|)
      && Labels(aText, AnswerWord, false) == Repeat(k, |Labels(p.answer, AnswerWord, false)|)
      && |Labels(qText, QuestionWord, true)| == |Labels(p.question, QuestionWord, true)|
      && |Labels(aText, QuestionWord, true)| == |Labels(p.answer, QuestionWord, true)|
  {
    RelabelNumbers(p.question, QuestionWord, k);
    RelabelNumbers(p.answer, AnswerWord, k);
    RelabelCount(p.question, QuestionWord, k, QuestionWord, true);
    RelabelCount(p.answer, AnswerWord, k, QuestionWord, true);
  }

  /** On an empty text (or one without headers) every category is made of
      padding pairs only. */
  lemma RepairOfEmpty(t: seq<int>, complexity: string, c: nat)
    requires ValidTargets(t) && c < CategoryCount
    ensures Emitted(Extract(""), t, complexity, c) == Padding(0, t[c], Start(t, c), complexity, CategoryNames[c])
  {
    assert Split("") == [""];
    assert Run(Initial(), [""]) == Run(Step(Initial(), ""), []);
    assert Extract("") == [[], [], [], [], []];
  }
}
