/** How many question markers the repaired text holds, as
    `validate_questions_count` counts them. The repair pass writes exactly
    its quota of pairs, but the count it is judged by is the number of
    `Question N:` markers, case-insensitively, anywhere in the text: the
    headers hold none and renumbering keeps the markers it rewrites, so the
    count is the markers the emitted question and answer lines carry. */
module RepairCount {
  import opened Text
  import opened Markers
  import opened Planner
  import opened Bucketing
  import opened Seqs
  import opened Repair

  /** The markers one pair carries before it is written out. */
  function PairCount(p: QA): nat {
    CountQuestions(p.question) + CountQuestions(p.answer)
  }

  function PairsCount(ps: seq<QA>): nat {
    if ps == [] then 0 else PairsCount(ps[..|ps| - 1]) + PairCount(ps[|ps| - 1])
  }

  predicate EndsInSpace(s: string) {
    s == [] || IsSpace(s[|s| - 1])
  }

  predicate LetterFirst(s: string) {
    s == [] || IsLetter(s[0])
  }

  /** A pair whose question line begins with a letter and whose answer line
      is empty or begins with one: every pair the repair pass emits. */
  predicate PairShape(p: QA) {
    p.question != [] && IsLetter(p.question[0]) && LetterFirst(p.answer)
  }

  // ---------------------------------------------------------------------
  // Counting across a concatenation

  /** A marker never straddles a line break that is followed by a letter,
      nor one followed by a single break and a letter. */
  lemma CountJoin(x: string, y: string)
    requires EndsInSpace(x)
    requires LetterFirst(y) || (|y| >= 2 && IsSpace(y[0]) && IsLetter(y[1]))
    ensures CountQuestions(x + y) == CountQuestions(x) + CountQuestions(y)
  {
    var w := "Question";
    assert IsWord(w) by {
      assert forall i :: 0 <= i < |w| ==> IsLetter(w[i]);
    }
    if LetterFirst(y) {
      LabelsSplit(x, y, w, true);
    } else {
      var sp := [y[0]];
      var rest := y[1..];
      assert y == sp + rest;
      assert x + y == (x + sp) + rest;
      LabelsSplit(x + sp, rest, w, true);
      LabelsTrailingSpace(x, sp, w, true);
      NotLetterNoMatch(y[0], w[0], true);
      LabelsNoStart(sp, rest, w, true);
    }
  }

  lemma CountTrailing(x: string, sp: string)
    requires forall i :: 0 <= i < |sp| ==> IsSpace(sp[i])
    ensures CountQuestions(x + sp) == CountQuestions(x)
  {
    LabelsTrailingSpace(x, sp, "Question", true);
  }

  /** A pair written out carries the markers of its two lines, begins with
      a letter and ends with a line break. */
  lemma RenderedPairCount(p: QA, k: nat)
    requires PairShape(p)
    ensures var r := RenderPair(p, k);
      && CountQuestions(r) == PairCount(p)
      && LetterFirst(r) && r != [] && EndsInSpace(r)
  {
    var qText := Relabel(p.question, QuestionWord, k);
    var aText := Relabel(p.answer, AnswerWord, k);
    RelabelFirst(p.question, QuestionWord, k);
    if p.answer != [] {
      RelabelFirst(p.answer, AnswerWord, k);
    }
    RelabelCount(p.question, QuestionWord, k, QuestionWord, true);
    RelabelCount(p.answer, AnswerWord, k, QuestionWord, true);
    PairTextCount(qText, aText);
  }

  /** The two lines of a pair, followed by a line break and a blank line. */
  lemma PairTextCount(qText: string, aText: string)
    requires LetterFirst(aText)
    ensures var r := PairText(qText, aText);
      && CountQuestions(r) == CountQuestions(qText) + CountQuestions(aText)
      && (qText != [] ==> r[0] == qText[0]) && r != [] && EndsInSpace(r)
  {
    var x := qText + "\n";
    var r := PairText(qText, aText);
    assert r == (x + aText) + "\n\n";
    CountTrailing(x + aText, "\n\n");
    CountJoin(x, aText);
    CountTrailing(qText, "\n");
  }

  /** Pairs written out one after another carry the markers of all their
      lines. */
  lemma {:induction false} RenderedCount(ps: seq<QA>, k: nat)
    requires forall i :: 0 <= i < |ps| ==> PairShape(ps[i])
    ensures var r := Joined(ps, k, RenderPair);
      && CountQuestions(r) == PairsCount(ps)
      && LetterFirst(r) && EndsInSpace(r)
    decreases |ps|
  {
    if ps != [] {
      var front := ps[..|ps| - 1];
      var last := ps[|ps| - 1];
      var x := Joined(front, k, RenderPair);
      var y := RenderPair(last, k + |ps| - 1);
      assert CountQuestions(x) == PairsCount(front) && LetterFirst(x) && EndsInSpace(x) by {
        RenderedCount(front, k);
      }
      assert CountQuestions(y) == PairCount(last) && LetterFirst(y) && EndsInSpace(y) by {
        RenderedPairCount(last, k + |ps| - 1);
      }
      assert Joined(ps, k, RenderPair) == x + y;
      CountJoin(x, y);
    }
  }

  lemma PairsCountAppend(a: seq<QA>, b: seq<QA>)
    ensures PairsCount(a + b) == PairsCount(a) + PairsCount(b)
    decreases |b|
  {
    if b != [] {
      var front, last := b[..|b| - 1], b[|b| - 1];
      assert PairsCount(a + front) == PairsCount(a) + PairsCount(front) by {
        PairsCountAppend(a, front);
      }
      assert (a + b)[..|a + b| - 1] == a + front && (a + b)[|a + b| - 1] == last;
      assert PairsCount(a + b) == PairsCount(a + front) + PairCount(last);
    } else {
      assert a + b == a;
    }
  }

  // ---------------------------------------------------------------------
  // Headers

  /** A key is upper-case words, '/' and '-': no digit, a letter first. */
  lemma KeyShape(c: nat)
    requires c < CategoryCount
    ensures HeaderKeys[c] != [] && IsLetter(HeaderKeys[c][0])
    ensures NoDigits(HeaderKeys[c])
  {
    var key := HeaderKeys[c];
    if c == 0 { LiteralKey(key, "TECHNICAL QUESTIONS"); }
    else if c == 1 { LiteralKey(key, "BEHAVIORAL QUESTIONS"); }
    else if c == 2 { LiteralKey(key, "SITUATIONAL QUESTIONS"); }
    else { LaterKeyShape(c); }
  }

  lemma LaterKeyShape(c: nat)
    requires 3 <= c < CategoryCount
    ensures HeaderKeys[c] != [] && IsLetter(HeaderKeys[c][0])
    ensures NoDigits(HeaderKeys[c])
  {
    var key := HeaderKeys[c];
    if c == 3 { LiteralKey(key, "CULTURAL/PERSONALITY QUESTIONS"); }
    else { LiteralKey(key, "PROBLEM-SOLVING QUESTIONS"); }
  }

  lemma LiteralKey(key: string, lit: string)
    requires key == lit && lit != [] && IsLetter(lit[0]) && NoDigits(lit)
    ensures key != [] && IsLetter(key[0]) && NoDigits(key)
  {
  }

  predicate NoDigits(s: string) {
    forall i :: 0 <= i < |s| ==> !IsDigit(s[i])
  }

  lemma NoDigitsConcat(a: string, b: string)
    requires NoDigits(a) && NoDigits(b)
    ensures NoDigits(a + b)
  {
    assert forall i :: 0 <= i < |a + b| ==> (a + b)[i] == if i < |a| then a[i] else b[i - |a|];
  }

  /** A category header holds no marker; it begins with a line break and a
      letter and ends with a line break. */
  lemma HeaderCount(c: nat)
    requires c < CategoryCount
    ensures var h := Header(c);
      && CountQuestions(h) == 0
      && |h| >= 2 && IsSpace(h[0]) && IsLetter(h[1]) && EndsInSpace(h)
  {
    var h := Header(c);
    var key := HeaderKeys[c];
    KeyShape(c);
    NoDigitsConcat("\n", key);
    NoDigitsConcat("\n" + key, ":\n\n");
    LabelsNoDigit(h, "Question", true);
  }

  // ---------------------------------------------------------------------
  // What is emitted

  lemma NoAnswerShape(counter: nat)
    ensures var a := NoAnswer(counter); a != [] && a[0] == 'A'
  {
  }

  lemma PadShape(j: nat, qNum: nat, complexity: string, category: string)
    ensures PairShape(Pad(j, qNum, complexity, category))
  {
    var p := Pad(j, qNum, complexity, category);
    assert p.question[0] == 'Q' && p.answer[0] == 'A';
  }

  /** Every pair the pairing loop forms has the shape of a pair. */
  lemma PairedShape(lines: seq<string>, counter: nat)
    ensures var r := PairFrom(lines, 0, counter);
      forall i :: 0 <= i < |r| ==> PairShape(r[i])
  {
    var r := PairFrom(lines, 0, counter);
    NoAnswerShape(counter);
    forall i | 0 <= i < |r| ensures PairShape(r[i]) {
      assert IsQuestion(r[i].question);
    }
  }

  /** Cutting or padding keeps every pair in shape. */
  lemma FitShape(pairs: seq<QA>, target: nat, start: nat, complexity: string, category: string)
    requires forall i :: 0 <= i < |pairs| ==> PairShape(pairs[i])
    ensures var r := Fit(pairs, target, start, complexity, category);
      forall i :: 0 <= i < |r| ==> PairShape(r[i])
  {
    var r := Fit(pairs, target, start, complexity, category);
    forall i | 0 <= i < |r| ensures PairShape(r[i]) {
      if i < |pairs| {
        assert r[i] == pairs[i];
      } else {
        PadShape(i + 1, start + i, complexity, category);
      }
    }
  }

  /** Every pair the repair pass emits has the shape of a pair. */
  lemma EmittedShape(buckets: seq<seq<string>>, t: seq<int>, complexity: string, c: nat)
    requires |buckets| == CategoryCount && ValidTargets(t) && c < CategoryCount
    ensures var e := Emitted(buckets, t, complexity, c);
      forall i :: 0 <= i < |e| ==> PairShape(e[i])
  {
    var start := Start(t, c);
    PairedShape(buckets[c], start);
    FitShape(PairFrom(buckets[c], 0, start), t[c], start, complexity, CategoryNames[c]);
  }

  /** The markers of one category's section are those of its pairs. */
  lemma SectionCount(buckets: seq<seq<string>>, t: seq<int>, complexity: string, c: nat)
    requires |buckets| == CategoryCount && ValidTargets(t) && c < CategoryCount
    ensures var s := Section(buckets, t, complexity, c);
      && CountQuestions(s) == PairsCount(Emitted(buckets, t, complexity, c))
      && SectionShaped(s)
  {
    var e := Emitted(buckets, t, complexity, c);
    var body := RenderPairs(e, Start(t, c));
    EmittedShape(buckets, t, complexity, c);
    RenderedCount(e, Start(t, c));
    HeaderCount(c);
    CountJoin(Header(c), body);
  }

  /** Text that begins with a line break and a letter and ends with a line
      break, as every section does. */
  predicate SectionShaped(s: string) {
    |s| >= 2 && IsSpace(s[0]) && IsLetter(s[1]) && EndsInSpace(s)
  }

  /** Piece i of a text carries the markers of piece i of a pair list, and
      is shaped like a section. */
  predicate Counted(f: nat -> string, g: nat -> seq<QA>, i: nat) {
    CountQuestions(f(i)) == PairsCount(g(i)) && SectionShaped(f(i))
  }

  /** Texts written one after another carry the markers of their pairs,
      when each carries its own pairs' markers and is shaped like a section. */
  lemma {:induction false} FoldCount(f: nat -> string, g: nat -> seq<QA>, c: nat)
    requires forall i :: 0 <= i < c ==> Counted(f, g, i)
    ensures CountQuestions(Fold(f, c)) == PairsCount(Fold(g, c)) && EndsInSpace(Fold(f, c))
    decreases c
  {
    if c == 0 {
      assert Fold(f, c) == [] && Fold(g, c) == [];
    } else {
      FoldCount(f, g, c - 1);
      assert Counted(f, g, c - 1);
      JoinCount(Fold(f, c), Fold(f, c - 1), f(c - 1), Fold(g, c), Fold(g, c - 1), g(c - 1));
    }
  }

  /** The text written for the categories before c carries the markers of
      the pairs emitted for them. */
  lemma RepairUpToCount(buckets: seq<seq<string>>, t: seq<int>, complexity: string, c: nat)
    requires |buckets| == CategoryCount && ValidTargets(t) && c <= CategoryCount
    ensures CountQuestions(RepairUpTo(buckets, t, complexity, c)) == PairsCount(EmittedUpTo(buckets, t, complexity, c))
  {
    var f := Sections(buckets, t, complexity);
    var g := EmittedBy(buckets, t, complexity);
    forall i | 0 <= i < c
      ensures Counted(f, g, i)
    {
      SectionCount(buckets, t, complexity, i);
    }
    FoldCount(f, g, c);
  }

  /** One more section adds its pairs' markers to the count. */
  lemma JoinCount(text: string, before: string, section: string, pairs: seq<QA>, emitted: seq<QA>, here: seq<QA>)
    requires text == before + section && pairs == emitted + here
    requires CountQuestions(before) == PairsCount(emitted) && EndsInSpace(before)
    requires CountQuestions(section) == PairsCount(here) && SectionShaped(section)
    ensures CountQuestions(text) == PairsCount(pairs) && EndsInSpace(text)
  {
    CountJoin(before, section);
    PairsCountAppend(emitted, here);
  }

  /** The whole repaired text carries exactly the markers of the pairs it
      emits: headers add none and renumbering loses or adds none. */
  lemma RepairCountIsPairCount(content: string, t: seq<int>, complexity: string)
    requires ValidTargets(t)
    ensures CountQuestions(Repair.Repair(content, t, complexity))
      == PairsCount(EmittedUpTo(Extract(content), t, complexity, CategoryCount))
  {
    RepairUpToCount(Extract(content), t, complexity, CategoryCount);
  }

  // ---------------------------------------------------------------------
  // When the count comes out exact

  /** A question line with exactly one marker and an answer line with none. */
  predicate GoodPair(p: QA) {
    CountQuestions(p.question) == 1 && CountQuestions(p.answer) == 0
  }

  lemma {:induction false} GoodPairsCount(ps: seq<QA>)
    requires forall p :: p in ps ==> GoodPair(p)
    ensures PairsCount(ps) == |ps|
    decreases |ps|
  {
    if ps != [] {
      var front := ps[..|ps| - 1];
      assert forall p :: p in front ==> p in ps;
      GoodPairsCount(front);
      assert ps[|ps| - 1] in ps;
    }
  }

  /** The stripped lines of a text, as the scanner sees them, each carrying
      one marker when it begins with "Question" and none when it begins with
      "Answer". */
  predicate WellCounted(lines: seq<string>) {
    forall line :: line in lines ==>
      (IsQuestion(line) ==> CountQuestions(line) == 1) && (IsAnswer(line) ==> CountQuestions(line) == 0)
  }

  lemma {:induction false} SubseqMembers<T>(a: seq<T>, b: seq<T>)
    requires IsSubseq(a, b)
    ensures forall x :: x in a ==> x in b
    decreases |b|
  {
    if a != [] {
      var b' := b[..|b| - 1];
      if a[|a| - 1] == b[|b| - 1] && IsSubseq(a[..|a| - 1], b') {
        SubseqMembers(a[..|a| - 1], b');
        forall x | x in a ensures x in b {
          if x != a[|a| - 1] {
            assert x in a[..|a| - 1];
            assert x in b';
          }
        }
      } else {
        SubseqMembers(a, b');
        assert forall x :: x in b' ==> x in b;
      }
    }
  }

  /** A pair made of a question line of the bucket and either an answer
      line of it or the placeholder. */
  predicate FromLines(p: QA, lines: seq<string>, counter: nat) {
    && p.question in lines && IsQuestion(p.question)
    && ((p.answer in lines && IsAnswer(p.answer)) || p.answer == NoAnswer(counter))
  }

  /** Every pair the pairing loop forms has a question line of the bucket,
      and an answer line of the bucket or the placeholder. */
  lemma {:induction false} PairedFromLines(lines: seq<string>, i: nat, counter: nat)
    ensures forall p :: p in PairFrom(lines, i, counter) ==> FromLines(p, lines, counter)
    decreases |lines| - i
  {
    if i < |lines| {
      if IsQuestion(lines[i]) {
        var next := if i + 1 < |lines| && IsAnswer(lines[i + 1]) then i + 2 else i + 1;
        var answer := if i + 1 < |lines| && IsAnswer(lines[i + 1]) then lines[i + 1] else NoAnswer(counter);
        PairedFromLines(lines, next, counter);
        assert PairFrom(lines, i, counter) == [QA(lines[i], answer)] + PairFrom(lines, next, counter);
        assert lines[i] in lines;
        if i + 1 < |lines| && IsAnswer(lines[i + 1]) {
          assert lines[i + 1] in lines;
        }
      } else {
        PairedFromLines(lines, i + 1, counter);
      }
    }
  }

  /** No character of s is 'q' or 'Q', so no marker can begin in it. */
  predicate NoQ(s: string) {
    forall i :: 0 <= i < |s| ==> !CharMatches(s[i], 'Q', true)
  }

  lemma DigitsNoQ(s: string)
    requires forall i :: 0 <= i < |s| ==> IsDigit(s[i])
    ensures NoQ(s)
  {
    forall i | 0 <= i < |s| ensures !CharMatches(s[i], 'Q', true) {
      NotLetterNoMatch(s[i], 'Q', true);
    }
  }

  lemma NoQConcat(a: string, b: string)
    requires NoQ(a) && NoQ(b)
    ensures NoQ(a + b)
  {
    assert forall i :: 0 <= i < |a + b| ==> (a + b)[i] == if i < |a| then a[i] else b[i - |a|];
  }

  lemma LowerKeepsColons(s: string)
    requires ':' !in s
    ensures ':' !in Lower(s)
  {
    CaseByChar(s);
  }

  lemma NameNoColon(c: nat)
    requires c < CategoryCount
    ensures ':' !in CategoryNames[c]
  {
    var name := CategoryNames[c];
    if c == 0 { assert name == "Technical"; }
    else if c == 1 { assert name == "Behavioral"; }
    else if c == 2 { assert name == "Situational"; }
    else if c == 3 { assert name == "Cultural/Personality"; }
    else { assert name == "Problem-Solving"; }
  }

  /** The placeholder answer carries no marker. */
  lemma NoAnswerCount(counter: nat)
    ensures CountQuestions(NoAnswer(counter)) == 0
  {
    var digits := Itoa(counter);
    DigitsNoQ(digits);
    NoQConcat("Answer ", digits);
    NoQConcat("Answer " + digits, ": No answer available");
    assert NoAnswer(counter) == ("Answer " + digits + ": No answer available") + [];
    LabelsNoStart(NoAnswer(counter), [], "Question", true);
  }

  /** A padding pair carries one marker in its question and none in its
      answer, as long as the complexity text holds no colon. */
  lemma PadCount(j: nat, qNum: nat, complexity: string, category: string)
    requires ':' !in complexity && ':' !in category
    ensures GoodPair(Pad(j, qNum, complexity, category))
  {
    var m := Itoa(j);
    var tail := PadTail(complexity, category);
    PadTailNoColon(complexity, category);
    assert ':' !in m;
    PadSplit(j, qNum, complexity, category);
    TaggedCount(qNum, tail + " question " + m);
    UntaggedCount(Itoa(qNum), tail + " answer " + m);
  }

  /** A padding pair is a label followed by the padding words. */
  lemma PadSplit(j: nat, qNum: nat, complexity: string, category: string)
    ensures var p := Pad(j, qNum, complexity, category);
      var tail := PadTail(complexity, category);
      && p.question == Tag(QuestionWord, qNum) + (tail + " question " + Itoa(j))
      && p.answer == "Answer " + Itoa(qNum) + ":" + (tail + " answer " + Itoa(j))
  {
    var n := Itoa(qNum);
    var m := Itoa(j);
    var lower := Lower(category);
    assert "Question " == QuestionWord + " ";
    assert ": Additional " == ":" + " Additional ";
    LabelColon(QuestionWord + " ", n, complexity, lower, " question ", m);
    LabelColon("Answer ", n, complexity, lower, " answer ", m);
  }

  /** Moving the colon of ": Additional " onto the label. */
  lemma LabelColon(head: string, n: string, complexity: string, lower: string, kind: string, m: string)
    ensures head + n + (":" + " Additional ") + complexity + " " + lower + kind + m
      == head + n + ":" + (" Additional " + complexity + " " + lower + kind + m)
  {
  }

  /** The words after the label of a padding line, up to its kind. */
  function PadTail(complexity: string, category: string): string {
    " Additional " + complexity + " " + Lower(category)
  }

  lemma PadTailNoColon(complexity: string, category: string)
    requires ':' !in complexity && ':' !in category
    ensures ':' !in PadTail(complexity, category)
  {
    LowerKeepsColons(category);
  }

  /** A label followed by colon-free text: one marker. */
  lemma TaggedCount(k: nat, rest: string)
    requires ':' !in rest
    ensures CountQuestions(Tag(QuestionWord, k) + rest) == 1
  {
    var tag := Tag(QuestionWord, k);
    TagIsLabel(QuestionWord, k, rest, true);
    LabelsAfter(tag + rest, QuestionWord, true, Label(|tag|, k, |QuestionWord| + 1));
    assert (tag + rest)[|tag|..] == rest;
    LabelsNoColon(rest, QuestionWord, true);
  }

  /** "Answer N:" followed by colon-free text: no marker. */
  lemma UntaggedCount(n: string, rest: string)
    requires forall i :: 0 <= i < |n| ==> IsDigit(n[i])
    requires ':' !in rest
    ensures CountQuestions("Answer " + n + ":" + rest) == 0
  {
    var head := "Answer " + n + ":";
    DigitsNoQ(n);
    NoQConcat("Answer ", n);
    NoQConcat("Answer " + n, ":");
    LabelsNoStart(head, rest, "Question", true);
    LabelsNoColon(rest, "Question", true);
  }

  /** The lines the scanner keeps in its buckets: every kept question line
      carries one marker and every kept answer line none. Lines before the
      first header, which the scanner drops, are not constrained. */
  predicate KeptWellCounted(content: string) {
    forall c :: 0 <= c < CategoryCount ==> WellCounted(Extract(content)[c])
  }

  /** A text whose stripped lines are all well counted has well-counted
      buckets. */
  lemma AllLinesKeptWellCounted(content: string)
    requires WellCounted(StripAll(Split(content)))
    ensures KeptWellCounted(content)
  {
    forall c | 0 <= c < CategoryCount ensures WellCounted(Extract(content)[c]) {
      BucketWellCounted(content, c);
    }
  }

  /** The lines of every bucket are lines of the text, so they are well
      counted when the text's lines are. */
  lemma BucketWellCounted(content: string, c: nat)
    requires c < CategoryCount && WellCounted(StripAll(Split(content)))
    ensures WellCounted(Extract(content)[c])
  {
    BucketsInOrder(Split(content));
    SubseqMembers(Extract(content)[c], StripAll(Split(content)));
  }

  /** Pairs formed from well-counted lines are good. */
  lemma PairedGood(lines: seq<string>, counter: nat)
    requires WellCounted(lines)
    ensures forall p :: p in PairFrom(lines, 0, counter) ==> GoodPair(p)
  {
    PairedFromLines(lines, 0, counter);
    NoAnswerCount(counter);
  }

  lemma PadGood(p: QA, j: nat, qNum: nat, complexity: string, category: string)
    requires p == Pad(j, qNum, complexity, category)
    requires ':' !in complexity && ':' !in category
    ensures GoodPair(p)
  {
    PadCount(j, qNum, complexity, category);
  }

  /** Cutting good pairs or padding them keeps every pair good. */
  lemma FitGood(pairs: seq<QA>, target: nat, start: nat, complexity: string, category: string)
    requires forall p :: p in pairs ==> GoodPair(p)
    requires ':' !in complexity && ':' !in category
    ensures forall p :: p in Fit(pairs, target, start, complexity, category) ==> GoodPair(p)
  {
    if |pairs| >= target {
      assert forall p :: p in pairs[..target] ==> p in pairs;
    } else {
      var padding := Padding(|pairs|, target, start, complexity, category);
      PaddingGood(|pairs|, target, start, complexity, category);
      assert forall p :: p in pairs + padding ==> p in pairs || p in padding;
    }
  }

  lemma PaddingGood(have: nat, target: nat, start: nat, complexity: string, category: string)
    requires ':' !in complexity && ':' !in category
    ensures forall p :: p in Padding(have, target, start, complexity, category) ==> GoodPair(p)
  {
    var r := Padding(have, target, start, complexity, category);
    forall i | 0 <= i < |r| ensures GoodPair(r[i]) {
      PadGood(r[i], have + i + 1, start + have + i, complexity, category);
    }
  }

  /** With well-counted kept lines and a colon-free complexity, every pair
      the repair pass emits for a category is good. */
  lemma EmittedGood(content: string, t: seq<int>, complexity: string, c: nat)
    requires ValidTargets(t) && c < CategoryCount
    requires ':' !in complexity && KeptWellCounted(content)
    ensures forall p :: p in Emitted(Extract(content), t, complexity, c) ==> GoodPair(p)
  {
    var buckets := Extract(content);
    var start := Start(t, c);
    PairedGood(buckets[c], start);
    NameNoColon(c);
    FitGood(PairFrom(buckets[c], 0, start), t[c], start, complexity, CategoryNames[c]);
  }

  lemma EmittedUpToGood(content: string, t: seq<int>, complexity: string, c: nat)
    requires ValidTargets(t) && c <= CategoryCount
    requires ':' !in complexity && KeptWellCounted(content)
    ensures forall p :: p in EmittedUpTo(Extract(content), t, complexity, c) ==> GoodPair(p)
  {
    var g := EmittedBy(Extract(content), t, complexity);
    forall i | 0 <= i < c
      ensures All(g(i), GoodPair)
    {
      EmittedGood(content, t, complexity, i);
    }
    FoldAll(g, c, GoodPair);
  }

  /** The repaired text passes `validate_questions_count` for the total of
      the quotas when every question line the scanner keeps carries one
      marker, every kept answer line none, and the complexity holds no colon. */
  lemma RepairValidates(content: string, t: seq<int>, complexity: string)
    requires ValidTargets(t)
    requires ':' !in complexity && KeptWellCounted(content)
    ensures ValidateQuestionsCount(Repair.Repair(content, t, complexity), Sum(t))
  {
    var buckets := Extract(content);
    RepairCountIsPairCount(content, t, complexity);
    EmittedUpToGood(content, t, complexity, CategoryCount);
    GoodPairsCount(EmittedUpTo(buckets, t, complexity, CategoryCount));
    TotalEmitted(buckets, t, complexity);
  }

  // ---------------------------------------------------------------------
  // Why the exact count needs its hypothesis

  /** A kept question line that carries no `Question N:` label, such as the
      bare "Question", is passed through the renumbering unchanged. */
  lemma UnlabelledQuestionLine()
    ensures IsQuestion(QuestionWord) && CountQuestions(QuestionWord) == 0
  {
    assert NoDigits(QuestionWord);
    LabelsNoDigit(QuestionWord, "Question", true);
  }

  /** Pairs carrying at most one marker each carry no more markers than
      there are pairs, and strictly fewer once one of them carries none. */
  lemma {:induction false} PairsCountBelow(ps: seq<QA>, bad: QA)
    requires forall p :: p in ps ==> PairCount(p) <= 1
    ensures PairsCount(ps) <= |ps|
    ensures bad in ps && PairCount(bad) == 0 ==> PairsCount(ps) < |ps|
    decreases |ps|
  {
    if ps != [] {
      var front, last := ps[..|ps| - 1], ps[|ps| - 1];
      assert PairCount(last) <= 1 by {
        assert last in ps;
      }
      assert forall p :: p in front ==> p in ps;
      PairsCountBelow(front, bad);
      if bad in ps && bad !in front {
        assert bad == last by {
          DropLast(ps);
        }
      }
    }
  }

  /** Once one emitted pair carries no marker (and none carries two), the
      repaired text falls short of the requested total and fails the
      validator it was meant to satisfy. */
  lemma DriftBelowTotal(content: string, t: seq<int>, complexity: string, bad: QA)
    requires ValidTargets(t)
    requires forall p :: p in EmittedUpTo(Extract(content), t, complexity, CategoryCount) ==> PairCount(p) <= 1
    requires bad in EmittedUpTo(Extract(content), t, complexity, CategoryCount) && PairCount(bad) == 0
    ensures CountQuestions(Repair.Repair(content, t, complexity)) < Sum(t)
    ensures !ValidateQuestionsCount(Repair.Repair(content, t, complexity), Sum(t))
  {
    var buckets := Extract(content);
    RepairCountIsPairCount(content, t, complexity);
    PairsCountBelow(EmittedUpTo(buckets, t, complexity, CategoryCount), bad);
    TotalEmitted(buckets, t, complexity);
  }

  predicate AtMostOneMarker(p: QA) {
    PairCount(p) <= 1
  }

  /** A bare "Question" line under the first header, repaired with five
      quotas of one: the question is kept unlabelled, so the repaired text
      carries four markers instead of five and fails the validator. */
  lemma DriftExample(content: string)
    requires content == HeaderKeys[0] + "\n" + QuestionWord
    ensures !ValidateQuestionsCount(Repair.Repair(content, [1, 1, 1, 1, 1], "basic"), 5)
  {
    var h, q := HeaderKeys[0], QuestionWord;
    TechnicalHeaderLine(h);
    BareQuestionLine(q);
    UnlabelledQuestionLine();
    OnesQuotas([1, 1, 1, 1, 1]);
    DriftAfterHeader(content, h, q, [1, 1, 1, 1, 1]);
  }

  /** Five quotas of one. */
  predicate Ones(t: seq<int>) {
    |t| == CategoryCount && forall c :: 0 <= c < CategoryCount ==> t[c] == 1
  }

  lemma OnesQuotas(t: seq<int>)
    requires t == [1, 1, 1, 1, 1]
    ensures Ones(t) && ValidTargets(t) && Sum(t) == CategoryCount
  {
    SumFive(t);
  }

  /** A text made of the first header and one question line without a
      marker drifts below five markers when repaired with quotas of one. */
  lemma DriftAfterHeader(content: string, h: string, q: string, t: seq<int>)
    requires content == h + "\n" + q
    requires '\n' !in h && h != [] && Strip(h) == h && HeaderIn(h) == Some(0) && !Kept(h)
    requires '\n' !in q && q != [] && Strip(q) == q && HeaderIn(q).None? && Kept(q)
    requires IsQuestion(q) && CountQuestions(q) == 0
    requires Ones(t) && ValidTargets(t) && Sum(t) == CategoryCount
    ensures !ValidateQuestionsCount(Repair.Repair(content, t, "basic"), 5)
  {
    HeaderThenQuestionText(content, h, q);
    DriftFromBuckets(content, q, t);
  }

  /** The text made of the first header and a kept line puts that line,
      alone, in the first category. */
  lemma HeaderThenQuestionText(content: string, h: string, q: string)
    requires content == h + "\n" + q
    requires '\n' !in h && h != [] && Strip(h) == h && HeaderIn(h) == Some(0) && !Kept(h)
    requires '\n' !in q && q != [] && Strip(q) == q && HeaderIn(q).None? && Kept(q)
    ensures Extract(content) == [[q], [], [], [], []]
  {
    SplitAfter(h, q);
    SplitSingle(q);
    assert Split(content) == [h, q];
    HeaderThenQuestion(h, q, 0);
  }

  /** Any text whose only kept line is a question line without a marker,
      under the first header, drifts below five markers when repaired with
      quotas of one. */
  lemma DriftFromBuckets(content: string, q: string, t: seq<int>)
    requires Ones(t) && ValidTargets(t) && Sum(t) == CategoryCount
    requires IsQuestion(q) && CountQuestions(q) == 0
    requires Extract(content) == [[q], [], [], [], []]
    ensures !ValidateQuestionsCount(Repair.Repair(content, t, "basic"), 5)
  {
    var buckets := Extract(content);
    var bad := QA(q, NoAnswer(1));
    var g := EmittedBy(buckets, t, "basic");
    assert All(Fold(g, CategoryCount), AtMostOneMarker) by {
      forall c | 0 <= c < CategoryCount
        ensures All(g(c), AtMostOneMarker)
      {
        EmittedExample(buckets, q, t, c, bad);
      }
      FoldAll(g, CategoryCount, AtMostOneMarker);
    }
    assert bad in Fold(g, CategoryCount) by {
      EmittedExample(buckets, q, t, 0, bad);
      FoldMember(g, 0, CategoryCount, bad);
    }
    assert PairCount(bad) == 0 by {
      NoAnswerCount(1);
    }
    assert EmittedUpTo(buckets, t, "basic", CategoryCount) == Fold(g, CategoryCount);
    DriftBelowTotal(content, t, "basic", bad);
  }

  /** The pairs emitted per category for such a text: the question with the
      placeholder answer, then one padding pair for each other category. */
  lemma EmittedExample(buckets: seq<seq<string>>, q: string, t: seq<int>, c: nat, bad: QA)
    requires Ones(t) && ValidTargets(t)
    requires IsQuestion(q) && CountQuestions(q) == 0
    requires buckets == [[q], [], [], [], []] && c < CategoryCount
    requires bad == QA(q, NoAnswer(1))
    ensures All(EmittedBy(buckets, t, "basic")(c), AtMostOneMarker)
    ensures c == 0 ==> EmittedBy(buckets, t, "basic")(c) == [bad]
  {
    assert EmittedBy(buckets, t, "basic")(c) == Emitted(buckets, t, "basic", c);
    if c == 0 {
      EmittedFirst(buckets, q, t, bad);
    } else {
      EmittedPadding(buckets, t, c);
    }
  }

  /** The first category's only line is a question without an answer: it
      is emitted once, with the placeholder answer, and carries no marker. */
  lemma EmittedFirst(buckets: seq<seq<string>>, q: string, t: seq<int>, bad: QA)
    requires Ones(t) && ValidTargets(t)
    requires IsQuestion(q) && CountQuestions(q) == 0
    requires |buckets| == CategoryCount && buckets[0] == [q]
    requires bad == QA(q, NoAnswer(1))
    ensures Emitted(buckets, t, "basic", 0) == [bad]
    ensures All([bad], AtMostOneMarker)
  {
    assert PairFrom(buckets[0], 0, 1) == [bad];
    NoAnswerCount(1);
  }

  /** An empty category with a quota of one is filled by one padding pair,
      which carries one marker. */
  lemma EmittedPadding(buckets: seq<seq<string>>, t: seq<int>, c: nat)
    requires Ones(t) && ValidTargets(t)
    requires |buckets| == CategoryCount && 0 < c < CategoryCount && buckets[c] == []
    ensures All(Emitted(buckets, t, "basic", c), AtMostOneMarker)
  {
    var start := Start(t, c);
    var pad := Pad(1, start, "basic", CategoryNames[c]);
    assert Emitted(buckets, t, "basic", c) == [pad] by {
      assert PairFrom(buckets[c], 0, start) == [];
    }
    NameNoColon(c);
    PadGood(pad, 1, start, "basic", CategoryNames[c]);
  }
}
