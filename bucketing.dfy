/** `extract_questions_by_category`: a line scanner that sorts the question
    and answer lines of a generated text into the five category buckets.
    Buckets are numbered like the planner's categories. */
module Bucketing {
  import opened Text
  import opened Planner
  import opened Seqs

  /** The dictionary keys, which are also the headers looked for. */
  const HeaderKeys: seq<string> := [
    "TECHNICAL QUESTIONS",
    "BEHAVIORAL QUESTIONS",
    "SITUATIONAL QUESTIONS",
    "CULTURAL/PERSONALITY QUESTIONS",
    "PROBLEM-SOLVING QUESTIONS"
  ]

  /** The first key, in dictionary order from c on, that occurs in the
      upper-cased line u. */
  function HeaderFrom(u: string, c: nat): (r: Option<nat>)
    requires c <= CategoryCount
    ensures r.Some? ==> c <= r.value < CategoryCount
    decreases CategoryCount - c
  {
    if c == CategoryCount then None
    else if Contains(u, HeaderKeys[c]) then Some(c)
    else HeaderFrom(u, c + 1)
  }

  /** The category whose header the line carries, if any. */
  function HeaderIn(line: string): (r: Option<nat>)
    ensures r.Some? ==> r.value < CategoryCount
  {
    HeaderFrom(Upper(line), 0)
  }

  lemma {:induction false} HeaderFromFirst(u: string, c: nat)
    requires c <= CategoryCount
    ensures var r := HeaderFrom(u, c);
      && (r.Some? ==> Contains(u, HeaderKeys[r.value]))
      && (r.Some? ==> forall b :: c <= b < r.value ==> !Contains(u, HeaderKeys[b]))
      && (r.None? ==> forall b :: c <= b < CategoryCount ==> !Contains(u, HeaderKeys[b]))
    decreases CategoryCount - c
  {
    if c < CategoryCount && !Contains(u, HeaderKeys[c]) {
      HeaderFromFirst(u, c + 1);
    }
  }

  /** A line carries the header of the first key, in dictionary order, that
      occurs in it upper-cased; it carries none when no key occurs. */
  lemma HeaderInFirst(line: string)
    ensures var r := HeaderIn(line);
      && (r.Some? ==> Contains(Upper(line), HeaderKeys[r.value]))
      && (r.Some? ==> forall b :: 0 <= b < r.value ==> !Contains(Upper(line), HeaderKeys[b]))
      && (r.None? ==> forall b :: 0 <= b < CategoryCount ==> !Contains(Upper(line), HeaderKeys[b]))
  {
    HeaderFromFirst(Upper(line), 0);
  }

  /** A line the scanner keeps (case-sensitive prefix test). */
  predicate Kept(line: string) {
    StartsWith(line, "Question") || StartsWith(line, "Answer")
  }

  /** Where the scanner is: the current category, if a header has been seen,
      and the five buckets. */
  datatype Scan = Scan(current: Option<nat>, buckets: seq<seq<string>>)

  predicate WellFormed(st: Scan) {
    |st.buckets| == CategoryCount && (st.current.Some? ==> st.current.value < CategoryCount)
  }

  function Initial(): (r: Scan)
    ensures WellFormed(r) && r.current.None?
    ensures forall c :: 0 <= c < CategoryCount ==> r.buckets[c] == []
  {
    Scan(None, [[], [], [], [], []])
  }

  /** One pass of the loop body on a raw line: strip it, skip it when empty,
      move the cursor on a header, then keep it when it is a question or an
      answer and there is a current category. */
  function Step(st: Scan, raw: string): (r: Scan)
    requires WellFormed(st)
    ensures WellFormed(r)
  {
    var line := Strip(raw);
    if line == [] then st
    else
      var cur := if HeaderIn(line).Some? then HeaderIn(line) else st.current;
      if cur.Some? && Kept(line) then
        Scan(cur, st.buckets[cur.value := st.buckets[cur.value] + [line]])
      else
        Scan(cur, st.buckets)
  }

  /** The scanner run over the lines from st on. */
  function Run(st: Scan, lines: seq<string>): (r: Scan)
    requires WellFormed(st)
    ensures WellFormed(r)
    decreases |lines|
  {
    if lines == [] then st else Run(Step(st, lines[0]), lines[1..])
  }

  /** The buckets the scanner fills from the lines of content. */
  function ExtractLines(lines: seq<string>): (r: seq<seq<string>>)
    ensures |r| == CategoryCount
  {
    Run(Initial(), lines).buckets
  }

  function Extract(content: string): (r: seq<seq<string>>)
    ensures |r| == CategoryCount
  {
    ExtractLines(Split(content))
  }

  /** `extract_questions_by_category(content)` */
  method ExtractQuestionsByCategory(content: string) returns (buckets: seq<seq<string>>)
    ensures buckets == Extract(content)
    ensures |buckets| == CategoryCount
  {
    buckets := [[], [], [], [], []];
    var current: Option<nat> := None;
    var lines := Split(content);
    for i := 0 to |lines|
      invariant WellFormed(Scan(current, buckets))
      invariant Run(Scan(current, buckets), lines[i..]) == Run(Initial(), lines)
    {
      assert lines[i..][0] == lines[i] && lines[i..][1..] == lines[i + 1..];
      current, buckets := ScanLine(current, buckets, lines[i]);
    }
  }

  /** The body of the scanning loop on one raw line. */
  method ScanLine(current: Option<nat>, buckets: seq<seq<string>>, raw: string)
    returns (current': Option<nat>, buckets': seq<seq<string>>)
    requires WellFormed(Scan(current, buckets))
    ensures Scan(current', buckets') == Step(Scan(current, buckets), raw)
  {
    current', buckets' := current, buckets;
    var line := Strip(raw);
    if line == [] {
      return;
    }
    var found := FindHeader(line);
    if found.Some? {
      current' := found;
    }
    if current'.Some? && Kept(line) {
      buckets' := buckets[current'.value := buckets[current'.value] + [line]];
    }
  }

  /** The search for a dictionary key inside the upper-cased line: the
      first category whose key it contains, if any. */
  method FindHeader(line: string) returns (found: Option<nat>)
    ensures found == HeaderIn(line)
    ensures found.Some? ==> found.value < CategoryCount && Contains(Upper(line), HeaderKeys[found.value])
  {
    var upper := Upper(line);
    found := None;
    var c := 0;
    while c < CategoryCount
      invariant 0 <= c <= CategoryCount
      invariant HeaderFrom(upper, c) == HeaderIn(line)
    {
      if Contains(upper, HeaderKeys[c]) {
        found := Some(c);
        return;
      }
      c := c + 1;
    }
  }

  // ---------------------------------------------------------------------
  // What the buckets hold

  /** The dictionary keys are the category names upper-cased with
      " QUESTIONS" appended, the form the repair pass looks them up by. */
  lemma HeaderKeysAreNames()
    ensures forall c :: 0 <= c < CategoryCount ==> HeaderKeys[c] == Upper(CategoryNames[c]) + " QUESTIONS"
  {
    forall c | 0 <= c < CategoryCount ensures HeaderKeys[c] == Upper(CategoryNames[c]) + " QUESTIONS" {
      HeaderKeyIs(c, CategoryNames[c], HeaderKeys[c]);
    }
  }

  lemma HeaderKeyIs(c: nat, name: string, key: string)
    requires c < CategoryCount && name == CategoryNames[c] && key == HeaderKeys[c]
    ensures key == Upper(name) + " QUESTIONS"
  {
    if c == 0 { UpperSpelling(name, "TECHNICAL", key); }
    else if c == 1 { UpperSpelling(name, "BEHAVIORAL", key); }
    else if c == 2 { UpperSpelling(name, "SITUATIONAL", key); }
    else { LaterHeaderKeyIs(c, name, key); }
  }

  lemma LaterHeaderKeyIs(c: nat, name: string, key: string)
    requires 3 <= c < CategoryCount && name == CategoryNames[c] && key == HeaderKeys[c]
    ensures key == Upper(name) + " QUESTIONS"
  {
    if c == 3 { UpperSpelling(name, "CULTURAL/PERSONALITY", key); }
    else { UpperSpelling(name, "PROBLEM-SOLVING", key); }
  }

  lemma UpperSpelling(name: string, upper: string, key: string)
    requires |name| == |upper| && forall i :: 0 <= i < |name| ==> upper[i] == UpperChar(name[i])
    requires key == upper + " QUESTIONS"
    ensures key == Upper(name) + " QUESTIONS"
  {
    CaseByChar(name);
    assert Upper(name) == upper;
  }

  /** A line as the buckets hold it: stripped, and starting with "Question"
      or "Answer" (so never empty). */
  predicate Clean(line: string) {
    Kept(line) && Strip(line) == line
  }

  predicate AllClean(st: Scan)
    requires WellFormed(st)
  {
    forall c, j :: 0 <= c < CategoryCount && 0 <= j < |st.buckets[c]| ==> Clean(st.buckets[c][j])
  }

  lemma StepClean(st: Scan, raw: string)
    requires WellFormed(st) && AllClean(st)
    ensures AllClean(Step(st, raw))
  {
    var line := Strip(raw);
    var cur := if line != [] && HeaderIn(line).Some? then HeaderIn(line) else st.current;
    StepEffect(st, raw);
    if Kept(line) && cur.Some? {
      StripIdempotent(raw);
      AppendClean(st, Step(st, raw), cur.value, line);
    }
  }

  /** Appending a clean line to one bucket keeps every bucket clean. */
  lemma AppendClean(st: Scan, r: Scan, c: nat, line: string)
    requires WellFormed(st) && WellFormed(r) && AllClean(st) && Clean(line)
    requires c < CategoryCount && r.buckets == st.buckets[c := st.buckets[c] + [line]]
    ensures AllClean(r)
  {
    forall b, j | 0 <= b < CategoryCount && 0 <= j < |r.buckets[b]| ensures Clean(r.buckets[b][j]) {
      if b == c && j == |st.buckets[c]| {
        assert r.buckets[b][j] == line;
      } else {
        assert r.buckets[b][j] == st.buckets[b][j];
      }
    }
  }

  lemma {:induction false} RunClean(st: Scan, lines: seq<string>)
    requires WellFormed(st) && AllClean(st)
    ensures AllClean(Run(st, lines))
    decreases |lines|
  {
    if lines != [] {
      StepClean(st, lines[0]);
      RunClean(Step(st, lines[0]), lines[1..]);
    }
  }

  /** Every line in every bucket is stripped and begins with "Question" or
      "Answer". */
  lemma BucketLinesClean(lines: seq<string>)
    ensures var b := ExtractLines(lines);
      forall c, j :: 0 <= c < CategoryCount && 0 <= j < |b[c]| ==> Clean(b[c][j])
  {
    RunClean(Initial(), lines);
  }

  /** a is a subsequence of b: b with some elements left out. */
  predicate IsSubseq<T(==)>(a: seq<T>, b: seq<T>)
    decreases |b|
  {
    if a == [] then true
    else if b == [] then false
    else (a[|a| - 1] == b[|b| - 1] && IsSubseq(a[..|a| - 1], b[..|b| - 1])) || IsSubseq(a, b[..|b| - 1])
  }

  lemma SubseqSnoc<T>(a: seq<T>, b: seq<T>, x: T)
    requires IsSubseq(a, b)
    ensures IsSubseq(a, b + [x]) && IsSubseq(a + [x], b + [x])
  {
    assert (b + [x])[..|b|] == b;
    assert (a + [x])[..|a|] == a;
  }

  function StripAll(lines: seq<string>): (r: seq<string>)
    ensures |r| == |lines|
  {
    if lines == [] then [] else [Strip(lines[0])] + StripAll(lines[1..])
  }

  predicate AllInOrder(st: Scan, seen: seq<string>)
    requires WellFormed(st)
  {
    forall c :: 0 <= c < CategoryCount ==> IsSubseq(st.buckets[c], seen)
  }

  lemma StepInOrder(st: Scan, raw: string, seen: seq<string>)
    requires WellFormed(st) && AllInOrder(st, seen)
    ensures AllInOrder(Step(st, raw), seen + [Strip(raw)])
  {
    var line := Strip(raw);
    var cur := if line != [] && HeaderIn(line).Some? then HeaderIn(line) else st.current;
    StepEffect(st, raw);
    if Kept(line) && cur.Some? {
      AddInOrder(st.buckets, cur.value, Step(st, raw).buckets, seen, line);
    } else {
      KeepInOrder(st.buckets, seen, line);
    }
  }

  lemma KeepInOrder(b: seq<seq<string>>, seen: seq<string>, line: string)
    requires |b| == CategoryCount && forall c :: 0 <= c < CategoryCount ==> IsSubseq(b[c], seen)
    ensures forall c :: 0 <= c < CategoryCount ==> IsSubseq(b[c], seen + [line])
  {
    forall c | 0 <= c < CategoryCount ensures IsSubseq(b[c], seen + [line]) {
      SubseqSnoc(b[c], seen, line);
    }
  }

  lemma AddInOrder(b: seq<seq<string>>, k: nat, added: seq<seq<string>>, seen: seq<string>, line: string)
    requires |b| == CategoryCount && k < CategoryCount && added == b[k := b[k] + [line]]
    requires forall c :: 0 <= c < CategoryCount ==> IsSubseq(b[c], seen)
    ensures forall c :: 0 <= c < CategoryCount ==> IsSubseq(added[c], seen + [line])
  {
    forall c | 0 <= c < CategoryCount ensures IsSubseq(added[c], seen + [line]) {
      SubseqSnoc(b[c], seen, line);
    }
  }

  lemma {:induction false} RunInOrder(st: Scan, lines: seq<string>, seen: seq<string>)
    requires WellFormed(st) && AllInOrder(st, seen)
    ensures AllInOrder(Run(st, lines), seen + StripAll(lines))
    decreases |lines|
  {
    if lines == [] {
      assert seen + StripAll(lines) == seen;
    } else {
      var line := Strip(lines[0]);
      StepInOrder(st, lines[0], seen);
      RunInOrder(Step(st, lines[0]), lines[1..], seen + [line]);
      assert seen + [line] + StripAll(lines[1..]) == seen + StripAll(lines);
    }
  }

  /** Each bucket lists stripped lines of the text in the order they appear. */
  lemma BucketsInOrder(lines: seq<string>)
    ensures forall c :: 0 <= c < CategoryCount ==> IsSubseq(ExtractLines(lines)[c], StripAll(lines))
  {
    RunInOrder(Initial(), lines, []);
    assert [] + StripAll(lines) == StripAll(lines);
  }

  // ---------------------------------------------------------------------
  // The scanner line by line

  lemma {:induction false} RunAppend(st: Scan, a: seq<string>, b: seq<string>)
    requires WellFormed(st)
    ensures Run(st, a + b) == Run(Run(st, a), b)
    decreases |a|
  {
    if a != [] {
      assert (a + b)[0] == a[0] && (a + b)[1..] == a[1..] + b;
      RunAppend(Step(st, a[0]), a[1..], b);
    } else {
      assert a + b == b;
    }
  }

  /** The category of the last non-empty line that carries a header. */
  function LastHeader(lines: seq<string>): (r: Option<nat>)
    ensures r.Some? ==> r.value < CategoryCount
  {
    if lines == [] then None
    else
      var line := Strip(lines[|lines| - 1]);
      if line != [] && HeaderIn(line).Some? then HeaderIn(line) else LastHeader(lines[..|lines| - 1])
  }

  lemma {:induction false} CurrentIsLastHeader(lines: seq<string>)
    ensures Run(Initial(), lines).current == LastHeader(lines)
    decreases |lines|
  {
    if lines != [] {
      var front := lines[..|lines| - 1];
      var last := lines[|lines| - 1];
      CurrentIsLastHeader(front);
      RunAppend(Initial(), front, [last]);
      DropLast(lines);
      assert [last][1..] == [];
      assert Run(Initial(), lines) == Step(Run(Initial(), front), last);
      StepEffect(Run(Initial(), front), last);
    }
  }

  /** What one more line does to the buckets: a non-empty stripped line that
      starts with "Question" or "Answer" is appended to the bucket of its own
      header if it carries one, else to the bucket of the last header above
      it; without any header, or for any other line, nothing changes. */
  lemma ExtractAppend(lines: seq<string>, raw: string)
    ensures var b := ExtractLines(lines);
      var line := Strip(raw);
      var cur := if line != [] && HeaderIn(line).Some? then HeaderIn(line) else LastHeader(lines);
      ExtractLines(lines + [raw]) ==
        if Kept(line) && cur.Some? then b[cur.value := b[cur.value] + [line]] else b
  {
    var st := Run(Initial(), lines);
    CurrentIsLastHeader(lines);
    RunAppend(Initial(), lines, [raw]);
    assert [raw][1..] == [];
    assert ExtractLines(lines + [raw]) == Step(st, raw).buckets;
    StepEffect(st, raw);
  }

  /** Step with its cursor move and its bucket update spelled out. */
  lemma StepEffect(st: Scan, raw: string)
    requires WellFormed(st)
    ensures var line := Strip(raw);
      var cur := if line != [] && HeaderIn(line).Some? then HeaderIn(line) else st.current;
      && Step(st, raw).current == cur
      && Step(st, raw).buckets == if Kept(line) && cur.Some? then st.buckets[cur.value := st.buckets[cur.value] + [line]] else st.buckets
  {
    var line := Strip(raw);
    if line == [] {
      EmptyNotKept(line);
    }
  }

  lemma EmptyNotKept(line: string)
    requires line == []
    ensures !Kept(line)
  {
  }

  lemma {:induction false} HeaderlessRun(lines: seq<string>)
    requires forall i :: 0 <= i < |lines| ==> HeaderIn(Strip(lines[i])).None?
    ensures Run(Initial(), lines) == Initial()
    decreases |lines|
  {
    if lines != [] {
      assert Step(Initial(), lines[0]) == Initial();
      HeaderlessRun(lines[1..]);
    }
  }

  /** Lines before the first header are dropped, questions and answers
      included: they change nothing. */
  lemma BeforeFirstHeaderDropped(pre: seq<string>, rest: seq<string>)
    requires forall i :: 0 <= i < |pre| ==> HeaderIn(Strip(pre[i])).None?
    ensures ExtractLines(pre + rest) == ExtractLines(rest)
  {
    HeaderlessRun(pre);
    RunAppend(Initial(), pre, rest);
  }

  /** A header line followed by a question line: the question line is
      filed under the header's category and nothing else is kept. */
  lemma HeaderThenQuestion(h: string, q: string, c: nat)
    requires h != [] && Strip(h) == h && HeaderIn(h) == Some(c) && !Kept(h)
    requires q != [] && Strip(q) == q && HeaderIn(q).None? && Kept(q)
    ensures ExtractLines([h, q]) == Initial().buckets[c := [q]]
  {
    var st := Scan(Some(c), Initial().buckets);
    StepHeader(Initial(), h, c);
    StepKept(st, q);
    assert [h, q][1..] == [q] && [q][1..] == [];
    assert Run(Initial(), [h, q]) == Run(st, [q]);
    assert Run(st, [q]) == Run(Step(st, q), []);
    assert Initial().buckets[c] + [q] == [q];
  }

  /** A stripped question or answer line without a header goes to the
      current bucket. */
  lemma StepKept(st: Scan, line: string)
    requires WellFormed(st) && st.current.Some? && line != [] && Strip(line) == line
    requires HeaderIn(line).None? && Kept(line)
    ensures var k := st.current.value; Step(st, line) == Scan(st.current, st.buckets[k := st.buckets[k] + [line]])
  {
  }

  /** A stripped header line that is not a question or answer moves the
      cursor to its category and keeps nothing. */
  lemma StepHeader(st: Scan, line: string, c: nat)
    requires WellFormed(st) && line != [] && Strip(line) == line
    requires HeaderIn(line) == Some(c) && !Kept(line)
    ensures Step(st, line) == Scan(Some(c), st.buckets)
  {
  }

  /** The first dictionary key, as a line, is a header line of the first
      category and is not kept. */
  lemma TechnicalHeaderLine(h: string)
    requires h == HeaderKeys[0]
    ensures '\n' !in h && h != [] && Strip(h) == h && HeaderIn(h) == Some(0) && !Kept(h)
  {
    TechnicalHeaderEnds(h);
    TechnicalHeaderStripped(h);
    TechnicalHeaderNotKept(h);
    TechnicalHeaderFound(h);
  }

  lemma TechnicalHeaderEnds(h: string)
    requires h == HeaderKeys[0]
    ensures |h| == 19 && h[0] == 'T' && h[18] == 'S' && '\n' !in h
  {
  }

  lemma TechnicalHeaderStripped(h: string)
    requires h == HeaderKeys[0]
    ensures Strip(h) == h
  {
    TechnicalHeaderEnds(h);
    StripUnchanged(h);
  }

  lemma TechnicalHeaderNotKept(h: string)
    requires h == HeaderKeys[0]
    ensures !Kept(h)
  {
    TechnicalHeaderEnds(h);
    FirstDiffers(h, "Question");
    FirstDiffers(h, "Answer");
  }

  lemma TechnicalHeaderFound(h: string)
    requires h == HeaderKeys[0]
    ensures HeaderIn(h) == Some(0)
  {
    TechnicalHeaderUpper(h);
    ContainsItself(h);
    HeaderFirstKey(h);
  }

  /** A line whose upper-cased form holds the first key carries the first
      header. */
  lemma HeaderFirstKey(line: string)
    requires Contains(Upper(line), HeaderKeys[0])
    ensures HeaderIn(line) == Some(0)
  {
  }

  lemma TechnicalHeaderUpper(h: string)
    requires h == HeaderKeys[0]
    ensures Upper(h) == h
  {
    assert h == "TECHNICAL QUESTIONS";
    assert forall i :: 0 <= i < |h| ==> !('a' <= h[i] <= 'z');
    UpperFixed(h);
  }

  /** The bare line "Question" is a kept line without a header. */
  lemma BareQuestionLine(q: string)
    requires q == "Question"
    ensures '\n' !in q && q != [] && Strip(q) == q && HeaderIn(q).None? && Kept(q)
  {
    BareQuestionStripped(q);
    BareQuestionNoHeader(q);
    BareQuestionKept(q);
  }

  lemma BareQuestionStripped(q: string)
    requires q == "Question"
    ensures Strip(q) == q
  {
    StripUnchanged(q);
  }

  lemma BareQuestionKept(q: string)
    requires q == "Question"
    ensures '\n' !in q && q != [] && Kept(q)
  {
  }

  lemma BareQuestionNoHeader(q: string)
    requires q == "Question"
    ensures HeaderIn(q).None?
  {
    HeaderInFirst(q);
    forall c | 0 <= c < CategoryCount ensures !Contains(Upper(q), HeaderKeys[c]) {
      ContainsShorter(Upper(q), HeaderKeys[c]);
    }
  }
}
