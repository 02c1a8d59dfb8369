/** The question-marker regular expression `Question\s+\d+:` and its relatives,
    as used by `validate_questions_count` (a case-insensitive `re.findall`)
    and by the renumbering step of the repair pass (a case-sensitive `re.sub`
    for `Question` and for `Answer`).

    Spaces, digits and `:` are disjoint character classes, so a match never
    depends on backtracking: it is the word, then the maximal run of spaces
    (at least one), then the maximal run of digits (at least one), then `:`. */
module Markers {
  import opened Text

  /** A label found at the front of a string: how many characters it spans,
      the number its digits spell and where those digits begin. */
  datatype Label = Label(len: nat, number: nat, digitsAt: nat)

  predicate CharMatches(c: char, p: char, ignoreCase: bool) {
    if ignoreCase then LowerChar(c) == LowerChar(p) else c == p
  }

  /** The two words the source searches for. */
  predicate IsLabelWord(w: string) {
    w == "Question" || w == "Answer"
  }

  /** A non-empty word made of letters only. */
  predicate IsWord(w: string) {
    w != [] && forall i :: 0 <= i < |w| ==> IsLetter(w[i])
  }

  /** s begins with w, letter by letter (up to case when ignoreCase). */
  predicate WordAt(s: string, w: string, ignoreCase: bool): (r: bool)
    ensures r ==> |w| <= |s|
    decreases |s|
  {
    w == [] || (|s| > 0 && CharMatches(s[0], w[0], ignoreCase) && WordAt(s[1..], w[1..], ignoreCase))
  }

  /** WordAt stated position by position. */
  predicate Spelled(s: string, w: string, ignoreCase: bool) {
    |w| <= |s| && forall i :: 0 <= i < |w| ==> CharMatches(s[i], w[i], ignoreCase)
  }

  lemma {:induction false} WordAtSpelled(s: string, w: string, ignoreCase: bool)
    ensures WordAt(s, w, ignoreCase) <==> Spelled(s, w, ignoreCase)
    decreases |w|
  {
    if w != [] && |s| > 0 {
      WordAtSpelled(s[1..], w[1..], ignoreCase);
      if Spelled(s, w, ignoreCase) {
        assert forall i :: 0 <= i < |w| - 1 ==> CharMatches(s[1..][i], w[1..][i], ignoreCase) by {
          assert forall i :: 0 <= i < |w| - 1 ==> s[1..][i] == s[i + 1] && w[1..][i] == w[i + 1];
        }
      }
      if WordAt(s, w, ignoreCase) {
        forall i | 0 <= i < |w| ensures CharMatches(s[i], w[i], ignoreCase) {
          if i > 0 {
            assert s[i] == s[1..][i - 1] && w[i] == w[1..][i - 1];
          }
        }
      }
    }
  }

  /** The `\s+\d+:` part of a match, read from position i of s; `first` says
      that no whitespace has been read yet. */
  function SpacesFrom(s: string, i: nat, first: bool): (r: Option<Label>)
    requires i <= |s|
    ensures r.Some? ==> i + (if first then 3 else 2) <= r.value.len <= |s|
    decreases |s| - i
  {
    if i < |s| && IsSpace(s[i]) then SpacesFrom(s, i + 1, false)
    else if !first && i < |s| && IsDigit(s[i]) then DigitsFrom(s, i, i, 0)
    else None
  }

  /** The `\d+:` part of a match, read from position i of s, with the digits
      begun at p and the value v read so far. */
  function DigitsFrom(s: string, i: nat, p: nat, v: nat): (r: Option<Label>)
    requires i <= |s|
    ensures r.Some? ==> i + 1 <= r.value.len <= |s|
    decreases |s| - i
  {
    if i < |s| && IsDigit(s[i]) then DigitsFrom(s, i + 1, p, v * 10 + DigitValue(s[i]))
    else if i < |s| && s[i] == ':' then Some(Label(i + 1, v, p))
    else None
  }

  /** The match of `<w>\s+\d+:` that starts at the front of s, if any. */
  function LabelAt(s: string, w: string, ignoreCase: bool): (r: Option<Label>)
    ensures r.Some? ==> |w| + 3 <= r.value.len <= |s|
  {
    if WordAt(s, w, ignoreCase) then SpacesFrom(s, |w|, true) else None
  }

  /** The numbers of the non-overlapping matches of `<w>\s+\d+:`, scanning
      from left to right as `re.findall` does. */
  function Labels(s: string, w: string, ignoreCase: bool): seq<nat>
    decreases |s|
  {
    if s == [] then []
    else match LabelAt(s, w, ignoreCase)
      case Some(m) => [m.number] + Labels(s[m.len..], w, ignoreCase)
      case None => Labels(s[1..], w, ignoreCase)
  }

  /** The matches do not overlap and each takes the word, a whitespace
      character, a digit and a colon: at most one per |w| + 3 characters. */
  lemma {:induction false} LabelsBound(s: string, w: string, ignoreCase: bool)
    ensures |Labels(s, w, ignoreCase)| * (|w| + 3) <= |s|
    decreases |s|
  {
    if s != [] {
      match LabelAt(s, w, ignoreCase)
      case Some(m) =>
        var rest := Labels(s[m.len..], w, ignoreCase);
        LabelsBound(s[m.len..], w, ignoreCase);
        assert (|rest| + 1) * (|w| + 3) == |rest| * (|w| + 3) + (|w| + 3);
      case None =>
        LabelsBound(s[1..], w, ignoreCase);
    }
  }

  /** `len(re.findall(r"Question\s+\d+:", s, re.IGNORECASE))` */
  function CountQuestions(s: string): (r: nat)
    ensures 11 * r <= |s|
  {
    LabelsBound(s, "Question", true);
    |Labels(s, "Question", true)|
  }

  /** `validate_questions_count`: the text holds exactly n question markers,
      so only a count that fits eleven characters per marker can pass. */
  predicate ValidateQuestionsCount(content: string, n: int): (ok: bool)
    ensures ok ==> 0 <= n && 11 * n <= |content|
  {
    CountQuestions(content) == n
  }

  /** `re.sub(w + r"\s+\d+:", f"{w} {k}:", s)`: every case-sensitive label
      of word w is replaced by the label numbered k. */
  function Relabel(s: string, w: string, k: nat): string
    decreases |s|
  {
    if s == [] then []
    else match LabelAt(s, w, false)
      case Some(m) => Tag(w, k) + Relabel(s[m.len..], w, k)
      case None => [s[0]] + Relabel(s[1..], w, k)
  }

  /** The replacement text `f"{w} {k}:"`. */
  function Tag(w: string, k: nat): string {
    w + " " + Itoa(k) + ":"
  }

  function Repeat(k: nat, n: nat): (r: seq<nat>)
    ensures |r| == n && forall i :: 0 <= i < n ==> r[i] == k
  {
    if n == 0 then [] else [k] + Repeat(k, n - 1)
  }

  // ---------------------------------------------------------------------
  // The shape of a match, stated on the characters it covers

  /** s[..len] reads w, then whitespace up to p, then digits up to len - 1,
      then `:`. */
  predicate Shape(s: string, w: string, ignoreCase: bool, len: nat, p: nat) {
    && |w| < p < len - 1
    && len <= |s|
    && Spelled(s, w, ignoreCase)
    && (forall i :: |w| <= i < p ==> IsSpace(s[i]))
    && (forall i :: p <= i < len - 1 ==> IsDigit(s[i]))
    && s[len - 1] == ':'
  }

  lemma {:induction false} DigitsShape(s: string, i: nat, p: nat, v: nat)
    requires i <= |s| && DigitsFrom(s, i, p, v).Some?
    ensures var m := DigitsFrom(s, i, p, v).value;
      && m.digitsAt == p
      && (forall j :: i <= j < m.len - 1 ==> IsDigit(s[j]))
      && s[m.len - 1] == ':'
      && m.number == NumeralValue(v, s[i..m.len - 1])
    decreases |s| - i
  {
    var m := DigitsFrom(s, i, p, v).value;
    if i < |s| && IsDigit(s[i]) {
      DigitsShape(s, i + 1, p, v * 10 + DigitValue(s[i]));
      assert s[i..m.len - 1][1..] == s[i + 1..m.len - 1];
    } else {
      assert s[i..m.len - 1] == [];
    }
  }

  lemma {:induction false} SpacesShape(s: string, i: nat, first: bool)
    requires i <= |s| && SpacesFrom(s, i, first).Some?
    ensures var m := SpacesFrom(s, i, first).value;
      && i + (if first then 1 else 0) <= m.digitsAt < m.len - 1
      && (forall j :: i <= j < m.digitsAt ==> IsSpace(s[j]))
      && (forall j :: m.digitsAt <= j < m.len - 1 ==> IsDigit(s[j]))
      && s[m.len - 1] == ':'
      && m.number == NumeralValue(0, s[m.digitsAt..m.len - 1])
    decreases |s| - i
  {
    if i < |s| && IsSpace(s[i]) {
      SpacesShape(s, i + 1, false);
    } else {
      DigitsShape(s, i, i, 0);
    }
  }

  lemma {:induction false} ShapeDigits(s: string, i: nat, p: nat, v: nat, len: nat)
    requires i < len <= |s|
    requires forall j :: i <= j < len - 1 ==> IsDigit(s[j])
    requires s[len - 1] == ':'
    ensures DigitsFrom(s, i, p, v) == Some(Label(len, NumeralValue(v, s[i..len - 1]), p))
    decreases len - i
  {
    if i < len - 1 {
      ShapeDigits(s, i + 1, p, v * 10 + DigitValue(s[i]), len);
      assert s[i..len - 1][1..] == s[i + 1..len - 1];
    } else {
      assert s[i..len - 1] == [];
    }
  }

  lemma {:induction false} ShapeSpaces(s: string, i: nat, first: bool, len: nat, p: nat)
    requires i + (if first then 1 else 0) <= p < len - 1 && len <= |s|
    requires forall j :: i <= j < p ==> IsSpace(s[j])
    requires forall j :: p <= j < len - 1 ==> IsDigit(s[j])
    requires s[len - 1] == ':'
    ensures SpacesFrom(s, i, first) == Some(Label(len, NumeralValue(0, s[p..len - 1]), p))
    decreases p - i
  {
    if i < p {
      ShapeSpaces(s, i + 1, false, len, p);
    } else {
      ShapeDigits(s, p, p, 0, len);
    }
  }

  /** A match found by LabelAt has the shape, with the number its digits spell. */
  lemma LabelHasShape(s: string, w: string, ignoreCase: bool)
    requires LabelAt(s, w, ignoreCase).Some?
    ensures var m := LabelAt(s, w, ignoreCase).value;
      && Shape(s, w, ignoreCase, m.len, m.digitsAt)
      && m.number == NumeralValue(0, s[m.digitsAt..m.len - 1])
  {
    WordAtSpelled(s, w, ignoreCase);
    SpacesShape(s, |w|, true);
  }

  /** Conversely, any stretch of the shape is what LabelAt finds. */
  lemma ShapeIsLabel(s: string, w: string, ignoreCase: bool, len: nat, p: nat)
    requires Shape(s, w, ignoreCase, len, p)
    ensures LabelAt(s, w, ignoreCase) == Some(Label(len, NumeralValue(0, s[p..len - 1]), p))
  {
    WordAtSpelled(s, w, ignoreCase);
    ShapeSpaces(s, |w|, true, len, p);
  }

  /** A match depends only on the characters it covers. */
  lemma LabelWindow(s: string, t: string, w: string, ignoreCase: bool, m: Label)
    requires LabelAt(s, w, ignoreCase) == Some(m)
    requires m.len <= |t| && t[..m.len] == s[..m.len]
    ensures LabelAt(t, w, ignoreCase) == Some(m)
  {
    LabelHasShape(s, w, ignoreCase);
    ShapeWindow(s, t, w, ignoreCase, m.len, m.digitsAt);
    ShapeIsLabel(t, w, ignoreCase, m.len, m.digitsAt);
    SliceOfPrefix(s, t, m.digitsAt, m.len - 1, m.len);
  }

  lemma SliceOfPrefix(s: string, t: string, i: nat, j: nat, n: nat)
    requires i <= j <= n <= |s| && n <= |t| && t[..n] == s[..n]
    ensures t[i..j] == s[i..j]
  {
    forall k | 0 <= k < j - i ensures t[i..j][k] == s[i..j][k] {
      assert t[i + k] == t[..n][i + k] == s[..n][i + k] == s[i + k];
    }
  }

  lemma ShapeWindow(s: string, t: string, w: string, ignoreCase: bool, len: nat, p: nat)
    requires Shape(s, w, ignoreCase, len, p)
    requires len <= |t| && t[..len] == s[..len]
    ensures Shape(t, w, ignoreCase, len, p)
  {
    assert forall i :: 0 <= i < len ==> t[i] == t[..len][i] == s[..len][i] == s[i];
  }

  // ---------------------------------------------------------------------
  // Which characters a match can contain

  /** The characters a label word matches are letters. */
  lemma WordLetters(s: string, w: string, ignoreCase: bool)
    requires IsWord(w) && Spelled(s, w, ignoreCase)
    ensures forall i :: 0 <= i < |w| ==> IsLetter(s[i])
  {
    forall i | 0 <= i < |w| ensures IsLetter(s[i]) {
      assert CharMatches(s[i], w[i], ignoreCase);
    }
  }

  /** Past its first letter, a label word holds no capital `Q` and no
      capital `A`: the rest of it is lower-case `uestion` or `nswer`. */
  lemma WordNoCapital(s: string, w: string, ignoreCase: bool, h: char)
    requires IsLabelWord(w) && (h == 'Q' || h == 'A')
    requires Spelled(s, w, ignoreCase)
    ensures forall i :: 1 <= i < |w| ==> s[i] != h
  {
    forall i | 1 <= i < |w| ensures s[i] != h {
      assert CharMatches(s[i], w[i], ignoreCase);
      if w == "Question" {
        assert w[i] in "uestion";
      } else {
        assert w[i] in "nswer";
      }
    }
  }

  /** Past its first character, a match of either label word holds no
      capital `Q` and no capital `A`: the rest of the word, then spaces,
      digits and `:`. */
  lemma WindowHead(s: string, w: string, ignoreCase: bool, h: char, m: Label)
    requires IsLabelWord(w) && (h == 'Q' || h == 'A')
    requires LabelAt(s, w, ignoreCase) == Some(m)
    ensures forall i :: 1 <= i < m.len ==> s[i] != h
  {
    LabelHasShape(s, w, ignoreCase);
    WordNoCapital(s, w, ignoreCase, h);
  }

  // ---------------------------------------------------------------------
  // Counting over concatenations

  /** Text with no digit holds no label. */
  lemma {:induction false} LabelsNoDigit(s: string, w: string, ignoreCase: bool)
    requires forall i :: 0 <= i < |s| ==> !IsDigit(s[i])
    ensures Labels(s, w, ignoreCase) == []
    decreases |s|
  {
    if s != [] {
      if LabelAt(s, w, ignoreCase).Some? {
        LabelHasShape(s, w, ignoreCase);
      }
      LabelsNoDigit(s[1..], w, ignoreCase);
    }
  }

  /** Text with no colon holds no label. */
  lemma {:induction false} LabelsNoColon(s: string, w: string, ignoreCase: bool)
    requires ':' !in s
    ensures Labels(s, w, ignoreCase) == []
    decreases |s|
  {
    if s != [] {
      if LabelAt(s, w, ignoreCase).Some? {
        LabelHasShape(s, w, ignoreCase);
      }
      LabelsNoColon(s[1..], w, ignoreCase);
    }
  }

  /** A prefix none of whose characters can begin the word adds no label. */
  lemma {:induction false} LabelsNoStart(pre: string, z: string, w: string, ignoreCase: bool)
    requires w != []
    requires forall i :: 0 <= i < |pre| ==> !CharMatches(pre[i], w[0], ignoreCase)
    ensures Labels(pre + z, w, ignoreCase) == Labels(z, w, ignoreCase)
    decreases |pre|
  {
    if pre == [] {
      assert pre + z == z;
    } else {
      assert (pre + z)[1..] == pre[1..] + z;
      LabelsNoStart(pre[1..], z, w, ignoreCase);
    }
  }

  /** How far one step of the scan advances: past the label found at the
      front, or by one character. */
  function StepLen(s: string, w: string, ignoreCase: bool): (r: nat)
    requires s != []
    ensures 1 <= r <= |s|
  {
    match LabelAt(s, w, ignoreCase)
    case Some(m) => m.len
    case None => 1
  }

  /** Labels count separately on either side of a break between whitespace
      and a letter: no match can straddle it. */
  lemma {:induction false} LabelsSplit(x: string, y: string, w: string, ignoreCase: bool)
    requires IsWord(w)
    requires x == [] || IsSpace(x[|x| - 1])
    requires y == [] || IsLetter(y[0])
    ensures Labels(x + y, w, ignoreCase) == Labels(x, w, ignoreCase) + Labels(y, w, ignoreCase)
    decreases |x|
  {
    if x == [] {
      LabelsEmptyLeft(x, y, w, ignoreCase);
    } else {
      var n := StepLen(x, w, ignoreCase);
      SuffixEnd(x, n);
      LabelsSplit(x[n..], y, w, ignoreCase);
      SplitStep(x, y, w, ignoreCase);
    }
  }

  lemma SplitStep(x: string, y: string, w: string, ignoreCase: bool)
    requires IsWord(w)
    requires x != [] && IsSpace(x[|x| - 1])
    requires y == [] || IsLetter(y[0])
    requires var n := StepLen(x, w, ignoreCase);
      Labels(x[n..] + y, w, ignoreCase) == Labels(x[n..], w, ignoreCase) + Labels(y, w, ignoreCase)
    ensures Labels(x + y, w, ignoreCase) == Labels(x, w, ignoreCase) + Labels(y, w, ignoreCase)
  {
    var n := StepLen(x, w, ignoreCase);
    var f := Found(x, w, ignoreCase);
    var a := Labels(x[n..], w, ignoreCase);
    var b := Labels(y, w, ignoreCase);
    PrefixStep(x, y, w, ignoreCase);
    LabelsUnfold(x + y, w, ignoreCase);
    LabelsUnfold(x, w, ignoreCase);
    Regroup(Labels(x + y, w, ignoreCase), Labels(x, w, ignoreCase), f, a, b);
  }

  lemma LabelsEmptyLeft(x: string, y: string, w: string, ignoreCase: bool)
    requires x == []
    ensures Labels(x + y, w, ignoreCase) == Labels(x, w, ignoreCase) + Labels(y, w, ignoreCase)
  {
    assert x + y == y;
    assert Labels(x, w, ignoreCase) == [];
  }

  /** A suffix of x ends where x ends. */
  lemma SuffixEnd(x: string, n: nat)
    requires n <= |x|
    ensures x[n..] == [] || x[n..][|x[n..]| - 1] == x[|x| - 1]
  {
  }

  lemma Regroup(xy: seq<nat>, xs: seq<nat>, f: seq<nat>, a: seq<nat>, b: seq<nat>)
    requires xy == f + (a + b) && xs == f + a
    ensures xy == xs + b
  {
  }

  /** What one step of the scan finds at the front of s. */
  function Found(s: string, w: string, ignoreCase: bool): seq<nat> {
    match LabelAt(s, w, ignoreCase)
    case Some(m) => [m.number]
    case None => []
  }

  lemma LabelsUnfold(s: string, w: string, ignoreCase: bool)
    requires s != []
    ensures Labels(s, w, ignoreCase) == Found(s, w, ignoreCase) + Labels(s[StepLen(s, w, ignoreCase)..], w, ignoreCase)
  {
  }

  /** One step of the scan over x + y agrees with the scan over x alone. */
  lemma PrefixStep(x: string, y: string, w: string, ignoreCase: bool)
    requires IsWord(w)
    requires x != [] && IsSpace(x[|x| - 1])
    requires y == [] || IsLetter(y[0])
    ensures LabelAt(x + y, w, ignoreCase) == LabelAt(x, w, ignoreCase)
    ensures LabelAt(x, w, ignoreCase).Some? ==>
      (x + y)[LabelAt(x, w, ignoreCase).value.len..] == x[LabelAt(x, w, ignoreCase).value.len..] + y
    ensures (x + y)[1..] == x[1..] + y
    ensures StepLen(x + y, w, ignoreCase) == StepLen(x, w, ignoreCase)
    ensures Found(x + y, w, ignoreCase) == Found(x, w, ignoreCase)
    ensures (x + y)[StepLen(x, w, ignoreCase)..] == x[StepLen(x, w, ignoreCase)..] + y
  {
    var s := x + y;
    match LabelAt(x, w, ignoreCase)
    case Some(m) =>
      assert s[..m.len] == x[..m.len];
      LabelWindow(x, s, w, ignoreCase, m);
      assert s[m.len..] == x[m.len..] + y;
    case None =>
      NoStraddle(x, y, w, ignoreCase);
      if LabelAt(s, w, ignoreCase).Some? {
        var m := LabelAt(s, w, ignoreCase).value;
        assert x[..m.len] == s[..m.len];
        LabelWindow(s, x, w, ignoreCase, m);
      }
    assert s[1..] == x[1..] + y;
  }

  lemma NoStraddle(x: string, y: string, w: string, ignoreCase: bool)
    requires IsWord(w)
    requires x != [] && IsSpace(x[|x| - 1])
    requires y == [] || IsLetter(y[0])
    ensures LabelAt(x + y, w, ignoreCase).Some? ==> LabelAt(x + y, w, ignoreCase).value.len <= |x|
  {
    var s := x + y;
    if LabelAt(s, w, ignoreCase).Some? {
      var m := LabelAt(s, w, ignoreCase).value;
      LabelHasShape(s, w, ignoreCase);
      WordLetters(s, w, ignoreCase);
      assert s[|x| - 1] == x[|x| - 1];
      assert |x| < |s| ==> s[|x|] == y[0];
    }
  }

  /** Trailing whitespace adds no label. */
  lemma {:induction false} LabelsTrailingSpace(x: string, sp: string, w: string, ignoreCase: bool)
    requires forall i :: 0 <= i < |sp| ==> IsSpace(sp[i])
    ensures Labels(x + sp, w, ignoreCase) == Labels(x, w, ignoreCase)
    decreases |x|
  {
    var s := x + sp;
    if x == [] {
      assert s == sp;
      LabelsNoDigit(sp, w, ignoreCase);
    } else {
      match LabelAt(x, w, ignoreCase)
      case Some(m) =>
        assert s[..m.len] == x[..m.len];
        LabelWindow(x, s, w, ignoreCase, m);
        assert s[m.len..] == x[m.len..] + sp;
        LabelsTrailingSpace(x[m.len..], sp, w, ignoreCase);
      case None =>
        if LabelAt(s, w, ignoreCase).Some? {
          var m := LabelAt(s, w, ignoreCase).value;
          LabelHasShape(s, w, ignoreCase);
          assert m.len <= |x|;
          assert x[..m.len] == s[..m.len];
          LabelWindow(s, x, w, ignoreCase, m);
        }
        assert s[1..] == x[1..] + sp;
        LabelsTrailingSpace(x[1..], sp, w, ignoreCase);
    }
  }

  // ---------------------------------------------------------------------
  // Renumbering

  lemma LabelsAfter(s: string, w: string, ignoreCase: bool, m: Label)
    requires LabelAt(s, w, ignoreCase) == Some(m)
    ensures Labels(s, w, ignoreCase) == [m.number] + Labels(s[m.len..], w, ignoreCase)
  {
  }

  lemma LabelsPass(s: string, w: string, ignoreCase: bool)
    requires s != [] && LabelAt(s, w, ignoreCase).None?
    ensures Labels(s, w, ignoreCase) == Labels(s[1..], w, ignoreCase)
  {
  }

  lemma RelabelAfter(s: string, w: string, k: nat, m: Label)
    requires LabelAt(s, w, false) == Some(m)
    ensures Relabel(s, w, k) == Tag(w, k) + Relabel(s[m.len..], w, k)
  {
  }

  lemma RelabelPass(s: string, w: string, k: nat)
    requires s != [] && LabelAt(s, w, false).None?
    ensures Relabel(s, w, k) == [s[0]] + Relabel(s[1..], w, k)
  {
  }

  /** The replacement text is itself a label, numbered k, whatever follows it. */
  lemma TagIsLabel(w: string, k: nat, z: string, ignoreCase: bool)
    ensures LabelAt(Tag(w, k) + z, w, ignoreCase) == Some(Label(|Tag(w, k)|, k, |w| + 1))
  {
    var t := Tag(w, k);
    var s := t + z;
    var digits := Itoa(k);
    assert forall i :: 0 <= i < |w| ==> s[i] == w[i];
    assert s[|w|] == ' ';
    assert forall i :: 0 <= i < |digits| ==> s[|w| + 1 + i] == digits[i];
    assert s[|t| - 1] == ':';
    assert s[|w| + 1..|t| - 1] == digits;
    ShapeIsLabel(s, w, ignoreCase, |t|, |w| + 1);
    ReadItoa(k);
  }

  /** A case-sensitive match is also a case-insensitive one. */
  lemma IgnoringCase(s: string, w: string, m: Label)
    requires LabelAt(s, w, false) == Some(m)
    ensures LabelAt(s, w, true) == Some(m)
  {
    LabelHasShape(s, w, false);
    assert forall i :: 0 <= i < |w| ==> CharMatches(s[i], w[i], true) by {
      assert forall i :: 0 <= i < |w| ==> CharMatches(s[i], w[i], false);
    }
    ShapeIsLabel(s, w, true, m.len, m.digitsAt);
  }

  /** Neither label word contains the other's initial, in either case. */
  lemma OtherInitial(w: string, w2: string, ignoreCase: bool)
    requires IsLabelWord(w) && IsLabelWord(w2) && w != w2
    ensures forall i :: 0 <= i < |w| ==> !CharMatches(w[i], w2[0], ignoreCase)
  {
    if w == "Question" {
      assert w2[0] == 'A';
      assert forall i :: 0 <= i < |w| ==> w[i] in "Question";
    } else {
      assert w2[0] == 'Q';
      assert forall i :: 0 <= i < |w| ==> w[i] in "Answer";
    }
  }

  /** Whitespace, digits and `:` never match a letter. */
  lemma NotLetterNoMatch(c: char, h: char, ignoreCase: bool)
    requires IsSpace(c) || IsDigit(c) || c == ':'
    requires IsLetter(h)
    ensures !CharMatches(c, h, ignoreCase)
  {
  }

  /** The replacement for w holds no initial of the other label word. */
  lemma TagOtherFree(w: string, k: nat, w2: string, ignoreCase: bool)
    requires IsLabelWord(w) && IsLabelWord(w2) && w != w2
    ensures forall i :: 0 <= i < |Tag(w, k)| ==> !CharMatches(Tag(w, k)[i], w2[0], ignoreCase)
  {
    var t := Tag(w, k);
    OtherInitial(w, w2, ignoreCase);
    forall i | 0 <= i < |t| ensures !CharMatches(t[i], w2[0], ignoreCase) {
      if i < |w| {
        assert t[i] == w[i];
      } else {
        assert IsSpace(t[i]) || IsDigit(t[i]) || t[i] == ':';
        NotLetterNoMatch(t[i], w2[0], ignoreCase);
      }
    }
  }

  /** A case-sensitive match of w holds no initial of the other label word. */
  lemma WindowOtherFree(s: string, w: string, w2: string, ignoreCase: bool, m: Label)
    requires IsLabelWord(w) && IsLabelWord(w2) && w != w2
    requires LabelAt(s, w, false) == Some(m)
    ensures forall i :: 0 <= i < m.len ==> !CharMatches(s[..m.len][i], w2[0], ignoreCase)
  {
    LabelHasShape(s, w, false);
    OtherInitial(w, w2, ignoreCase);
    forall i | 0 <= i < m.len ensures !CharMatches(s[..m.len][i], w2[0], ignoreCase) {
      assert s[..m.len][i] == s[i];
      if i < |w| {
        assert CharMatches(s[i], w[i], false);
      } else {
        NotLetterNoMatch(s[i], w2[0], ignoreCase);
      }
    }
  }

  /** Renumbering keeps the first character. */
  lemma RelabelFirst(z: string, w: string, k: nat)
    requires IsLabelWord(w) && z != []
    ensures |Relabel(z, w, k)| >= 1 && Relabel(z, w, k)[0] == z[0]
  {
    match LabelAt(z, w, false)
    case Some(m) =>
      RelabelAfter(z, w, k, m);
      assert CharMatches(z[0], w[0], false);
    case None =>
      RelabelPass(z, w, k);
  }

  /** Text before the first possible start of w is copied unchanged. */
  lemma {:induction false} RelabelSkip(z: string, w: string, k: nat, n: nat)
    requires IsLabelWord(w) && n <= |z|
    requires forall j :: 0 <= j < n ==> z[j] != w[0]
    ensures Relabel(z, w, k) == z[..n] + Relabel(z[n..], w, k)
    decreases n
  {
    if n == 0 {
      EmptyFront(z, Relabel(z, w, k));
    } else {
      assert !CharMatches(z[0], w[0], false);
      RelabelPass(z, w, k);
      RelabelSkip(z[1..], w, k, n - 1);
      ConsSlices(z, n);
      Rejoin(Relabel(z, w, k), [z[0]], Relabel(z[1..], w, k), z[1..][..n - 1], Relabel(z[1..][n - 1..], w, k));
    }
  }

  /** Conversely, an output prefix with no initial of w was copied from the
      input. */
  lemma {:induction false} RelabelReveal(z: string, w: string, k: nat, n: nat)
    requires IsLabelWord(w) && n <= |Relabel(z, w, k)|
    requires forall j :: 0 <= j < n ==> Relabel(z, w, k)[j] != w[0]
    ensures n <= |z| && Relabel(z, w, k)[..n] == z[..n]
    decreases n
  {
    if n > 0 {
      var r := Relabel(z, w, k);
      assert z != [];
      RelabelFirst(z, w, k);
      assert !CharMatches(z[0], w[0], false);
      RelabelPass(z, w, k);
      var t := Relabel(z[1..], w, k);
      ConsTail(r, [z[0]], t);
      RelabelReveal(z[1..], w, k, n - 1);
      ConsSlices(z, n);
      ConsPrefix(r, z[0], t, n);
    }
  }

  lemma EmptyFront<T>(z: seq<T>, r: seq<T>)
    ensures r == z[..0] + r && z[0..] == z
  {
  }

  lemma ConsSlices<T>(s: seq<T>, n: nat)
    requires 1 <= n <= |s|
    ensures [s[0]] + s[1..][..n - 1] == s[..n] && s[1..][n - 1..] == s[n..]
  {
    assert forall j :: 0 <= j < n - 1 ==> s[1..][j] == s[j + 1];
  }

  lemma Rejoin<T>(r: seq<T>, c: seq<T>, t: seq<T>, p: seq<T>, q: seq<T>)
    requires r == c + t && t == p + q
    ensures r == (c + p) + q
  {
  }

  lemma ConsTail<T>(r: seq<T>, c: seq<T>, t: seq<T>)
    requires r == c + t && |c| == 1
    ensures forall j :: 0 <= j < |t| ==> t[j] == r[j + 1]
  {
  }

  lemma ConsPrefix<T>(r: seq<T>, c: T, t: seq<T>, n: nat)
    requires r == [c] + t && 1 <= n <= |r|
    ensures r[..n] == [c] + t[..n - 1]
  {
  }

  /** Where the renumbering finds nothing at the front and the text holds no
      initial of w before n, the first n characters are copied. */
  lemma PassCopies(s: string, w: string, k: nat, n: nat)
    requires IsLabelWord(w)
    requires 1 <= n <= |s| && LabelAt(s, w, false).None?
    requires forall j :: 1 <= j < n ==> s[j] != w[0]
    ensures Relabel(s, w, k) == s[..n] + Relabel(s[n..], w, k)
  {
    RelabelPass(s, w, k);
    assert forall j :: 0 <= j < n - 1 ==> s[1..][j] == s[j + 1];
    RelabelSkip(s[1..], w, k, n - 1);
    ConsSlices(s, n);
    Rejoin(Relabel(s, w, k), [s[0]], Relabel(s[1..], w, k), s[1..][..n - 1], Relabel(s[1..][n - 1..], w, k));
  }

  /** Where the renumbering finds nothing at the front, a match of either
      label word there is found in the output too, and both scans continue
      in step after it. */
  lemma PassFound(s: string, w: string, k: nat, w2: string, ignoreCase: bool, m: Label)
    requires IsLabelWord(w) && IsLabelWord(w2)
    requires LabelAt(s, w, false).None?
    requires LabelAt(s, w2, ignoreCase) == Some(m)
    ensures LabelAt(Relabel(s, w, k), w2, ignoreCase) == Some(m)
    ensures Relabel(s, w, k)[m.len..] == Relabel(s[m.len..], w, k)
  {
    var r := Relabel(s, w, k);
    WindowHead(s, w2, ignoreCase, w[0], m);
    PassCopies(s, w, k, m.len);
    assert r[..m.len] == s[..m.len];
    LabelWindow(s, r, w2, ignoreCase, m);
  }

  /** Where neither the renumbering nor the scan finds anything at the
      front, the scan of the output finds nothing there either. */
  lemma PassMissing(s: string, w: string, k: nat, w2: string, ignoreCase: bool)
    requires IsLabelWord(w) && IsLabelWord(w2)
    requires s != [] && LabelAt(s, w, false).None?
    requires LabelAt(s, w2, ignoreCase).None?
    ensures LabelAt(Relabel(s, w, k), w2, ignoreCase).None?
    ensures Relabel(s, w, k)[1..] == Relabel(s[1..], w, k)
  {
    RelabelPass(s, w, k);
    ConsDrop(Relabel(s, w, k), s[0], Relabel(s[1..], w, k));
    if LabelAt(Relabel(s, w, k), w2, ignoreCase).Some? {
      NoNewMatch(s, w, k, w2, ignoreCase, LabelAt(Relabel(s, w, k), w2, ignoreCase).value);
    }
  }

  /** A match at the front of the output of a pass step was already in the
      input. */
  lemma NoNewMatch(s: string, w: string, k: nat, w2: string, ignoreCase: bool, m: Label)
    requires IsLabelWord(w) && IsLabelWord(w2)
    requires s != [] && LabelAt(s, w, false).None?
    requires LabelAt(Relabel(s, w, k), w2, ignoreCase) == Some(m)
    ensures LabelAt(s, w2, ignoreCase) == Some(m)
  {
    OutputAvoids(s, w, k, w2, ignoreCase, m);
    OutputWindow(s, w, k, m.len);
    LabelWindow(Relabel(s, w, k), s, w2, ignoreCase, m);
  }

  lemma TailAvoids<T>(r: seq<T>, c: T, t: seq<T>, h: T, n: nat)
    requires r == [c] + t && 1 <= n <= |r|
    requires forall i :: 1 <= i < n ==> r[i] != h
    ensures n - 1 <= |t| && forall j :: 0 <= j < n - 1 ==> t[j] != h
  {
    assert forall j :: 0 <= j < n - 1 ==> t[j] == r[j + 1];
  }

  lemma CopiedWindow<T>(r: seq<T>, s: seq<T>, t: seq<T>, n: nat)
    requires s != [] && r == [s[0]] + t && 1 <= n <= |r|
    requires n - 1 <= |s| - 1 && t[..n - 1] == s[1..][..n - 1]
    ensures n <= |s| && r[..n] == s[..n]
  {
    assert forall i :: 0 <= i < n ==> r[i] == s[i] by {
      assert forall i :: 1 <= i < n ==> r[i] == t[i - 1] == t[..n - 1][i - 1] == s[1..][..n - 1][i - 1] == s[i];
    }
  }

  /** At a pass step, an output prefix with no initial of w after its first
      character was copied from the input. */
  lemma OutputWindow(s: string, w: string, k: nat, n: nat)
    requires IsLabelWord(w)
    requires s != [] && LabelAt(s, w, false).None?
    requires 1 <= n && n - 1 <= |Relabel(s[1..], w, k)|
    requires forall j :: 0 <= j < n - 1 ==> Relabel(s[1..], w, k)[j] != w[0]
    ensures n <= |s| && Relabel(s, w, k)[..n] == s[..n]
  {
    RelabelReveal(s[1..], w, k, n - 1);
    RelabelPass(s, w, k);
    CopiedWindow(Relabel(s, w, k), s, Relabel(s[1..], w, k), n);
  }

  lemma OutputAvoids(s: string, w: string, k: nat, w2: string, ignoreCase: bool, m: Label)
    requires IsLabelWord(w) && IsLabelWord(w2)
    requires s != [] && LabelAt(s, w, false).None?
    requires LabelAt(Relabel(s, w, k), w2, ignoreCase) == Some(m)
    ensures m.len - 1 <= |Relabel(s[1..], w, k)|
    ensures forall j :: 0 <= j < m.len - 1 ==> Relabel(s[1..], w, k)[j] != w[0]
  {
    WindowHead(Relabel(s, w, k), w2, ignoreCase, w[0], m);
    RelabelPass(s, w, k);
    TailAvoids(Relabel(s, w, k), s[0], Relabel(s[1..], w, k), w[0], m.len);
  }

  lemma ConsDrop<T>(r: seq<T>, c: T, t: seq<T>)
    requires r == [c] + t
    ensures r[1..] == t
  {
  }



  /** Renumbering either label word keeps the number of matches of either
      label word, with or without case. */
  lemma {:induction false} RelabelCount(s: string, w: string, k: nat, w2: string, ignoreCase: bool)
    requires IsLabelWord(w) && IsLabelWord(w2)
    ensures |Labels(Relabel(s, w, k), w2, ignoreCase)| == |Labels(s, w2, ignoreCase)|
    decreases |s|
  {
    if s != [] {
      match LabelAt(s, w, false)
      case Some(m) =>
        RelabelCount(s[m.len..], w, k, w2, ignoreCase);
        if w2 == w {
          CountSameTag(s, w, k, ignoreCase, m);
        } else {
          CountOtherTag(s, w, k, w2, ignoreCase, m);
        }
      case None =>
        match LabelAt(s, w2, ignoreCase)
        case Some(m) =>
          RelabelCount(s[m.len..], w, k, w2, ignoreCase);
          CountFound(s, w, k, w2, ignoreCase, m);
        case None =>
          RelabelCount(s[1..], w, k, w2, ignoreCase);
          CountPass(s, w, k, w2, ignoreCase);
    }
  }

  /** One step of RelabelCount: a label of w, scanned for w itself. */
  lemma CountSameTag(s: string, w: string, k: nat, ignoreCase: bool, m: Label)
    requires IsLabelWord(w) && LabelAt(s, w, false) == Some(m)
    requires |Labels(Relabel(s[m.len..], w, k), w, ignoreCase)| == |Labels(s[m.len..], w, ignoreCase)|
    ensures |Labels(Relabel(s, w, k), w, ignoreCase)| == |Labels(s, w, ignoreCase)|
  {
    var z := Relabel(s[m.len..], w, k);
    var r := Relabel(s, w, k);
    RelabelAfter(s, w, k, m);
    IgnoringCase(s, w, m);
    assert LabelAt(s, w, ignoreCase) == Some(m);
    LabelsAfter(s, w, ignoreCase, m);
    TagIsLabel(w, k, z, ignoreCase);
    LabelsAfter(r, w, ignoreCase, Label(|Tag(w, k)|, k, |w| + 1));
    assert r[|Tag(w, k)|..] == z;
  }

  /** One step of RelabelCount: a label of w, scanned for the other word. */
  lemma CountOtherTag(s: string, w: string, k: nat, w2: string, ignoreCase: bool, m: Label)
    requires IsLabelWord(w) && IsLabelWord(w2) && w != w2
    requires LabelAt(s, w, false) == Some(m)
    requires |Labels(Relabel(s[m.len..], w, k), w2, ignoreCase)| == |Labels(s[m.len..], w2, ignoreCase)|
    ensures |Labels(Relabel(s, w, k), w2, ignoreCase)| == |Labels(s, w2, ignoreCase)|
  {
    var z := Relabel(s[m.len..], w, k);
    RelabelAfter(s, w, k, m);
    TagOtherFree(w, k, w2, ignoreCase);
    LabelsNoStart(Tag(w, k), z, w2, ignoreCase);
    WindowOtherFree(s, w, w2, ignoreCase, m);
    LabelsNoStart(s[..m.len], s[m.len..], w2, ignoreCase);
    assert s[..m.len] + s[m.len..] == s;
  }

  /** One step of RelabelCount: no label of w, a match of w2. */
  lemma CountFound(s: string, w: string, k: nat, w2: string, ignoreCase: bool, m: Label)
    requires IsLabelWord(w) && IsLabelWord(w2)
    requires LabelAt(s, w, false).None? && LabelAt(s, w2, ignoreCase) == Some(m)
    requires |Labels(Relabel(s[m.len..], w, k), w2, ignoreCase)| == |Labels(s[m.len..], w2, ignoreCase)|
    ensures |Labels(Relabel(s, w, k), w2, ignoreCase)| == |Labels(s, w2, ignoreCase)|
  {
    PassFound(s, w, k, w2, ignoreCase, m);
    LabelsAfter(s, w2, ignoreCase, m);
    LabelsAfter(Relabel(s, w, k), w2, ignoreCase, m);
  }

  /** One step of RelabelCount: neither a label of w nor a match of w2. */
  lemma CountPass(s: string, w: string, k: nat, w2: string, ignoreCase: bool)
    requires IsLabelWord(w) && IsLabelWord(w2)
    requires s != [] && LabelAt(s, w, false).None? && LabelAt(s, w2, ignoreCase).None?
    requires |Labels(Relabel(s[1..], w, k), w2, ignoreCase)| == |Labels(s[1..], w2, ignoreCase)|
    ensures |Labels(Relabel(s, w, k), w2, ignoreCase)| == |Labels(s, w2, ignoreCase)|
  {
    PassMissing(s, w, k, w2, ignoreCase);
    LabelsPass(s, w2, ignoreCase);
    LabelsPass(Relabel(s, w, k), w2, ignoreCase);
  }

  /** After renumbering w to k, every case-sensitive label of w reads k. */
  lemma {:induction false} RelabelNumbers(s: string, w: string, k: nat)
    requires IsLabelWord(w)
    ensures Labels(Relabel(s, w, k), w, false) == Repeat(k, |Labels(s, w, false)|)
    decreases |s|
  {
    if s != [] {
      var r := Relabel(s, w, k);
      match LabelAt(s, w, false)
      case Some(m) =>
        var z := Relabel(s[m.len..], w, k);
        RelabelAfter(s, w, k, m);
        RelabelNumbers(s[m.len..], w, k);
        LabelsAfter(s, w, false, m);
        TagIsLabel(w, k, z, false);
        LabelsAfter(r, w, false, Label(|Tag(w, k)|, k, |w| + 1));
        assert r[|Tag(w, k)|..] == z;
      case None =>
        PassMissing(s, w, k, w, false);
        LabelsPass(s, w, false);
        LabelsPass(r, w, false);
        RelabelNumbers(s[1..], w, k);
    }
  }

  /** Text with no case-sensitive label of w passes through unchanged. */
  lemma {:induction false} RelabelUnlabelled(s: string, w: string, k: nat)
    requires Labels(s, w, false) == []
    ensures Relabel(s, w, k) == s
    decreases |s|
  {
    if s != [] {
      assert LabelAt(s, w, false).None?;
      RelabelPass(s, w, k);
      LabelsPass(s, w, false);
      RelabelUnlabelled(s[1..], w, k);
    }
  }
}
