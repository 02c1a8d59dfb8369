/** Strings as the post-processing layer sees them: characters, stripping,
    case mapping, line splitting and decimal numerals. Whitespace is Python's
    full set; `str.upper`, `str.lower` and `\d` are modelled on ASCII. */
module Text {

  datatype Option<T> = None | Some(value: T)

  /** Whitespace for `str.strip()` and the regex class `\s` (`str.isspace`):
      tab to carriage return, the four separators 0x1C-0x1F, space, next
      line, no-break space, and the Unicode space and line separators. */
  predicate IsSpace(c: char) {
    var n := c as int;
    || 9 <= n <= 13 || 28 <= n <= 32 || n == 0x85 || n == 0xA0 || n == 0x1680
    || 0x2000 <= n <= 0x200A || n == 0x2028 || n == 0x2029 || n == 0x202F || n == 0x205F || n == 0x3000
  }

  /** The regex class `\d`. */
  predicate IsDigit(c: char) { '0' <= c <= '9' }

  predicate IsLetter(c: char) { 'A' <= c <= 'Z' || 'a' <= c <= 'z' }

  function LowerChar(c: char): char {
    if 'A' <= c <= 'Z' then (c as int + 32) as char else c
  }

  function UpperChar(c: char): char {
    if 'a' <= c <= 'z' then (c as int - 32) as char else c
  }

  /** `str.upper()` */
  function Upper(s: string): (r: string)
    ensures |r| == |s|
  {
    if s == [] then [] else [UpperChar(s[0])] + Upper(s[1..])
  }

  /** `str.lower()` */
  function Lower(s: string): (r: string)
    ensures |r| == |s|
  {
    if s == [] then [] else [LowerChar(s[0])] + Lower(s[1..])
  }

  /** A text without lower-case letters is its own upper-case form. */
  lemma {:induction false} UpperFixed(s: string)
    requires forall i :: 0 <= i < |s| ==> !('a' <= s[i] <= 'z')
    ensures Upper(s) == s
    decreases |s|
  {
    if s != [] {
      UpperFixed(s[1..]);
      assert s == [s[0]] + s[1..];
    }
  }

  /** Both case mappings work character by character. */
  lemma {:induction false} CaseByChar(s: string)
    ensures forall i :: 0 <= i < |s| ==> Upper(s)[i] == UpperChar(s[i])
    ensures forall i :: 0 <= i < |s| ==> Lower(s)[i] == LowerChar(s[i])
  {
    if s != [] {
      CaseByChar(s[1..]);
    }
  }

  /** `s.startswith(p)` */
  predicate StartsWith(s: string, p: string) {
    |p| <= |s| && s[..|p|] == p
  }

  /** A text whose first character differs from that of p does not start
      with p. */
  lemma FirstDiffers(s: string, p: string)
    requires s != [] && p != [] && s[0] != p[0]
    ensures !StartsWith(s, p)
  {
    assert |p| <= |s| ==> s[..|p|][0] == s[0];
  }

  /** `p in s` for strings: p occurs as a contiguous piece of s. */
  predicate Contains(s: string, p: string)
    decreases |s|
  {
    StartsWith(s, p) || (|s| > 0 && Contains(s[1..], p))
  }

  lemma ContainsItself(s: string)
    ensures Contains(s, s)
  {
    assert s[..|s|] == s;
  }

  /** Nothing occurs in a text shorter than itself. */
  lemma {:induction false} ContainsShorter(s: string, p: string)
    requires |s| < |p|
    ensures !Contains(s, p)
    decreases |s|
  {
    if |s| > 0 {
      ContainsShorter(s[1..], p);
    }
  }

  function StripLeft(s: string): (r: string)
    ensures |r| <= |s| && r == s[|s| - |r|..]
    ensures forall k :: 0 <= k < |s| - |r| ==> IsSpace(s[k])
    ensures r == [] || !IsSpace(r[0])
  {
    if |s| > 0 && IsSpace(s[0]) then StripLeft(s[1..]) else s
  }

  function StripRight(s: string): (r: string)
    ensures |r| <= |s| && r == s[..|r|]
    ensures forall k :: |r| <= k < |s| ==> IsSpace(s[k])
    ensures r == [] || !IsSpace(r[|r| - 1])
  {
    if |s| > 0 && IsSpace(s[|s| - 1]) then StripRight(s[..|s| - 1]) else s
  }

  /** r is the piece s[i..j] of s, with only whitespace before and after it. */
  predicate PieceBetweenSpaces(s: string, r: string, i: int, j: int) {
    && 0 <= i <= j <= |s| && r == s[i..j]
    && (forall k :: 0 <= k < i ==> IsSpace(s[k]))
    && (forall k :: j <= k < |s| ==> IsSpace(s[k]))
  }

  /** `str.strip()`: s with the whitespace at both ends removed, that is a
      piece of s with only whitespace around it and none at either of its
      own ends. */
  function Strip(s: string): (r: string)
    ensures |r| <= |s|
    ensures exists i, j :: PieceBetweenSpaces(s, r, i, j)
    ensures r == [] || (!IsSpace(r[0]) && !IsSpace(r[|r| - 1]))
  {
    StripBothEnds(s);
    StripRight(StripLeft(s))
  }

  lemma StripBothEnds(s: string)
    ensures PieceBetweenSpaces(s, StripRight(StripLeft(s)), |s| - |StripLeft(s)|,
      |s| - |StripLeft(s)| + |StripRight(StripLeft(s))|)
  {
    PrefixOfSuffix(s, StripLeft(s), StripRight(StripLeft(s)));
  }

  /** A prefix r of a suffix left of s, with only whitespace cut off on
      either side, is a piece of s between whitespace. */
  lemma PrefixOfSuffix(s: string, left: string, r: string)
    requires |left| <= |s| && left == s[|s| - |left|..]
    requires forall k :: 0 <= k < |s| - |left| ==> IsSpace(s[k])
    requires |r| <= |left| && r == left[..|r|]
    requires forall k :: |r| <= k < |left| ==> IsSpace(left[k])
    ensures PieceBetweenSpaces(s, r, |s| - |left|, |s| - |left| + |r|)
  {
    var i, j := |s| - |left|, |s| - |left| + |r|;
    assert r == s[i..j];
    forall k | j <= k < |s| ensures IsSpace(s[k]) {
      assert s[k] == left[k - i];
    }
  }

  /** A text with no whitespace at either end is left as it is. */
  lemma StripUnchanged(s: string)
    requires s != [] && !IsSpace(s[0]) && !IsSpace(s[|s| - 1])
    ensures Strip(s) == s
  {
  }

  lemma StripIdempotent(s: string)
    ensures Strip(Strip(s)) == Strip(s)
  {
    var r := Strip(s);
    assert StripLeft(r) == r;
    assert StripRight(r) == r;
  }

  /** `s.split('\n')`: the pieces between line feeds; never empty. */
  function Split(s: string): (r: seq<string>)
    ensures |r| >= 1
  {
    if s == [] then [""]
    else if s[0] == '\n' then [""] + Split(s[1..])
    else
      var rest := Split(s[1..]);
      [[s[0]] + rest[0]] + rest[1..]
  }

  /** `'\n'.join(lines)` */
  function Join(lines: seq<string>): string
    requires |lines| >= 1
  {
    if |lines| == 1 then lines[0] else lines[0] + "\n" + Join(lines[1..])
  }

  /** Splitting loses nothing: joining the pieces back gives the original text. */
  lemma {:induction false} SplitJoin(s: string)
    ensures Join(Split(s)) == s
    decreases |s|
  {
    if s == [] {
    } else if s[0] == '\n' {
      SplitJoin(s[1..]);
      var r := Split(s);
      assert r[1..] == Split(s[1..]);
      assert Join(r) == "" + "\n" + Join(r[1..]);
      assert s == "\n" + s[1..];
    } else {
      SplitJoin(s[1..]);
      var rest := Split(s[1..]);
      var r := Split(s);
      assert r[0] == [s[0]] + rest[0];
      assert r[1..] == rest[1..];
      if |rest| == 1 {
        assert Join(r) == [s[0]] + rest[0];
      } else {
        assert Join(r) == r[0] + "\n" + Join(rest[1..]);
        assert Join(rest) == rest[0] + "\n" + Join(rest[1..]);
      }
      assert s == [s[0]] + s[1..];
    }
  }

  /** No piece of a split contains a line feed. */
  lemma {:induction false} SplitNoNewline(s: string)
    ensures forall i :: 0 <= i < |Split(s)| ==> '\n' !in Split(s)[i]
    decreases |s|
  {
    if s != [] {
      SplitNoNewline(s[1..]);
      var rest := Split(s[1..]);
      var r := Split(s);
      if s[0] == '\n' {
        assert r[1..] == rest;
        forall i | 0 <= i < |r| ensures '\n' !in r[i] {
          if i > 0 { assert r[i] == rest[i - 1]; }
        }
      } else {
        forall i | 0 <= i < |r| ensures '\n' !in r[i] {
          if i > 0 { assert r[i] == rest[i]; }
          else { assert r[0] == [s[0]] + rest[0]; }
        }
      }
    }
  }

  /** A piece without a line feed, followed by a line feed, is split off
      as the first line. */
  lemma {:induction false} SplitAfter(a: string, b: string)
    requires '\n' !in a
    ensures Split(a + "\n" + b) == [a] + Split(b)
    decreases |a|
  {
    var s := a + "\n" + b;
    if a == [] {
      assert s == "\n" + b && s[1..] == b;
    } else {
      assert s[1..] == a[1..] + "\n" + b;
      SplitAfter(a[1..], b);
      assert a == [a[0]] + a[1..];
    }
  }

  /** A text without a line feed is one line. */
  lemma {:induction false} SplitSingle(a: string)
    requires '\n' !in a
    ensures Split(a) == [a]
    decreases |a|
  {
    if a != [] {
      SplitSingle(a[1..]);
      assert a == [a[0]] + a[1..];
    }
  }

  /** Joining lines that hold no line feed and splitting the result gives
      the lines back. */
  lemma {:induction false} JoinSplit(lines: seq<string>)
    requires |lines| >= 1
    requires forall i :: 0 <= i < |lines| ==> '\n' !in lines[i]
    ensures Split(Join(lines)) == lines
    decreases |lines|
  {
    if |lines| == 1 {
      SplitSingle(lines[0]);
    } else {
      JoinSplit(lines[1..]);
      SplitAfter(lines[0], Join(lines[1..]));
      assert lines == [lines[0]] + lines[1..];
    }
  }

  function DigitChar(d: nat): char
    requires d < 10
  {
    ('0' as int + d) as char
  }

  /** `str(n)` for a non-negative integer: its decimal numeral. */
  function Itoa(n: nat): (r: string)
    ensures |r| >= 1
    ensures forall i :: 0 <= i < |r| ==> IsDigit(r[i])
  {
    if n < 10 then [DigitChar(n)] else Itoa(n / 10) + [DigitChar(n % 10)]
  }

  function DigitValue(c: char): nat
    requires IsDigit(c)
  {
    c as int - '0' as int
  }

  /** The value of the digits ds read after a value v: `int(str(v) + ds)`
      when v > 0, `int(ds)` when v == 0. */
  function NumeralValue(v: nat, ds: string): nat
    requires forall i :: 0 <= i < |ds| ==> IsDigit(ds[i])
    decreases |ds|
  {
    if ds == [] then v else NumeralValue(v * 10 + DigitValue(ds[0]), ds[1..])
  }

  lemma {:induction false} NumeralValueSnoc(v: nat, ds: string, d: char)
    requires forall i :: 0 <= i < |ds| ==> IsDigit(ds[i])
    requires IsDigit(d)
    ensures forall i :: 0 <= i < |ds + [d]| ==> IsDigit((ds + [d])[i])
    ensures NumeralValue(v, ds + [d]) == NumeralValue(v, ds) * 10 + DigitValue(d)
    decreases |ds|
  {
    assert forall i :: 0 <= i < |ds + [d]| ==> IsDigit((ds + [d])[i]);
    if ds != [] {
      assert (ds + [d])[1..] == ds[1..] + [d];
      NumeralValueSnoc(v * 10 + DigitValue(ds[0]), ds[1..], d);
    }
  }

  /** The numeral is the one `str` writes: "0" for zero, and no leading
      zero otherwise. */
  lemma {:induction false} ItoaCanonical(n: nat)
    ensures n == 0 ==> Itoa(n) == "0"
    ensures n > 0 ==> Itoa(n)[0] != '0'
  {
    if n >= 10 {
      ItoaCanonical(n / 10);
    }
  }

  /** Reading back a printed number gives the number. */
  lemma {:induction false} ReadItoa(n: nat)
    ensures NumeralValue(0, Itoa(n)) == n
  {
    if n >= 10 {
      ReadItoa(n / 10);
      NumeralValueSnoc(0, Itoa(n / 10), DigitChar(n % 10));
    }
  }
}
