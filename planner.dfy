/** `calculate_question_distribution`: how many questions each of the five
    categories gets. Categories are numbered 0..4 in the order the source's
    dictionary lists them: Technical, Behavioral, Situational,
    Cultural/Personality, Problem-Solving. */
module Planner {

  const CategoryCount: nat := 5

  /** The category names, as the dictionary keys spell them. */
  const CategoryNames: seq<string> :=
    ["Technical", "Behavioral", "Situational", "Cultural/Personality", "Problem-Solving"]

  /** Each category's share of the questions, in percent. */
  const Shares: seq<nat> := [40, 20, 15, 10, 15]

  function Max(a: int, b: int): int { if a >= b then a else b }

  function Min(a: int, b: int): int { if a <= b then a else b }

  /** The first estimates `max(1, int(n * share))`, category by category. */
  function InitialQuotas(n: int): (r: seq<int>)
    ensures |r| == CategoryCount
    ensures forall c :: 0 <= c < CategoryCount ==> r[c] == Max(1, n * Shares[c] / 100)
  {
    [Max(1, n * 40 / 100), Max(1, n * 20 / 100), Max(1, n * 15 / 100), Max(1, n * 10 / 100), Max(1, n * 15 / 100)]
  }

  /** `sum(...)` */
  function Sum(d: seq<int>): int {
    if d == [] then 0 else Sum(d[..|d| - 1]) + d[|d| - 1]
  }

  // ---------------------------------------------------------------------
  // The order in which the excess is removed

  /** Category a comes before category b in `sorted(..., reverse=True)`: a
      larger quota first, and between equal quotas the earlier category,
      because Python's sort is stable. */
  predicate Before(d: seq<int>, a: nat, b: nat) {
    a < |d| && b < |d| && (d[a] > d[b] || (d[a] == d[b] && a < b))
  }

  predicate Indices(d: seq<int>, s: seq<nat>) {
    forall i :: 0 <= i < |s| ==> s[i] < |d|
  }

  predicate StableDescending(d: seq<int>, s: seq<nat>)
    requires Indices(d, s)
  {
    forall i, j :: 0 <= i < j < |s| ==> Before(d, s[i], s[j])
  }

  /** Insert category x into an ordered list, after every category whose
      quota is at least x's. */
  function Insert(d: seq<int>, x: nat, s: seq<nat>): (r: seq<nat>)
    requires x < |d| && Indices(d, s)
    ensures |r| == |s| + 1 && Indices(d, r)
  {
    if s == [] then [x]
    else if d[s[0]] >= d[x] then [s[0]] + Insert(d, x, s[1..])
    else [x] + s
  }

  /** Inserting adds x and keeps everything else. */
  lemma {:induction false} InsertMembers(d: seq<int>, x: nat, s: seq<nat>)
    requires x < |d| && Indices(d, s)
    ensures multiset(Insert(d, x, s)) == multiset(s) + multiset{x}
    decreases |s|
  {
    if s != [] && d[s[0]] >= d[x] {
      InsertMembers(d, x, s[1..]);
      assert s == [s[0]] + s[1..];
    }
  }

  /** Insertion sort of the categories 0..k-1, taken in dictionary order, so
      that earlier ones stay first on ties. */
  function SortFirst(d: seq<int>, k: nat): (r: seq<nat>)
    requires k <= |d|
    ensures |r| == k && Indices(d, r)
  {
    if k == 0 then [] else Insert(d, k - 1, SortFirst(d, k - 1))
  }

  /** Inserting keeps every entry below a bound that x is below too. */
  lemma {:induction false} InsertBounds(d: seq<int>, x: nat, s: seq<nat>, bound: nat)
    requires x < |d| && Indices(d, s)
    requires x < bound && forall i :: 0 <= i < |s| ==> s[i] < bound
    ensures forall i :: 0 <= i < |s| + 1 ==> Insert(d, x, s)[i] < bound
    decreases |s|
  {
    if s != [] && d[s[0]] >= d[x] {
      InsertBounds(d, x, s[1..], bound);
    }
  }

  /** The sort holds the categories 0..k-1, each once. */
  lemma {:induction false} SortMembers(d: seq<int>, k: nat)
    requires k <= |d|
    ensures forall i :: 0 <= i < k ==> SortFirst(d, k)[i] < k
    ensures forall c :: 0 <= c < k ==> c in SortFirst(d, k)
    decreases k
  {
    if k > 0 {
      var s := SortFirst(d, k - 1);
      var r := SortFirst(d, k);
      assert r == Insert(d, k - 1, s);
      SortMembers(d, k - 1);
      InsertBounds(d, k - 1, s, k);
      InsertMembers(d, k - 1, s);
      forall c | 0 <= c < k ensures c in r {
        if c < k - 1 {
          assert c in s;
          assert c in multiset(s);
        }
        assert c in multiset(r);
      }
    }
  }

  /** `sorted(distribution.keys(), key=..., reverse=True)` */
  function Order(d: seq<int>): (r: seq<nat>)
    requires |d| == CategoryCount
    ensures |r| == CategoryCount && Indices(d, r)
  {
    SortFirst(d, |d|)
  }

  lemma {:induction false} InsertStable(d: seq<int>, x: nat, s: seq<nat>)
    requires x < |d| && Indices(d, s) && StableDescending(d, s)
    requires forall i :: 0 <= i < |s| ==> s[i] < x
    ensures StableDescending(d, Insert(d, x, s))
    decreases |s|
  {
    if s != [] {
      if d[s[0]] >= d[x] {
        InsertStable(d, x, s[1..]);
        InsertMembers(d, x, s[1..]);
        var t := Insert(d, x, s[1..]);
        forall j | 0 <= j < |t| ensures Before(d, s[0], t[j]) {
          assert t[j] in multiset(t);
          if t[j] != x {
            assert t[j] in multiset(s[1..]);
            var k :| 0 <= k < |s[1..]| && s[1..][k] == t[j];
            assert Before(d, s[0], s[k + 1]);
          }
        }
        ConsStable(d, s[0], t);
      } else {
        forall j | 0 <= j < |s| ensures Before(d, x, s[j]) {
          if j > 0 {
            assert Before(d, s[0], s[j]);
          }
        }
        ConsStable(d, x, s);
      }
    }
  }

  /** Putting first a category that comes before all the others keeps the
      list in order. */
  lemma ConsStable(d: seq<int>, h: nat, t: seq<nat>)
    requires h < |d| && Indices(d, t) && StableDescending(d, t)
    requires forall j :: 0 <= j < |t| ==> Before(d, h, t[j])
    ensures Indices(d, [h] + t) && StableDescending(d, [h] + t)
  {
    var r := [h] + t;
    forall i, j | 0 <= i < j < |r| ensures Before(d, r[i], r[j]) {
      assert r[j] == t[j - 1];
      if i > 0 {
        assert r[i] == t[i - 1];
      }
    }
  }

  lemma {:induction false} SortStable(d: seq<int>, k: nat)
    requires k <= |d|
    ensures StableDescending(d, SortFirst(d, k))
    decreases k
  {
    if k > 0 {
      SortStable(d, k - 1);
      SortMembers(d, k - 1);
      InsertStable(d, k - 1, SortFirst(d, k - 1));
    }
  }

  /** The removal order is a permutation of the five categories, sorted by
      descending quota, with ties in dictionary order. */
  lemma OrderIsStableSort(d: seq<int>)
    requires |d| == CategoryCount
    ensures |Order(d)| == CategoryCount && Indices(d, Order(d))
    ensures forall c :: 0 <= c < CategoryCount ==> c in Order(d)
    ensures StableDescending(d, Order(d))
  {
    SortStable(d, |d|);
    SortMembers(d, |d|);
  }

  // ---------------------------------------------------------------------
  // The correction pass

  /** The excess loop, from the category order[0] on: lower each quota above 1
      by as much of the remaining excess as it can give, and stop as soon as
      the excess is used up. */
  function Reduce(d: seq<int>, order: seq<nat>, excess: int): (r: seq<int>)
    requires Indices(d, order)
    ensures |r| == |d|
    decreases |order|
  {
    if order == [] then d
    else
      var c := order[0];
      var reduction := if d[c] > 1 && excess > 0 then Min(d[c] - 1, excess) else 0;
      var d' := d[c := d[c] - reduction];
      if excess - reduction == 0 then d' else Reduce(d', order[1..], excess - reduction)
  }

  /** The correction pass applied to the estimates d for n questions. */
  function Corrected(d: seq<int>, n: int): (r: seq<int>)
    requires |d| == CategoryCount
    ensures |r| == CategoryCount
  {
    var total := Sum(d);
    if total < n then d[0 := d[0] + (n - total)]
    else if total > n then Reduce(d, Order(d), total - n)
    else d
  }

  /** The quotas `calculate_question_distribution(n)` returns. */
  function Distribution(n: int): (r: seq<int>)
    ensures |r| == CategoryCount
  {
    Corrected(InitialQuotas(n), n)
  }

  /** `calculate_question_distribution(n)`: the estimates, then the
      correction pass. */
  method CalculateQuestionDistribution(n: int) returns (d: seq<int>)
    ensures d == Distribution(n)
    ensures |d| == CategoryCount && forall c :: 0 <= c < CategoryCount ==> d[c] >= 1
    ensures n >= CategoryCount ==> Sum(d) == n
    ensures n < CategoryCount ==> d == [1, 1, 1, 1, 1]
  {
    d := InitialQuotas(n);
    d := CorrectTotal(d, n);
    DistributionFacts(n);
    if n < CategoryCount {
      DistributionSmall(n);
    }
  }

  /** The correction pass of `calculate_question_distribution`: give a
      shortfall to Technical, or walk the categories in descending-quota order
      taking the excess off until it is used up. */
  method CorrectTotal(estimates: seq<int>, n: int) returns (d: seq<int>)
    requires |estimates| == CategoryCount
    ensures d == Corrected(estimates, n)
  {
    d := estimates;
    var total := Sum(d);
    if total < n {
      d := d[0 := d[0] + (n - total)];
    } else if total > n {
      var excess := total - n;
      var order := Order(d);
      OrderIsStableSort(d);
      var i := 0;
      while i < |order|
        invariant 0 <= i <= |order| && excess > 0
        invariant |d| == CategoryCount && Indices(d, order)
        invariant Reduce(d, order[i..], excess) == Corrected(estimates, n)
      {
        var c := order[i];
        assert order[i..][0] == c && order[i..][1..] == order[i + 1..];
        if d[c] > 1 && excess > 0 {
          var reduction := Min(d[c] - 1, excess);
          d := d[c := d[c] - reduction];
          excess := excess - reduction;
        } else {
          assert d[c := d[c] - 0] == d;
        }
        if excess == 0 {
          break;
        }
        i := i + 1;
      }
    }
  }

  lemma SumUpdate(d: seq<int>, c: nat, v: int)
    requires c < |d|
    ensures Sum(d[c := v]) == Sum(d) - d[c] + v
  {
    if c < |d| - 1 {
      assert d[c := v][..|d| - 1] == d[..|d| - 1][c := v];
      SumUpdate(d[..|d| - 1], c, v);
    } else {
      assert d[c := v][..|d| - 1] == d[..|d| - 1];
    }
  }

  /** The excess loop keeps every quota between 1 and where it started, takes
      off no more than the excess, and when it takes off less, every category
      it went through is down to 1. */
  lemma {:induction false} ReduceFacts(d: seq<int>, order: seq<nat>, excess: int)
    requires Indices(d, order) && excess >= 0
    requires forall c :: 0 <= c < |d| ==> d[c] >= 1
    ensures var r := Reduce(d, order, excess);
      && |r| == |d|
      && (forall c :: 0 <= c < |d| ==> 1 <= r[c] <= d[c])
      && Sum(r) >= Sum(d) - excess
      && (Sum(r) == Sum(d) - excess || forall i :: 0 <= i < |order| ==> r[order[i]] == 1)
    decreases |order|
  {
    if order != [] {
      var c := order[0];
      var reduction := if d[c] > 1 && excess > 0 then Min(d[c] - 1, excess) else 0;
      var d' := d[c := d[c] - reduction];
      var rest := excess - reduction;
      SumUpdate(d, c, d[c] - reduction);
      if rest == 0 {
        assert Reduce(d, order, excess) == d';
      } else {
        ReduceFacts(d', order[1..], rest);
        var r := Reduce(d', order[1..], rest);
        assert Reduce(d, order, excess) == r;
        assert d'[c] == 1;
        assert forall i :: 0 < i < |order| ==> order[i] == order[1..][i - 1];
      }
    }
  }


  /** Every first estimate is at least 1; below five questions all are 1. */
  lemma InitialQuotasPositive(n: int)
    ensures forall c :: 0 <= c < CategoryCount ==> InitialQuotas(n)[c] >= 1
    ensures n < CategoryCount ==> InitialQuotas(n) == [1, 1, 1, 1, 1]
  {
  }

  /** With an excess, the correction only lowers quotas, never below 1. */
  lemma ExcessOnlyLowers(d: seq<int>, n: int)
    requires |d| == CategoryCount && forall c :: 0 <= c < CategoryCount ==> d[c] >= 1
    requires Sum(d) > n
    ensures forall c :: 0 <= c < CategoryCount ==> 1 <= Corrected(d, n)[c] <= d[c]
  {
    assert Corrected(d, n) == Reduce(d, Order(d), Sum(d) - n);
    OrderIsStableSort(d);
    ReduceFacts(d, Order(d), Sum(d) - n);
  }

  /** A shortfall goes entirely to Technical. */
  lemma ShortfallToTechnical(d: seq<int>, n: int)
    requires |d| == CategoryCount && Sum(d) < n
    ensures Corrected(d, n)[0] == d[0] + (n - Sum(d))
    ensures forall c :: 1 <= c < CategoryCount ==> Corrected(d, n)[c] == d[c]
  {
  }

  /** The correction keeps every quota at least 1. */
  lemma CorrectedPositive(d: seq<int>, n: int)
    requires |d| == CategoryCount && forall c :: 0 <= c < CategoryCount ==> d[c] >= 1
    ensures |Corrected(d, n)| == CategoryCount
    ensures forall c :: 0 <= c < CategoryCount ==> Corrected(d, n)[c] >= 1
  {
    if Sum(d) > n {
      ExcessOnlyLowers(d, n);
    }
  }

  /** For five or more questions the corrected quotas add up to exactly n. */
  lemma CorrectedSum(d: seq<int>, n: int)
    requires |d| == CategoryCount && forall c :: 0 <= c < CategoryCount ==> d[c] >= 1
    requires n >= CategoryCount
    ensures Sum(Corrected(d, n)) == n
  {
    if Sum(d) < n {
      SumUpdate(d, 0, d[0] + (n - Sum(d)));
    } else if Sum(d) > n {
      var order := Order(d);
      OrderIsStableSort(d);
      ReduceFacts(d, order, Sum(d) - n);
      var r := Reduce(d, order, Sum(d) - n);
      if Sum(r) != n {
        forall c | 0 <= c < CategoryCount ensures r[c] == 1 {
          assert c in order;
          var i :| 0 <= i < |order| && order[i] == c;
        }
        SumFive(r);
      }
    }
  }

  lemma SumFive(d: seq<int>)
    requires |d| == 5
    ensures Sum(d) == d[0] + d[1] + d[2] + d[3] + d[4]
  {
    assert Sum(d) == Sum(d[..4]) + d[4];
    assert d[..4][..3] == d[..3];
    assert Sum(d[..4]) == Sum(d[..3]) + d[3];
    assert d[..3][..2] == d[..2];
    assert Sum(d[..3]) == Sum(d[..2]) + d[2];
    assert d[..2][..1] == d[..1];
    assert Sum(d[..2]) == Sum(d[..1]) + d[1];
    assert d[..1][..0] == [];
  }

  /** Every category gets at least one question, and for five or more
      questions the quotas add up to exactly n. */
  lemma DistributionFacts(n: int)
    ensures |Distribution(n)| == CategoryCount
    ensures forall c :: 0 <= c < CategoryCount ==> Distribution(n)[c] >= 1
    ensures n >= CategoryCount ==> Sum(Distribution(n)) == n
  {
    InitialQuotasPositive(n);
    CorrectedPositive(InitialQuotas(n), n);
    if n >= CategoryCount {
      CorrectedSum(InitialQuotas(n), n);
    }
  }

  /** For at most four questions every quota is 1, so they add up to 5. */
  lemma DistributionSmall(n: int)
    requires n < CategoryCount
    ensures Distribution(n) == [1, 1, 1, 1, 1]
  {
    var d := InitialQuotas(n);
    InitialQuotasPositive(n);
    SumFive(d);
    ExcessOnlyLowers(d, n);
  }

  /** Worked example: 10 questions split 5/2/1/1/1: the estimates
      4/2/1/1/1 fall one short, and Technical takes it. */
  lemma DistributionOfTen()
    ensures Distribution(10) == [5, 2, 1, 1, 1]
  {
    var d := InitialQuotas(10);
    assert d == [4, 2, 1, 1, 1];
    SumFive(d);
  }

  /** Worked example: 5 questions, the bottom of the accepted range; the
      estimates 2/1/1/1/1 are one over, and Technical, first in the order,
      gives it up. */
  lemma DistributionOfFive()
    ensures Distribution(5) == [1, 1, 1, 1, 1]
  {
    var d := InitialQuotas(5);
    assert d == [2, 1, 1, 1, 1];
    SumFive(d);
    OrderStartsWith(d, 0);
    ReduceFirst(d, Order(d), 1);
  }

  /** A category that comes before every other one heads the order. */
  lemma OrderStartsWith(d: seq<int>, c: nat)
    requires |d| == CategoryCount && c < CategoryCount
    requires forall x :: 0 <= x < CategoryCount && x != c ==> Before(d, c, x)
    ensures Order(d)[0] == c
  {
    var order := Order(d);
    OrderIsStableSort(d);
    assert c in order;
    var i :| 0 <= i < |order| && order[i] == c;
    var first := order[0];
    assert i == 0 || Before(d, first, c);
    assert first == c || Before(d, c, first);
  }

  /** When the first category in the order can absorb the whole excess, it
      alone is lowered. */
  lemma ReduceFirst(d: seq<int>, order: seq<nat>, excess: int)
    requires Indices(d, order) && |order| > 0
    requires 0 < excess <= d[order[0]] - 1
    ensures Reduce(d, order, excess) == d[order[0] := d[order[0]] - excess]
  {
  }

  /** Worked example: 20 questions, the top of the accepted range; the
      estimates 8/4/3/2/3 already add up. */
  lemma DistributionOfTwenty()
    ensures Distribution(20) == [8, 4, 3, 2, 3]
  {
    var d := InitialQuotas(20);
    assert d == [8, 4, 3, 2, 3];
    SumFive(d);
  }
}
