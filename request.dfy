/** Request normalisation in the `/generate` and `/distribution` routes: the
    question count is clamped to 5..20 and an unknown complexity level falls
    back to intermediate. */
module Request {
  import opened Text
  import opened Planner

  const MinQuestions: int := 5
  const MaxQuestions: int := 20
  /** The count used when the form or body does not give one. */
  const DefaultQuestions: int := 10

  /** `max(5, min(n, 20))` */
  function Clamp(n: int): (r: int)
    ensures MinQuestions <= r <= MaxQuestions
    ensures MinQuestions <= n <= MaxQuestions ==> r == n
    ensures n < MinQuestions ==> r == MinQuestions
    ensures n > MaxQuestions ==> r == MaxQuestions
  {
    Max(MinQuestions, Min(n, MaxQuestions))
  }

  /** Clamping twice changes nothing more, and it keeps the order of counts. */
  lemma ClampIdempotentMonotone(n: int, m: int)
    ensures Clamp(Clamp(n)) == Clamp(n)
    ensures n <= m ==> Clamp(n) <= Clamp(m)
  {
  }

  /** The count a request asks for: the given number, or 10 when absent,
      clamped. */
  function RequestedCount(given: Option<int>): (r: int)
    ensures MinQuestions <= r <= MaxQuestions
    ensures given.None? ==> r == DefaultQuestions
    ensures given.Some? && MinQuestions <= given.value <= MaxQuestions ==> r == given.value
  {
    Clamp(if given.Some? then given.value else DefaultQuestions)
  }

  /** Whatever count a request carries, the planner splits the clamped count
      into five quotas of at least one that add up to it. */
  lemma ClampedDistribution(given: Option<int>)
    ensures var n := RequestedCount(given);
      && |Distribution(n)| == CategoryCount
      && (forall c :: 0 <= c < CategoryCount ==> Distribution(n)[c] >= 1)
      && Sum(Distribution(n)) == n
  {
    DistributionFacts(RequestedCount(given));
  }

  /** The three complexity levels the routes accept. */
  datatype Complexity = Basic | Intermediate | Advanced

  function Name(c: Complexity): string {
    match c
    case Basic => "basic"
    case Intermediate => "intermediate"
    case Advanced => "advanced"
  }

  /** The level a request asks for: "basic", "intermediate" or "advanced" as
      given; anything else, or nothing, is intermediate. */
  function ParseComplexity(given: Option<string>): (r: Complexity)
    ensures given.None? ==> r == Intermediate
    ensures given.Some? ==> (Name(r) == given.value || (r == Intermediate && given.value !in KnownNames()))
  {
    if given.None? then Intermediate
    else if given.value == "basic" then Basic
    else if given.value == "advanced" then Advanced
    else Intermediate
  }

  function KnownNames(): seq<string> {
    ["basic", "intermediate", "advanced"]
  }

  /** The complexity string the route goes on with. */
  function NormalizeComplexity(given: Option<string>): (r: string)
    ensures r in KnownNames()
    ensures given.Some? && given.value in KnownNames() ==> r == given.value
    ensures given.Some? && given.value !in KnownNames() ==> r == "intermediate"
  {
    Name(ParseComplexity(given))
  }

  /** A level's name reads back as that level, and normalising is idempotent. */
  lemma ComplexityRoundTrip(c: Complexity, given: Option<string>)
    ensures ParseComplexity(Some(Name(c))) == c
    ensures NormalizeComplexity(Some(NormalizeComplexity(given))) == NormalizeComplexity(given)
  {
  }

  /** The guideline paragraph for a complexity: `complexity_guidelines.get`
      with the intermediate paragraph as fallback. The three paragraphs are
      prompt text and are given as parameters. */
  function Guideline(complexity: string, basic: string, intermediate: string, advanced: string): (r: string)
    ensures complexity == "basic" ==> r == basic
    ensures complexity == "advanced" ==> r == advanced
    ensures complexity != "basic" && complexity != "advanced" ==> r == intermediate
  {
    if complexity == "basic" then basic
    else if complexity == "advanced" then advanced
    else intermediate
  }
}
