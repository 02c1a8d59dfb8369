/** The bounded retry policy of `generate_categorized_questions` and the two
    routes that compute something: `/generate` and `/distribution`. The text
    generator is an oracle: `respond(k)` is the text it returns on its
    (k+1)-th call. */
module Pipeline {
  import opened Text
  import opened Markers
  import opened Planner
  import opened Request
  import opened Bucketing
  import opened Repair
  import RepairCount

  /** The first call and up to two retries (`retry_count < 2`). */
  const MaxAttempts: nat := 3

  /** The retry policy of `generate_categorized_questions(..., retry_count)`
      on its own: a response that accept passes is returned as it is;
      otherwise the next attempt is made, and the last attempt's response is
      handed to repair. */
  function Retry(accept: string -> bool, repair: string -> string, respond: nat -> string, retryCount: nat): string
    requires retryCount < MaxAttempts
    decreases MaxAttempts - retryCount
  {
    var content := respond(retryCount);
    if accept(content) then content
    else if retryCount < MaxAttempts - 1 then Retry(accept, repair, respond, retryCount + 1)
    else repair(content)
  }

  /** How many times the generator is called from attempt retryCount on:
      until a response is accepted or the last attempt is made. */
  function Calls(accept: string -> bool, respond: nat -> string, retryCount: nat): nat
    requires retryCount < MaxAttempts
    decreases MaxAttempts - retryCount
  {
    if accept(respond(retryCount)) || retryCount == MaxAttempts - 1 then 1
    else 1 + Calls(accept, respond, retryCount + 1)
  }

  /** The first accepted response is the result, unchanged. */
  lemma {:induction false} RetryFirstAccepted(accept: string -> bool, repair: string -> string, respond: nat -> string,
                                              from: nat, k: nat)
    requires from <= k < MaxAttempts
    requires accept(respond(k)) && forall j :: from <= j < k ==> !accept(respond(j))
    ensures Retry(accept, repair, respond, from) == respond(k)
    decreases k - from
  {
    if from < k {
      RetryFirstAccepted(accept, repair, respond, from + 1, k);
    }
  }

  /** With no accepted response among the three, the result is the repair of
      the third. */
  lemma {:induction false} RetryNoneAccepted(accept: string -> bool, repair: string -> string, respond: nat -> string,
                                             from: nat)
    requires from < MaxAttempts
    requires forall j :: from <= j < MaxAttempts ==> !accept(respond(j))
    ensures Retry(accept, repair, respond, from) == repair(respond(MaxAttempts - 1))
    decreases MaxAttempts - from
  {
    if from < MaxAttempts - 1 {
      RetryNoneAccepted(accept, repair, respond, from + 1);
    }
  }

  /** The result is accepted whenever the repair of the last response is. */
  lemma {:induction false} RetryAccepted(accept: string -> bool, repair: string -> string, respond: nat -> string,
                                         from: nat)
    requires from < MaxAttempts
    requires accept(repair(respond(MaxAttempts - 1)))
    ensures accept(Retry(accept, repair, respond, from))
    decreases MaxAttempts - from
  {
    if !accept(respond(from)) && from < MaxAttempts - 1 {
      RetryAccepted(accept, repair, respond, from + 1);
    }
  }

  /** At most three calls are made from the first attempt on, every response
      before the last one was rejected, and the last one was accepted or was
      the third. */
  lemma {:induction false} CallsBounded(accept: string -> bool, respond: nat -> string, from: nat)
    requires from < MaxAttempts
    ensures var calls := Calls(accept, respond, from);
      && 1 <= calls <= MaxAttempts - from
      && (forall k :: from <= k < from + calls - 1 ==> !accept(respond(k)))
      && (accept(respond(from + calls - 1)) || from + calls == MaxAttempts)
    decreases MaxAttempts - from
  {
    if !accept(respond(from)) && from < MaxAttempts - 1 {
      CallsBounded(accept, respond, from + 1);
    }
  }

  /** `validate_questions_count(content, n)` as the retry policy's test. */
  function Validator(n: int): string -> bool {
    content => ValidateQuestionsCount(content, n)
  }

  /** `force_correct_categorized_questions` with the distribution for n. */
  function Repairer(n: int, complexity: string): string -> string {
    DistributionFacts(n);
    content => Repair.Repair(content, Distribution(n), complexity)
  }

  /** `generate_categorized_questions(..., num_questions=n, complexity)`. */
  function Generated(n: int, complexity: string, respond: nat -> string): string {
    Retry(Validator(n), Repairer(n, complexity), respond, 0)
  }

  /** `generate_categorized_questions(..., num_questions=n, complexity,
      retry_count)`: call the generator, keep a validated response, retry
      while attempts are left, repair the last response otherwise. Also
      returns how many generator calls were made. */
  method GenerateCategorizedQuestions(n: int, complexity: string, respond: nat -> string, retryCount: nat)
    returns (content: string, calls: nat)
    requires retryCount < MaxAttempts
    ensures content == Retry(Validator(n), Repairer(n, complexity), respond, retryCount)
    ensures calls == Calls(Validator(n), respond, retryCount)
    decreases MaxAttempts - retryCount
  {
    var distribution := CalculateQuestionDistribution(n);
    content := respond(retryCount);
    if ValidateQuestionsCount(content, n) {
      calls := 1;
    } else if retryCount < MaxAttempts - 1 {
      content, calls := GenerateCategorizedQuestions(n, complexity, respond, retryCount + 1);
      calls := calls + 1;
    } else {
      content := ForceCorrectCategorizedQuestions(content, distribution, complexity);
      calls := 1;
    }
  }

  /** For n of at least five, the result has exactly n question markers
      whenever the third response's kept lines carry one marker per question
      line and none per answer line, and the complexity has no colon. */
  lemma GeneratedValidates(n: int, complexity: string, respond: nat -> string)
    requires n >= CategoryCount && ':' !in complexity
    requires RepairCount.KeptWellCounted(respond(MaxAttempts - 1))
    ensures ValidateQuestionsCount(Generated(n, complexity, respond), n)
  {
    var accept, repair := Validator(n), Repairer(n, complexity);
    var last := respond(MaxAttempts - 1);
    DistributionFacts(n);
    assert accept(repair(last)) by {
      RepairCount.RepairValidates(last, Distribution(n), complexity);
    }
    RetryAccepted(accept, repair, respond, 0);
  }

  /** A normalised complexity name has no colon, so it never adds a marker
      to a padding pair. */
  lemma NormalizedNoColon(given: Option<string>)
    ensures ':' !in NormalizeComplexity(given)
  {
    var r := NormalizeComplexity(given);
    assert r == "basic" || r == "intermediate" || r == "advanced";
  }

  /** What `/generate` sends back: the content and the normalised inputs. */
  datatype Reply = Reply(content: string, numQuestions: int, distribution: seq<int>, complexity: string)

  /** The content `/generate` sends back: the generated text, repaired once
      more with the distribution if it still fails the count. */
  function ReplyContent(n: int, complexity: string, respond: nat -> string): string {
    var content := Generated(n, complexity, respond);
    if ValidateQuestionsCount(content, n) then content
    else DistributionFacts(n); Repair.Repair(content, Distribution(n), complexity)
  }

  /** The `/generate` route after its file checks: normalise the complexity,
      clamp the count, plan the distribution, generate, check once more. */
  method HandleGenerate(givenCount: Option<int>, givenComplexity: Option<string>, respond: nat -> string)
    returns (reply: Reply)
    ensures reply.numQuestions == RequestedCount(givenCount)
    ensures reply.complexity == NormalizeComplexity(givenComplexity)
    ensures reply.distribution == Distribution(reply.numQuestions)
    ensures reply.content == ReplyContent(reply.numQuestions, reply.complexity, respond)
  {
    var numQuestions := if givenCount.Some? then givenCount.value else DefaultQuestions;
    var complexity := if givenComplexity.Some? then givenComplexity.value else "intermediate";
    if complexity !in KnownNames() {
      complexity := "intermediate";
    }
    assert complexity == NormalizeComplexity(givenComplexity) by {
      if givenComplexity.None? {
        assert KnownNames()[1] == "intermediate";
      }
    }
    numQuestions := Clamp(numQuestions);
    var distribution := CalculateQuestionDistribution(numQuestions);
    var content, _ := GenerateCategorizedQuestions(numQuestions, complexity, respond, 0);
    if !ValidateQuestionsCount(content, numQuestions) {
      content := ForceCorrectCategorizedQuestions(content, distribution, complexity);
    }
    reply := Reply(content, numQuestions, distribution, complexity);
  }

  /** Every reply of `/generate` carries a distribution of five quotas of at
      least one adding up to its count; and when the third response is well
      counted its content has exactly that many markers, as generated (the
      final check repairs nothing). */
  lemma ReplyFacts(givenCount: Option<int>, givenComplexity: Option<string>, respond: nat -> string)
    ensures var n := RequestedCount(givenCount);
      && |Distribution(n)| == CategoryCount
      && (forall c :: 0 <= c < CategoryCount ==> Distribution(n)[c] >= 1)
      && Sum(Distribution(n)) == n
    ensures var n := RequestedCount(givenCount);
      var complexity := NormalizeComplexity(givenComplexity);
      RepairCount.KeptWellCounted(respond(MaxAttempts - 1)) ==>
        && ReplyContent(n, complexity, respond) == Generated(n, complexity, respond)
        && ValidateQuestionsCount(ReplyContent(n, complexity, respond), n)
  {
    var n := RequestedCount(givenCount);
    var complexity := NormalizeComplexity(givenComplexity);
    ClampedDistribution(givenCount);
    if RepairCount.KeptWellCounted(respond(MaxAttempts - 1)) {
      NormalizedNoColon(givenComplexity);
      GeneratedValidates(n, complexity, respond);
    }
  }

  /** `/distribution`: the clamped count and its distribution. */
  function DistributionReply(givenCount: Option<int>): (r: (seq<int>, int))
    ensures MinQuestions <= r.1 <= MaxQuestions
    ensures |r.0| == CategoryCount && Sum(r.0) == r.1
    ensures forall c :: 0 <= c < CategoryCount ==> r.0[c] >= 1
  {
    var n := RequestedCount(givenCount);
    ClampedDistribution(givenCount);
    (Distribution(n), n)
  }
}
