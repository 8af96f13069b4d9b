/** Bounded retries around the language-model provider: who is asked again, how often, and how it is counted. */
module Retry {
  import opened Prelude

  // ---------------------------------------------------------------- failures

  /** Why an attempt failed; texts are lower case. */
  datatype Error =
    | Timeout | RateLimited | Authentication | Configuration | SchemaValidation
    | InvalidResponse(text: string) | Provider(retryable: bool, text: string) | OtherLlm
    | Interpretation(text: string)

  datatype FailureClass =
    | TimeoutClass | TemporaryNetwork | Http5xx | RateLimitedClass | EmptyResponse | InvalidJson | SchemaInvalid
    | Truncated | Auth | Config | PermanentProvider | SemanticNonRetryable | ClientInput | UnknownClass

  function ClassifyText(text: string): FailureClass {
    if "proposal_semantics:" <= text || "semantic_resolution:" <= text || "acceptance_guard:" <= text then SemanticNonRetryable
    else if Contains(text, "schema") then SchemaInvalid
    else if "normalization:" <= text || Contains(text, "json_invalid") || Contains(text, "malformed") then InvalidJson
    else if "provider:" <= text then
      if Contains(text, "timeout") then TimeoutClass
      else if Contains(text, "401") || Contains(text, "403") || Contains(text, "autent") then Auth
      else if Contains(text, "500") || Contains(text, "502") || Contains(text, "503") || Contains(text, "504") then Http5xx
      else if Contains(text, "vazio") || Contains(text, "empty") then EmptyResponse
      else if Contains(text, "json") then InvalidJson
      else TemporaryNetwork
    else UnknownClass
  }

  function Classify(e: Error): FailureClass {
    match e
    case Timeout => TimeoutClass
    case RateLimited => RateLimitedClass
    case Authentication => Auth
    case Configuration => Config
    case SchemaValidation => SchemaInvalid
    case InvalidResponse(text) =>
      if Contains(text, "vazio") || Contains(text, "empty") then EmptyResponse
      else if Contains(text, "truncat") || Contains(text, "length") then Truncated
      else InvalidJson
    case Provider(retryable, text) =>
      if !retryable then PermanentProvider
      else if Contains(text, "rede") || Contains(text, "network") || Contains(text, "connection") then TemporaryNetwork
      else Http5xx
    case OtherLlm => UnknownClass
    case Interpretation(text) => ClassifyText(text)
  }

  const MAX_DELAY := 2.0
  const RETRY_ONCE := "RETRY_ONCE_BOUNDED"

  /** The policy after its bounds are enforced: one or two attempts, a delay of at most two seconds. */
  datatype Policy = Policy(maxAttempts: nat, delay: real, rateLimit: string)

  function MakePolicy(maxAttempts: int, delay: real, rateLimit: string): (p: Policy)
    ensures 1 <= p.maxAttempts <= 2 && 0.0 <= p.delay <= MAX_DELAY
    ensures 1 <= maxAttempts <= 2 ==> p.maxAttempts == maxAttempts
    ensures 0.0 <= delay <= MAX_DELAY ==> p.delay == delay
  {
    var attempts := if maxAttempts < 1 then 1 else if maxAttempts > 2 then 2 else maxAttempts;
    var bounded := if delay < 0.0 then 0.0 else if delay > MAX_DELAY then MAX_DELAY else delay;
    Policy(attempts, bounded, rateLimit)
  }

  predicate Bounded(p: Policy) {
    1 <= p.maxAttempts <= 2 && 0.0 <= p.delay <= MAX_DELAY
  }

  predicate IsRetryable(p: Policy, e: Error, attempt: nat) {
    && attempt < p.maxAttempts
    && match Classify(e)
       case Auth => false
       case Config => false
       case PermanentProvider => false
       case SemanticNonRetryable => false
       case ClientInput => false
       case RateLimitedClass => p.rateLimit == RETRY_ONCE
       case UnknownClass => e == OtherLlm
       case _ => true
  }

  /** What an interpretation error says about the answer behind it, by the texts it opens with or contains. */
  datatype Complaint =
    | AboutMeaning | AboutSchema | AboutJson | AboutNothing | AboutAccess | AboutTime | AboutServer | AboutNetwork | Unclear

  ghost predicate OpensWith(text: string, opening: string) {
    exists rest :: text == opening + rest
  }

  lemma Spotted(text: string, words: string)
    ensures words <= text <==> OpensWith(text, words)
    ensures Contains(text, words) <==> Occurs(text, words)
  {
    if words <= text { assert text == words + text[|words|..]; }
    ContainsExactly(text, words);
  }

  ghost function ComplaintOf(text: string): Complaint {
    if OpensWith(text, "proposal_semantics:") || OpensWith(text, "semantic_resolution:")
       || OpensWith(text, "acceptance_guard:") then AboutMeaning
    else if Occurs(text, "schema") then AboutSchema
    else if OpensWith(text, "normalization:") || Occurs(text, "json_invalid") || Occurs(text, "malformed") then AboutJson
    else if !OpensWith(text, "provider:") then Unclear
    else if Occurs(text, "timeout") then AboutTime
    else if Occurs(text, "401") || Occurs(text, "403") || Occurs(text, "autent") then AboutAccess
    else if Occurs(text, "500") || Occurs(text, "502") || Occurs(text, "503") || Occurs(text, "504") then AboutServer
    else if Occurs(text, "vazio") || Occurs(text, "empty") then AboutNothing
    else if Occurs(text, "json") then AboutJson
    else AboutNetwork
  }

  lemma ComplaintExactly(text: string)
    ensures match ClassifyText(text)
      case SemanticNonRetryable => ComplaintOf(text) == AboutMeaning
      case SchemaInvalid => ComplaintOf(text) == AboutSchema
      case InvalidJson => ComplaintOf(text) == AboutJson
      case EmptyResponse => ComplaintOf(text) == AboutNothing
      case TimeoutClass => ComplaintOf(text) == AboutTime
      case Auth => ComplaintOf(text) == AboutAccess
      case Http5xx => ComplaintOf(text) == AboutServer
      case TemporaryNetwork => ComplaintOf(text) == AboutNetwork
      case UnknownClass => ComplaintOf(text) == Unclear
      case _ => false
  {
    Spotted(text, "proposal_semantics:");
    Spotted(text, "semantic_resolution:");
    Spotted(text, "acceptance_guard:");
    Spotted(text, "schema");
    Spotted(text, "normalization:");
    Spotted(text, "json_invalid");
    Spotted(text, "malformed");
    Spotted(text, "provider:");
    Spotted(text, "timeout");
    Spotted(text, "401");
    Spotted(text, "403");
    Spotted(text, "autent");
    Spotted(text, "500");
    Spotted(text, "502");
    Spotted(text, "503");
    Spotted(text, "504");
    Spotted(text, "vazio");
    Spotted(text, "empty");
    Spotted(text, "json");
  }

  /** The class of a failure that is no rejected interpretation, by what it is and the words of its text. */
  lemma ClassExactly(e: Error)
    requires !e.Interpretation?
    ensures Classify(e) == EmptyResponse <==> e.InvalidResponse? && (Occurs(e.text, "vazio") || Occurs(e.text, "empty"))
    ensures Classify(e) == Truncated <==>
      e.InvalidResponse? && !Occurs(e.text, "vazio") && !Occurs(e.text, "empty")
      && (Occurs(e.text, "truncat") || Occurs(e.text, "length"))
    ensures Classify(e) == InvalidJson <==>
      e.InvalidResponse? && !Occurs(e.text, "vazio") && !Occurs(e.text, "empty")
      && !Occurs(e.text, "truncat") && !Occurs(e.text, "length")
    ensures Classify(e) == TemporaryNetwork <==>
      e.Provider? && e.retryable && (Occurs(e.text, "rede") || Occurs(e.text, "network") || Occurs(e.text, "connection"))
    ensures Classify(e) == Http5xx <==>
      e.Provider? && e.retryable && !Occurs(e.text, "rede") && !Occurs(e.text, "network") && !Occurs(e.text, "connection")
    ensures Classify(e) == PermanentProvider <==> e.Provider? && !e.retryable
    ensures Classify(e) == SchemaInvalid <==> e.SchemaValidation?
    ensures Classify(e) == TimeoutClass <==> e.Timeout?
    ensures Classify(e) == RateLimitedClass <==> e.RateLimited?
    ensures Classify(e) == Auth <==> e.Authentication?
    ensures Classify(e) == Config <==> e.Configuration?
    ensures Classify(e) == UnknownClass <==> e.OtherLlm?
  {
    if e.InvalidResponse? {
      Spotted(e.text, "vazio");
      Spotted(e.text, "empty");
      Spotted(e.text, "truncat");
      Spotted(e.text, "length");
    }
    if e.Provider? {
      Spotted(e.text, "rede");
      Spotted(e.text, "network");
      Spotted(e.text, "connection");
    }
  }

  /**
   * Not worth repeating: refused credentials or configuration, a permanent failure, an answer that was understood and
   * its meaning rejected, and a rate limit unless asked to.
   */
  ghost predicate WorthRepeating(p: Policy, e: Error) {
    match e
    case Timeout => true
    case RateLimited => p.rateLimit == RETRY_ONCE
    case Authentication => false
    case Configuration => false
    case SchemaValidation => true
    case InvalidResponse(_) => true
    case Provider(retryable, _) => retryable
    case OtherLlm => true
    case Interpretation(text) => ComplaintOf(text) !in {AboutMeaning, AboutAccess, Unclear}
  }

  lemma RetryableExactly(p: Policy, e: Error, attempt: nat)
    ensures IsRetryable(p, e, attempt) <==> attempt < p.maxAttempts && WorthRepeating(p, e)
  {
    if e.Interpretation? { ComplaintExactly(e.text); }
  }

  // ---------------------------------------------------------------- the provider

  datatype Post =
    | Answered(content: string) | PostTimeout | PostRateLimit | PostProvider(retryable: bool, text: string)
    | PostAuthentication | PostInvalid(text: string)

  /** A post worth repeating inside one provider call. */
  predicate Transient(p: Post) {
    p.PostTimeout? || p.PostRateLimit? || (p.PostProvider? && p.retryable)
  }

  /** The number of the post a call settles on: the first that is not transient, or the last allowed. */
  function Settles(posts: nat -> Post, maxTries: nat, attempt: nat): (k: nat)
    ensures attempt <= maxTries ==> attempt <= k <= maxTries
    decreases maxTries - attempt
  {
    if attempt >= maxTries || !Transient(posts(attempt)) then attempt else Settles(posts, maxTries, attempt + 1)
  }

  /** A call settles on its k-th post exactly when all earlier ones are transient and it ends the call. */
  lemma {:induction false} SettlesExactly(posts: nat -> Post, maxTries: nat, from: nat, k: nat)
    requires from <= k <= maxTries
    ensures Settles(posts, maxTries, from) == k <==>
      (forall j :: from <= j < k ==> Transient(posts(j))) && (k == maxTries || !Transient(posts(k)))
    decreases k - from
  {
    if from < k { SettlesExactly(posts, maxTries, from + 1, k); }
  }

  function Pow2(n: nat): nat {
    if n == 0 then 1 else 2 * Pow2(n - 1)
  }

  class DeepSeekProvider {
    const maxRetries: nat
    const backoff: real
    var posts: nat
    var slept: real

    constructor (maxRetries: nat, backoff: real)
      ensures this.maxRetries == maxRetries && this.backoff == backoff && posts == 0 && slept == 0.0
    {
      this.maxRetries := maxRetries;
      this.backoff := backoff;
      posts := 0;
      slept := 0.0;
    }

    /** Posts until an answer or a lasting failure, doubling the wait between posts. */
    method GenerateStructured(script: nat -> Post) returns (last: Post)
      modifies this
      ensures var k := Settles(script, maxRetries + 1, 1);
        && last == script(k)
        && 1 <= k <= maxRetries + 1
        && posts == old(posts) + k
        && slept == old(slept) + backoff * (Pow2(k - 1) - 1) as real
    {
      var attempts := 0;
      var maxTries := maxRetries + 1;
      while attempts < maxTries
        invariant 0 <= attempts < maxTries
        invariant Settles(script, maxTries, 1) == Settles(script, maxTries, attempts + 1)
        invariant posts == old(posts) + attempts
        invariant slept == old(slept) + backoff * (Pow2(attempts) - 1) as real
        decreases maxTries - attempts
      {
        attempts := attempts + 1;
        last := script(attempts);
        posts := posts + 1;
        if !Transient(last) || attempts >= maxTries {
          return;
        }
        slept := slept + backoff * Pow2(attempts - 1) as real;
        WaitsAddUp(backoff, attempts);
      }
      assert false;
    }
  }

  lemma WaitsAddUp(backoff: real, attempts: nat)
    requires attempts > 0
    ensures backoff * (Pow2(attempts - 1) - 1) as real + backoff * Pow2(attempts - 1) as real
         == backoff * (Pow2(attempts) - 1) as real
  {
    var p := Pow2(attempts - 1) as real;
    assert (Pow2(attempts) - 1) as real == p - 1.0 + p;
    assert (Pow2(attempts - 1) - 1) as real == p - 1.0;
  }

  // ---------------------------------------------------------------- the interpreter

  /** What the parser makes of an answer. */
  datatype Parsed = Accepted | BrokenJson | BrokenSchema | Uninterpretable(text: string)

  /** How one attempt of the interpreter ends. */
  datatype Outcome = Success | ProviderFailed(error: Error) | NotJson | NotSchema | NotInterpretable(error: Error)

  function Settled(post: Post, parse: string -> Parsed): Outcome {
    match post
    case PostTimeout => ProviderFailed(Timeout)
    case PostRateLimit => ProviderFailed(RateLimited)
    case PostProvider(retryable, text) => ProviderFailed(Provider(retryable, text))
    case PostAuthentication => ProviderFailed(Authentication)
    case PostInvalid(text) => ProviderFailed(InvalidResponse(text))
    case Answered(content) =>
      match parse(content)
      case Accepted => Success
      case BrokenJson => NotJson
      case BrokenSchema => NotSchema
      case Uninterpretable(text) => NotInterpretable(Interpretation(text))
  }

  function ErrorOf(o: Outcome): Error
    requires o != Success
  {
    match o
    case ProviderFailed(e) => e
    case NotInterpretable(e) => e
    case _ => SchemaValidation
  }

  datatype Counters = Counters(
    requests: nat, providerAttempts: nat, retryTriggered: nat, retrySucceeded: nat, retryExhausted: nat,
    finalFailures: nat, firstAttemptSuccess: nat, recovered: nat,
    invalidJson: nat, schemaInvalid: nat, timeouts: nat, temporary: nat)

  const ZERO := Counters(0, 0, 0, 0, 0, 0, 0, 0, 0, 0, 0, 0)

  function Classed(c: Counters): nat {
    c.invalidJson + c.schemaInvalid + c.timeouts + c.temporary
  }

  /** Each failed attempt is noted under at most one class. */
  function Noted(c: Counters, o: Outcome): (r: Counters)
    requires o != Success
    ensures r.(invalidJson := 0, schemaInvalid := 0, timeouts := 0, temporary := 0)
         == c.(invalidJson := 0, schemaInvalid := 0, timeouts := 0, temporary := 0)
    ensures Classed(c) <= Classed(r) <= Classed(c) + 1
  {
    if o == NotJson then c.(invalidJson := c.invalidJson + 1)
    else if o == NotSchema then c.(schemaInvalid := c.schemaInvalid + 1)
    else
      match Classify(ErrorOf(o))
      case TimeoutClass => c.(timeouts := c.timeouts + 1)
      case Http5xx => c.(temporary := c.temporary + 1)
      case TemporaryNetwork => c.(temporary := c.temporary + 1)
      case RateLimitedClass => c.(temporary := c.temporary + 1)
      case InvalidJson => c.(invalidJson := c.invalidJson + 1)
      case EmptyResponse => c.(invalidJson := c.invalidJson + 1)
      case Truncated => c.(invalidJson := c.invalidJson + 1)
      case SchemaInvalid => c.(schemaInvalid := c.schemaInvalid + 1)
      case _ => c
  }

  /** The class a failed attempt is counted under, if any. */
  datatype Column = InvalidJsonColumn | SchemaColumn | TimeoutColumn | TemporaryColumn | NoColumn

  ghost function ColumnOf(o: Outcome): Column {
    match o
    case Success => NoColumn
    case NotJson => InvalidJsonColumn
    case NotSchema => SchemaColumn
    case ProviderFailed(e) => ColumnOfError(e)
    case NotInterpretable(e) => ColumnOfError(e)
  }

  ghost function ColumnOfError(e: Error): Column {
    match e
    case Timeout => TimeoutColumn
    case RateLimited => TemporaryColumn
    case SchemaValidation => SchemaColumn
    case InvalidResponse(_) => InvalidJsonColumn
    case Provider(retryable, _) => if retryable then TemporaryColumn else NoColumn
    case Interpretation(text) =>
      (match ComplaintOf(text)
       case AboutSchema => SchemaColumn
       case AboutJson => InvalidJsonColumn
       case AboutNothing => InvalidJsonColumn
       case AboutTime => TimeoutColumn
       case AboutServer => TemporaryColumn
       case AboutNetwork => TemporaryColumn
       case _ => NoColumn)
    case _ => NoColumn
  }

  lemma NotedExactly(c: Counters, o: Outcome)
    requires o != Success
    ensures Noted(c, o) == c.(
      invalidJson := c.invalidJson + (if ColumnOf(o) == InvalidJsonColumn then 1 else 0),
      schemaInvalid := c.schemaInvalid + (if ColumnOf(o) == SchemaColumn then 1 else 0),
      timeouts := c.timeouts + (if ColumnOf(o) == TimeoutColumn then 1 else 0),
      temporary := c.temporary + (if ColumnOf(o) == TemporaryColumn then 1 else 0))
  {
    if o.ProviderFailed? && o.error.Interpretation? { ComplaintExactly(o.error.text); }
    if o.NotInterpretable? && o.error.Interpretation? { ComplaintExactly(o.error.text); }
  }

  /** The counter of the post a provider call ends with, by the post and by how its answer reads. */
  ghost function ColumnOfPost(post: Post, parse: string -> Parsed): Column {
    match post
    case PostTimeout => TimeoutColumn
    case PostRateLimit => TemporaryColumn
    case PostProvider(retryable, _) => if retryable then TemporaryColumn else NoColumn
    case PostAuthentication => NoColumn
    case PostInvalid(_) => InvalidJsonColumn
    case Answered(content) =>
      (match parse(content)
       case Accepted => NoColumn
       case BrokenJson => InvalidJsonColumn
       case BrokenSchema => SchemaColumn
       case Uninterpretable(text) => ColumnOfError(Interpretation(text)))
  }

  /** Only an accepted answer succeeds; any other end of a call raises the counter of its post, and no other. */
  lemma PostCounts(c: Counters, post: Post, parse: string -> Parsed)
    ensures Settled(post, parse) == Success <==> post.Answered? && parse(post.content) == Accepted
    ensures var o, column := Settled(post, parse), ColumnOfPost(post, parse);
      o != Success ==> Noted(c, o) == c.(
        invalidJson := c.invalidJson + (if column == InvalidJsonColumn then 1 else 0),
        schemaInvalid := c.schemaInvalid + (if column == SchemaColumn then 1 else 0),
        timeouts := c.timeouts + (if column == TimeoutColumn then 1 else 0),
        temporary := c.temporary + (if column == TemporaryColumn then 1 else 0))
  {
    var o := Settled(post, parse);
    if o != Success { NotedExactly(c, o); }
  }

  /** The counters after attempts `attempt`, `attempt + 1`, … of one request, and whether it was accepted. */
  function Attempts(c: Counters, p: Policy, outcomes: nat -> Outcome, attempt: nat): (Counters, bool)
    decreases p.maxAttempts - attempt
  {
    var tried := c.(providerAttempts := c.providerAttempts + 1);
    var o := outcomes(attempt);
    if o == Success then
      if attempt == 1 then (tried.(firstAttemptSuccess := tried.firstAttemptSuccess + 1), true)
      else (tried.(retrySucceeded := tried.retrySucceeded + 1, recovered := tried.recovered + 1), true)
    else
      var noted := Noted(tried, o);
      if IsRetryable(p, ErrorOf(o), attempt) then
        Attempts(noted.(retryTriggered := noted.retryTriggered + 1), p, outcomes, attempt + 1)
      else
        var exhausted := if attempt > 1 then noted.(retryExhausted := noted.retryExhausted + 1) else noted;
        (exhausted.(finalFailures := exhausted.finalFailures + 1), false)
  }

  function AfterRequest(c: Counters, p: Policy, outcomes: nat -> Outcome): (Counters, bool) {
    Attempts(c.(requests := c.requests + 1), p, outcomes, 1)
  }

  function OutcomesOf(maxRetries: nat, scripts: nat -> (nat -> Post), parse: string -> Parsed): nat -> Outcome {
    (attempt: nat) => Settled(scripts(attempt)(Settles(scripts(attempt), maxRetries + 1, 1)), parse)
  }

  class DeepSeekInterpreter {
    const provider: DeepSeekProvider
    const policy: Policy
    var metrics: Counters
    var slept: real

    constructor (provider: DeepSeekProvider, policy: Policy)
      ensures this.provider == provider && this.policy == policy && metrics == ZERO && slept == 0.0
    {
      this.provider := provider;
      this.policy := policy;
      metrics := ZERO;
      slept := 0.0;
    }

    /** One attempt: a whole provider call, then parsing; its end decides the counters and what comes next. */
    method Attempt(attempt: nat, script: nat -> Post, parse: string -> Parsed, ghost outcomes: nat -> Outcome)
      returns (verdict: Verdict)
      requires Bounded(policy)
      requires outcomes(attempt) == Settled(script(Settles(script, provider.maxRetries + 1, 1)), parse)
      modifies this, provider
      ensures Attempts(old(metrics), policy, outcomes, attempt) ==
        match verdict
        case Accept => (metrics, true)
        case Fail => (metrics, false)
        case Again => Attempts(metrics, policy, outcomes, attempt + 1)
      ensures verdict == Again ==> attempt < policy.maxAttempts
      ensures 1 <= provider.posts - old(provider.posts) <= provider.maxRetries + 1
      ensures slept == old(slept) + if verdict == Again then policy.delay else 0.0
    {
      var post := provider.GenerateStructured(script);
      verdict := Conclude(attempt, Settled(post, parse), outcomes);
    }

    /** Counts how the attempt ended, and sleeps before another. */
    method Conclude(attempt: nat, o: Outcome, ghost outcomes: nat -> Outcome) returns (verdict: Verdict)
      requires Bounded(policy) && o == outcomes(attempt)
      modifies this
      ensures Attempts(old(metrics), policy, outcomes, attempt) ==
        match verdict
        case Accept => (metrics, true)
        case Fail => (metrics, false)
        case Again => Attempts(metrics, policy, outcomes, attempt + 1)
      ensures verdict == Again ==> attempt < policy.maxAttempts
      ensures slept == old(slept) + if verdict == Again then policy.delay else 0.0
    {
      metrics := metrics.(providerAttempts := metrics.providerAttempts + 1);
      if o == Success {
        metrics :=
          if attempt == 1 then metrics.(firstAttemptSuccess := metrics.firstAttemptSuccess + 1)
          else metrics.(retrySucceeded := metrics.retrySucceeded + 1, recovered := metrics.recovered + 1);
        return Accept;
      }
      metrics := Noted(metrics, o);
      if IsRetryable(policy, ErrorOf(o), attempt) {
        metrics := metrics.(retryTriggered := metrics.retryTriggered + 1);
        slept := slept + policy.delay;
        return Again;
      }
      if attempt > 1 { metrics := metrics.(retryExhausted := metrics.retryExhausted + 1); }
      metrics := metrics.(finalFailures := metrics.finalFailures + 1);
      verdict := Fail;
    }

    /** One request: a first attempt and at most one retry. The loop never runs out: the last attempt returns. */
    method Interpret(scripts: nat -> (nat -> Post), parse: string -> Parsed) returns (accepted: bool)
      requires Bounded(policy)
      modifies this, provider
      ensures (metrics, accepted) == AfterRequest(old(metrics), policy, OutcomesOf(provider.maxRetries, scripts, parse))
      ensures 1 <= provider.posts - old(provider.posts) <= 2 * (provider.maxRetries + 1)
      ensures old(slept) <= slept <= old(slept) + MAX_DELAY
    {
      ghost var outcomes := OutcomesOf(provider.maxRetries, scripts, parse);
      metrics := metrics.(requests := metrics.requests + 1);
      var attempt := 1;
      while attempt <= policy.maxAttempts
        invariant 1 <= attempt <= policy.maxAttempts
        invariant AfterRequest(old(metrics), policy, outcomes) == Attempts(metrics, policy, outcomes, attempt)
        invariant provider.posts - old(provider.posts) <= (attempt - 1) * (provider.maxRetries + 1)
        invariant provider.posts >= old(provider.posts)
        invariant slept == old(slept) + if attempt == 1 then 0.0 else policy.delay
        decreases policy.maxAttempts - attempt
      {
        var verdict := Attempt(attempt, scripts(attempt), parse, outcomes);
        if verdict != Again { return verdict == Accept; }
        attempt := attempt + 1;
      }
      assert false;
    }
  }

  datatype Verdict = Accept | Fail | Again

  // ---------------------------------------------------------------- accounting

  ghost predicate Balanced(c: Counters) {
    && c.requests == c.firstAttemptSuccess + c.retrySucceeded + c.finalFailures
    && c.providerAttempts == c.requests + c.retryTriggered
    && c.retryTriggered == c.retrySucceeded + c.retryExhausted
    && c.recovered == c.retrySucceeded
    && Classed(c) <= c.finalFailures + c.retryTriggered
  }

  /** What the attempts from the `attempt`-th on add to the counters. */
  lemma {:induction false} AttemptsAdd(c: Counters, p: Policy, outcomes: nat -> Outcome, attempt: nat)
    requires Bounded(p) && 1 <= attempt <= p.maxAttempts
    ensures var (r, accepted) := Attempts(c, p, outcomes, attempt);
      var retried := r.retryTriggered - c.retryTriggered;
      && r.requests == c.requests
      && 0 <= retried <= p.maxAttempts - attempt
      && r.providerAttempts == c.providerAttempts + 1 + retried
      && r.firstAttemptSuccess == c.firstAttemptSuccess + (if accepted && retried == 0 && attempt == 1 then 1 else 0)
      && r.retrySucceeded == c.retrySucceeded + (if accepted && (retried > 0 || attempt > 1) then 1 else 0)
      && r.retryExhausted == c.retryExhausted + (if !accepted && (retried > 0 || attempt > 1) then 1 else 0)
      && r.finalFailures == c.finalFailures + (if accepted then 0 else 1)
      && r.recovered - c.recovered == r.retrySucceeded - c.retrySucceeded
      && Classed(r) <= Classed(c) + retried + (if accepted then 0 else 1)
    decreases p.maxAttempts - attempt
  {
    var tried := c.(providerAttempts := c.providerAttempts + 1);
    var o := outcomes(attempt);
    if o != Success && IsRetryable(p, ErrorOf(o), attempt) {
      var noted := Noted(tried, o);
      AttemptsAdd(noted.(retryTriggered := noted.retryTriggered + 1), p, outcomes, attempt + 1);
    }
  }

  /** A request keeps the books balanced, with at most one retry of its own. */
  lemma {:induction false} RequestBalances(c: Counters, p: Policy, outcomes: nat -> Outcome)
    requires Balanced(c) && Bounded(p)
    ensures var r := AfterRequest(c, p, outcomes).0;
      && Balanced(r) && r.requests == c.requests + 1
      && c.providerAttempts + 1 <= r.providerAttempts <= c.providerAttempts + 2
  {
    AttemptsAdd(c.(requests := c.requests + 1), p, outcomes, 1);
  }

  function Requests(p: Policy, all: seq<nat -> Outcome>): Counters {
    if all == [] then ZERO else AfterRequest(Requests(p, all[..|all| - 1]), p, all[|all| - 1]).0
  }

  /**
   * After any requests: every one ended in a first-attempt success, a retry success or a failure; every provider
   * attempt is a request or a retry; and every retry succeeded or exhausted the policy.
   */
  lemma {:induction false} BooksBalance(p: Policy, all: seq<nat -> Outcome>)
    requires Bounded(p)
    ensures Balanced(Requests(p, all)) && Requests(p, all).requests == |all|
  {
    if all != [] {
      BooksBalance(p, all[..|all| - 1]);
      RequestBalances(Requests(p, all[..|all| - 1]), p, all[|all| - 1]);
    }
  }

  /** A request is accepted exactly when its first attempt is, or that one may be retried and the second is. */
  lemma {:induction false} AcceptedExactly(c: Counters, p: Policy, outcomes: nat -> Outcome)
    requires Bounded(p)
    ensures AfterRequest(c, p, outcomes).1 <==>
      (outcomes(1) == Success || (IsRetryable(p, ErrorOf(outcomes(1)), 1) && outcomes(2) == Success))
  {
    var tried := c.(requests := c.requests + 1, providerAttempts := c.providerAttempts + 1);
    var o := outcomes(1);
    if o != Success && IsRetryable(p, ErrorOf(o), 1) {
      var noted := Noted(tried, o);
      SecondAttempt(noted.(retryTriggered := noted.retryTriggered + 1), p, outcomes);
    }
  }

  lemma SecondAttempt(c: Counters, p: Policy, outcomes: nat -> Outcome)
    requires p.maxAttempts == 2
    ensures Attempts(c, p, outcomes, 2).1 <==> outcomes(2) == Success
  {
  }

  /** Attempt `n` of a request makes `k` posts and the last of them is an answer the parser accepts. */
  ghost predicate Delivers(maxRetries: nat, scripts: nat -> (nat -> Post), parse: string -> Parsed, n: nat, k: nat) {
    && 1 <= k <= maxRetries + 1
    && (forall j :: 1 <= j < k ==> Transient(scripts(n)(j)))
    && scripts(n)(k).Answered? && parse(scripts(n)(k).content) == Accepted
  }

  lemma {:induction false} DeliversExactly(
    maxRetries: nat, scripts: nat -> (nat -> Post), parse: string -> Parsed, n: nat)
    ensures OutcomesOf(maxRetries, scripts, parse)(n) == Success <==> exists k: nat :: Delivers(maxRetries, scripts, parse, n, k)
  {
    var k := Settles(scripts(n), maxRetries + 1, 1);
    SettlesExactly(scripts(n), maxRetries + 1, 1, k);
    if OutcomesOf(maxRetries, scripts, parse)(n) == Success { assert Delivers(maxRetries, scripts, parse, n, k); }
    if j: nat :| Delivers(maxRetries, scripts, parse, n, j) { SettlesExactly(scripts(n), maxRetries + 1, 1, j); }
  }

  /**
   * Through both layers of retries: a request is accepted exactly when its first attempt reaches an acceptable answer
   * after transient posts only, or that attempt fails in a way that may be retried and the second one does.
   */
  lemma {:induction false} DeliveredExactly(
    c: Counters, p: Policy, maxRetries: nat, scripts: nat -> (nat -> Post), parse: string -> Parsed)
    requires Bounded(p)
    ensures var outcomes := OutcomesOf(maxRetries, scripts, parse);
      AfterRequest(c, p, outcomes).1 <==>
        || (exists k: nat :: Delivers(maxRetries, scripts, parse, 1, k))
        || (&& outcomes(1) != Success && IsRetryable(p, ErrorOf(outcomes(1)), 1)
            && exists k: nat :: Delivers(maxRetries, scripts, parse, 2, k))
  {
    AcceptedExactly(c, p, OutcomesOf(maxRetries, scripts, parse));
    DeliversExactly(maxRetries, scripts, parse, 1);
    DeliversExactly(maxRetries, scripts, parse, 2);
  }

  /** A reply that is no JSON or breaks the schema, found out by the provider or by the parser. */
  predicate Unusable(post: Post, parse: string -> Parsed) {
    post.PostInvalid? || (post.Answered? && parse(post.content) in {BrokenJson, BrokenSchema})
  }

  /**
   * When every attempt opens with an unusable reply, the provider never posts again by itself and the interpreter
   * makes every attempt it is allowed before it gives up.
   */
  lemma {:induction false} UnusableRepliesUseEveryAttempt(
    c: Counters, p: Policy, maxRetries: nat, scripts: nat -> (nat -> Post), parse: string -> Parsed)
    requires Bounded(p)
    requires forall n: nat :: Unusable(scripts(n)(1), parse)
    ensures forall n: nat :: Settles(scripts(n), maxRetries + 1, 1) == 1
    ensures var (r, accepted) := AfterRequest(c, p, OutcomesOf(maxRetries, scripts, parse));
      && !accepted && r.providerAttempts == c.providerAttempts + p.maxAttempts
      && r.finalFailures == c.finalFailures + 1
  {
    forall n: nat ensures Settles(scripts(n), maxRetries + 1, 1) == 1 {
      assert Unusable(scripts(n)(1), parse);
    }
    var tried := c.(requests := c.requests + 1);
    UnusableFrom(tried, p, maxRetries, scripts, parse, 1);
  }

  lemma {:induction false} UnusableFrom(
    c: Counters, p: Policy, maxRetries: nat, scripts: nat -> (nat -> Post), parse: string -> Parsed, n: nat)
    requires Bounded(p) && 1 <= n <= p.maxAttempts
    requires forall n: nat :: Unusable(scripts(n)(1), parse)
    ensures var (r, accepted) := Attempts(c, p, OutcomesOf(maxRetries, scripts, parse), n);
      && !accepted && r.providerAttempts == c.providerAttempts + p.maxAttempts - n + 1
      && r.finalFailures == c.finalFailures + 1
    decreases p.maxAttempts - n
  {
    var outcomes := OutcomesOf(maxRetries, scripts, parse);
    assert Unusable(scripts(n)(1), parse);
    var o := outcomes(n);
    assert o == Settled(scripts(n)(1), parse);
    if n < p.maxAttempts {
      var noted := Noted(c.(providerAttempts := c.providerAttempts + 1), o);
      UnusableFrom(noted.(retryTriggered := noted.retryTriggered + 1), p, maxRetries, scripts, parse, n + 1);
    }
  }

  /** Refused credentials end a request with its first post. */
  lemma CredentialsAreNotRepeated(
    c: Counters, p: Policy, maxRetries: nat, scripts: nat -> (nat -> Post), parse: string -> Parsed)
    requires Bounded(p) && scripts(1)(1) == PostAuthentication
    ensures Settles(scripts(1), maxRetries + 1, 1) == 1
    ensures var (r, accepted) := AfterRequest(c, p, OutcomesOf(maxRetries, scripts, parse));
      !accepted && r.providerAttempts == c.providerAttempts + 1
  {
  }
}
