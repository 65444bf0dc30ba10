/** Rate limit rules: validity, and how well a pattern matches a route. */
module Rules {
  import opened Text

  datatype Algorithm = TokenBucket | SlidingWindow | Other(name: string)

  datatype Rule = Rule(
    id: string,
    tenantId: string,
    pattern: string,
    algorithm: Algorithm,
    enabled: bool,
    limitCount: int,
    windowSeconds: int,
    bucketCapacity: int,
    refillRate: real)

  datatype Invalid =
    | TenantRequired
    | PatternRequired
    | UnknownAlgorithm
    | LimitNotPositive
    | WindowNotPositive
    | CapacityNotPositive
    | RateNotPositive

  /** The all-zero identifier is written as the empty string. */
  const NO_TENANT := ""

  /** None when the rule is valid, otherwise the first complaint. */
  function Validate(r: Rule): (invalid: Option<Invalid>) {
    if r.tenantId == NO_TENANT then Some(TenantRequired)
    else if TrimSpace(r.pattern) == "" then Some(PatternRequired)
    else
      match r.algorithm
      case Other(_) => Some(UnknownAlgorithm)
      case SlidingWindow =>
        if r.limitCount <= 0 then Some(LimitNotPositive)
        else if r.windowSeconds <= 0 then Some(WindowNotPositive)
        else None
      case TokenBucket =>
        if r.bucketCapacity <= 0 then Some(CapacityNotPositive)
        else if r.refillRate <= 0.0 then Some(RateNotPositive)
        else None
  }

  function Limit(r: Rule): (limit: int) {
    if r.algorithm == TokenBucket then r.bucketCapacity else r.limitCount
  }

  // ---- matching

  predicate Starred(pattern: string) {
    pattern != [] && pattern[|pattern| - 1] == '*'
  }

  /** A starred pattern without its last star. */
  function Stem(pattern: string): (stem: string)
    requires Starred(pattern)
  {
    pattern[..|pattern| - 1]
  }

  predicate Matches(pattern: string, route: string) {
    if pattern == "*" then true
    else if Starred(pattern) then Stem(pattern) <= route
    else route == pattern
  }

  datatype MatchKind = MatchNone | MatchDefault | MatchPrefix | MatchExact

  function KindFor(pattern: string, route: string): (kind: MatchKind) {
    if !Matches(pattern, route) then MatchNone
    else if pattern == "*" then MatchDefault
    else if Starred(pattern) then MatchPrefix
    else MatchExact
  }

  /** The server's score. */
  function Specificity(pattern: string, route: string): (score: int) {
    match KindFor(pattern, route)
    case MatchExact => 1000 + |pattern|
    case MatchPrefix => |Stem(pattern)|
    case MatchDefault => 1
    case MatchNone => 0
  }

  /** The score the console computes for one route. */
  function ConsoleSpecificity(pattern: string, route: string): (score: int) {
    if pattern == "*" then 1
    else if Starred(pattern) then if Stem(pattern) <= route then |Stem(pattern)| else 0
    else if route == pattern then 1000 + |pattern| else 0
  }

  /** The score the dashboard sorts by, which looks at no route. */
  function StaticScore(pattern: string): (score: int) {
    if pattern == "*" then 1
    else if Starred(pattern) then |pattern| - 1
    else 1000 + |pattern|
  }

  predicate Eligible(r: Rule, route: string) {
    r.enabled && Specificity(r.pattern, route) > 0
  }

  /** What a pattern means: a text and a star matches what starts with the text,
      anything else only itself; scored by 1000 and its length when exact, by the
      text's length before a star, by one for the star alone. */
  lemma {:induction false} MatchingIs(text: string, route: string)
    ensures Matches(text + "*", route) <==> text <= route
    ensures Specificity(text + "*", route) == if text == "" then 1 else if text <= route then |text| else 0
    ensures text == "" || text[|text| - 1] != '*' ==>
              && (Matches(text, route) <==> route == text)
              && Specificity(text, route) == if route == text then 1000 + |text| else 0
  {
    assert (text + "*")[..|text|] == text;
  }

  /** A valid rule, in its own numbers. */
  lemma {:induction false} ValidIff(r: Rule)
    ensures Validate(r).None? <==>
              && r.tenantId != "" && !AllIn(r.pattern, SPACES)
              && ((r.algorithm == SlidingWindow && 0 < r.limitCount && 0 < r.windowSeconds)
                  || (r.algorithm == TokenBucket && 0 < r.bucketCapacity && 0.0 < r.refillRate))
  {
    hide Trim;
    TrimsToNothing(r.pattern, SPACES);
  }

  /** The complaint about an invalid rule is the first that applies. */
  lemma {:induction false} ComplaintIs(r: Rule, why: Invalid)
    ensures Validate(r) == Some(why) <==>
              match why
              case TenantRequired => r.tenantId == ""
              case PatternRequired => r.tenantId != "" && TrimSpace(r.pattern) == ""
              case UnknownAlgorithm => r.tenantId != "" && TrimSpace(r.pattern) != "" && r.algorithm.Other?
              case LimitNotPositive =>
                r.tenantId != "" && TrimSpace(r.pattern) != "" && r.algorithm == SlidingWindow && r.limitCount <= 0
              case WindowNotPositive =>
                && r.tenantId != "" && TrimSpace(r.pattern) != "" && r.algorithm == SlidingWindow
                && 0 < r.limitCount && r.windowSeconds <= 0
              case CapacityNotPositive =>
                r.tenantId != "" && TrimSpace(r.pattern) != "" && r.algorithm == TokenBucket && r.bucketCapacity <= 0
              case RateNotPositive =>
                && r.tenantId != "" && TrimSpace(r.pattern) != "" && r.algorithm == TokenBucket
                && 0 < r.bucketCapacity && r.refillRate <= 0.0
  {
    hide TrimSpace;
  }

  /** A score is positive exactly when the pattern matches, and then all three
      scores are the same number. */
  lemma {:induction false} ScoresAgree(pattern: string, route: string)
    ensures Specificity(pattern, route) > 0 <==> Matches(pattern, route)
    ensures Specificity(pattern, route) == ConsoleSpecificity(pattern, route)
    ensures Matches(pattern, route) ==> Specificity(pattern, route) == StaticScore(pattern)
  {
  }

  /** Documented precedence: exact over prefix over default, longer prefix over
      shorter. */
  predicate Outranks(p: string, q: string, route: string) {
    match KindFor(p, route)
    case MatchNone => false
    case MatchDefault => KindFor(q, route) == MatchNone
    case MatchPrefix =>
      (match KindFor(q, route)
       case MatchExact => false
       case MatchPrefix => |Stem(p)| > |Stem(q)|
       case _ => true)
    case MatchExact => KindFor(q, route) != MatchExact
  }

  /** A prefix of one character scores the same as the default. */
  predicate OneCharPrefix(pattern: string, route: string) {
    KindFor(pattern, route) == MatchPrefix && |pattern| == 2
  }

  /** The score orders matching patterns as documented, for routes of any
      length, except that it does not separate a one-character prefix from the
      default. */
  lemma {:induction false} ScoreFollowsPrecedence(p: string, q: string, route: string)
    requires Matches(p, route) && Matches(q, route)
    ensures Specificity(p, route) > Specificity(q, route)
       <==> Outranks(p, q, route) && !(OneCharPrefix(p, route) && q == "*")
    ensures p != q && Specificity(p, route) == Specificity(q, route)
       <==> (p == "*" && OneCharPrefix(q, route)) || (q == "*" && OneCharPrefix(p, route))
  {
    if Starred(p) && p != "*" {
      assert p == Stem(p) + "*" && Stem(p) == route[..|Stem(p)|];
    }
    if Starred(q) && q != "*" {
      assert q == Stem(q) + "*" && Stem(q) == route[..|Stem(q)|];
    }
  }
}
