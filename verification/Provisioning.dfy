/** The rule loop of project creation: normalise in place, refuse duplicates
    and invalid rules. */
module Provisioning {
  import opened Text
  import opened Rules
  import opened Resolver

  const MAX_RULES_PER_PROJECT := 50

  datatype Outcome =
    | Accepted
    | NoRules
    | TooManyRules
    | DuplicatePattern(at: nat)
    | InvalidRule(at: nat, why: Invalid)

  /** A rule as it is stored: owned by the new tenant, pattern trimmed. */
  function Normal(r: Rule, tenantId: string): (normal: Rule) {
    r.(tenantId := tenantId, pattern := TrimSpace(r.pattern))
  }

  function NormalAll(rules: seq<Rule>, tenantId: string): (n: seq<Rule>)
    ensures |n| == |rules| && forall i :: 0 <= i < |n| ==> n[i] == Normal(rules[i], tenantId)
  {
    seq(|rules|, i requires 0 <= i < |rules| => Normal(rules[i], tenantId))
  }

  predicate Repeats(rules: seq<Rule>, i: nat)
    requires i < |rules|
  {
    exists j :: 0 <= j < i && rules[j].pattern == rules[i].pattern
  }

  /** The loop stops at `i` with this complaint about the normalised rules. */
  ghost predicate FailsAt(normal: seq<Rule>, i: nat, outcome: Outcome)
    requires i < |normal|
  {
    if Repeats(normal, i) then outcome == DuplicatePattern(i)
    else Validate(normal[i]).Some? && outcome == InvalidRule(i, Validate(normal[i]).value)
  }

  ghost predicate Fine(normal: seq<Rule>, i: nat)
    requires i < |normal|
  {
    !Repeats(normal, i) && Validate(normal[i]).None?
  }

  /** What the loop may report about the rules it was given: the first
      offender, or that there is none. */
  ghost predicate Verdict(rules: seq<Rule>, tenantId: string, outcome: Outcome) {
    var normal := NormalAll(rules, tenantId);
    match outcome
    case NoRules => rules == []
    case TooManyRules => MAX_RULES_PER_PROJECT < |rules|
    case Accepted => 0 < |rules| <= MAX_RULES_PER_PROJECT && forall j :: 0 <= j < |normal| ==> Fine(normal, j)
    case _ =>
      && 0 < |rules| <= MAX_RULES_PER_PROJECT
      && outcome.at < |rules|
      && FailsAt(normal, outcome.at, outcome)
      && forall j :: 0 <= j < outcome.at ==> Fine(normal, j)
  }

  /** Only the rules up to the offender have been rewritten. */
  function Rewritten(rules: seq<Rule>, tenantId: string, outcome: Outcome): (rewritten: seq<Rule>) {
    match outcome
    case NoRules => rules
    case TooManyRules => rules
    case Accepted => NormalAll(rules, tenantId)
    case _ =>
      if outcome.at < |rules| then NormalAll(rules, tenantId)[..outcome.at + 1] + rules[outcome.at + 1..]
      else rules
  }

  /** `seen` holds the patterns of the first `i` rules. */
  ghost predicate SeenIs(seen: set<string>, normal: seq<Rule>, i: nat)
    requires i <= |normal|
  {
    forall p :: p in seen <==> exists j :: 0 <= j < i && normal[j].pattern == p
  }

  lemma {:induction false} SeenTells(seen: set<string>, normal: seq<Rule>, i: nat)
    requires i < |normal| && SeenIs(seen, normal, i)
    ensures normal[i].pattern in seen <==> Repeats(normal, i)
    ensures SeenIs(seen + {normal[i].pattern}, normal, i + 1)
  {
  }

  lemma {:induction false} StepOutcome(normal: seq<Rule>, i: nat)
    requires i < |normal|
    ensures Repeats(normal, i) ==> FailsAt(normal, i, DuplicatePattern(i))
    ensures !Repeats(normal, i) && Validate(normal[i]).Some? ==>
              FailsAt(normal, i, InvalidRule(i, Validate(normal[i]).value))
    ensures !Repeats(normal, i) && Validate(normal[i]).None? ==> Fine(normal, i)
  {
  }

  /** The first `i` rules have been rewritten, the rest not. */
  ghost predicate Partly(now: seq<Rule>, before: seq<Rule>, tenantId: string, i: nat) {
    && |now| == |before|
    && (forall j :: 0 <= j < |now| && j < i ==> now[j] == Normal(before[j], tenantId))
    && (forall j :: i <= j < |now| ==> now[j] == before[j])
  }

  lemma {:induction false} PartlyStep(now: seq<Rule>, before: seq<Rule>, tenantId: string, i: nat)
    requires Partly(now, before, tenantId, i) && i < |now|
    ensures |now| == |before|
    ensures Normal(now[i], tenantId) == NormalAll(before, tenantId)[i]
    ensures Partly(now[i := Normal(now[i], tenantId)], before, tenantId, i + 1)
  {
    hide Normal;
  }

  /** The loop's two kinds of end. */
  lemma {:induction false} Stops(now: seq<Rule>, before: seq<Rule>, tenantId: string, i: nat, outcome: Outcome)
    requires i < |before| <= MAX_RULES_PER_PROJECT
    requires outcome == DuplicatePattern(i) || (outcome.InvalidRule? && outcome.at == i)
    requires FailsAt(NormalAll(before, tenantId), i, outcome)
    requires forall j :: 0 <= j < i ==> Fine(NormalAll(before, tenantId), j)
    requires Partly(now, before, tenantId, i + 1)
    ensures Verdict(before, tenantId, outcome) && now == Rewritten(before, tenantId, outcome)
  {
    hide FailsAt, Fine, Normal;
  }

  lemma {:induction false} Completes(now: seq<Rule>, before: seq<Rule>, tenantId: string)
    requires 0 < |before| <= MAX_RULES_PER_PROJECT
    requires forall j :: 0 <= j < |before| ==> Fine(NormalAll(before, tenantId), j)
    requires Partly(now, before, tenantId, |before|)
    ensures Verdict(before, tenantId, Accepted) && now == Rewritten(before, tenantId, Accepted)
  {
    hide Fine, Normal;
  }

  lemma {:induction false} PartlyStarts(before: seq<Rule>, tenantId: string)
    ensures Partly(before, before, tenantId, 0)
  {
  }

  /** Normalises rule `i` in place. */
  method Rewrite(rules: array<Rule>, i: nat, tenantId: string)
    requires i < rules.Length
    modifies rules
    ensures rules[..] == old(rules[..])[i := Normal(old(rules[i]), tenantId)]
  {
    hide TrimSpace;
    rules[i] := rules[i].(tenantId := tenantId);
    rules[i] := rules[i].(pattern := TrimSpace(rules[i].pattern));
  }

  method CheckRules(rules: array<Rule>, tenantId: string) returns (outcome: Outcome)
    modifies rules
    ensures Verdict(old(rules[..]), tenantId, outcome)
    ensures rules[..] == Rewritten(old(rules[..]), tenantId, outcome)
  {
    hide TrimSpace, Validate, Fine, FailsAt, Repeats, SeenIs, Normal, Partly;
    ghost var before := rules[..];
    if rules.Length == 0 {
      return NoRules;
    }
    if rules.Length > MAX_RULES_PER_PROJECT {
      return TooManyRules;
    }
    hide Verdict, Rewritten;
    ghost var normal := NormalAll(before, tenantId);
    var seen: set<string> := {};
    NothingSeen(normal);
    PartlyStarts(before, tenantId);
    for i := 0 to rules.Length
      invariant Partly(rules[..], before, tenantId, i)
      invariant forall j :: 0 <= j < i ==> Fine(normal, j)
      invariant SeenIs(seen, normal, i)
    {
      PartlyStep(rules[..], before, tenantId, i);
      Rewrite(rules, i, tenantId);
      assert rules[i] == rules[..][i] == normal[i];
      SeenTells(seen, normal, i);
      StepOutcome(normal, i);
      if rules[i].pattern in seen {
        Stops(rules[..], before, tenantId, i, DuplicatePattern(i));
        return DuplicatePattern(i);
      }
      seen := seen + {rules[i].pattern};
      var complaint := Validate(rules[i]);
      if complaint.Some? {
        Stops(rules[..], before, tenantId, i, InvalidRule(i, complaint.value));
        return InvalidRule(i, complaint.value);
      }
    }
    Completes(rules[..], before, tenantId);
    return Accepted;
  }

  lemma {:induction false} NothingSeen(normal: seq<Rule>)
    ensures SeenIs({}, normal, 0)
  {
  }

  /** Rules are accepted if and only if there are 1 to 50 of them, all valid,
      with pairwise distinct patterns once trimmed; no two verdicts fit the
      same rules. */
  lemma {:induction false} AcceptedIff(rules: seq<Rule>, tenantId: string, outcome: Outcome)
    requires Verdict(rules, tenantId, outcome)
    ensures var normal := NormalAll(rules, tenantId);
            outcome.Accepted? <==>
              && 0 < |rules| <= MAX_RULES_PER_PROJECT
              && DistinctPatterns(normal)
              && forall r :: r in normal ==> Validate(r).None?
    ensures forall other :: Verdict(rules, tenantId, other) ==> other == outcome
  {
    hide TrimSpace, Validate;
    var normal := NormalAll(rules, tenantId);
    if outcome.Accepted? {
      forall r | r in normal ensures Validate(r).None? {
        var i :| 0 <= i < |normal| && normal[i] == r;
        assert Fine(normal, i);
      }
      forall i, j | 0 <= i < j < |normal| ensures normal[i].pattern != normal[j].pattern {
        assert Fine(normal, j);
      }
    } else if outcome.DuplicatePattern? || outcome.InvalidRule? {
      assert normal[outcome.at] in normal;
    }
    forall other | Verdict(rules, tenantId, other) ensures other == outcome {
      OneVerdict(rules, tenantId, outcome, other);
    }
  }

  lemma {:induction false} OneVerdict(rules: seq<Rule>, tenantId: string, a: Outcome, b: Outcome)
    requires Verdict(rules, tenantId, a) && Verdict(rules, tenantId, b)
    ensures a == b
  {
    hide TrimSpace, Validate;
    var normal := NormalAll(rules, tenantId);
    if a.DuplicatePattern? || a.InvalidRule? {
      assert !Fine(normal, a.at);
    }
    if b.DuplicatePattern? || b.InvalidRule? {
      assert !Fine(normal, b.at);
    }
  }

  /** A rule that can be stored, in its own numbers. */
  predicate WellPosed(r: Rule) {
    && !AllIn(r.pattern, SPACES)
    && ((r.algorithm == SlidingWindow && 0 < r.limitCount && 0 < r.windowSeconds)
        || (r.algorithm == TokenBucket && 0 < r.bucketCapacity && 0.0 < r.refillRate))
  }

  /** Its trimmed pattern stands in the list before. */
  predicate PatternTaken(rules: seq<Rule>, i: nat)
    requires i < |rules|
  {
    exists j :: 0 <= j < i && TrimSpace(rules[j].pattern) == TrimSpace(rules[i].pattern)
  }

  /** Nothing is wrong with this rule where it stands in the list. */
  predicate Storable(rules: seq<Rule>, tenantId: string, i: nat)
    requires i < |rules|
  {
    tenantId != "" && WellPosed(rules[i]) && !PatternTaken(rules, i)
  }

  lemma {:induction false} FineIff(rules: seq<Rule>, tenantId: string, i: nat)
    requires i < |rules|
    ensures var normal := NormalAll(rules, tenantId);
            && (Repeats(normal, i) <==> PatternTaken(rules, i))
            && (Validate(normal[i]).None? <==> tenantId != "" && WellPosed(rules[i]))
  {
    hide TrimSpace, Validate;
    var normal := NormalAll(rules, tenantId);
    if PatternTaken(rules, i) {
      var j :| 0 <= j < i && TrimSpace(rules[j].pattern) == TrimSpace(rules[i].pattern);
      assert normal[j].pattern == normal[i].pattern;
    }
    ValidIff(normal[i]);
    BlankStaysBlank(rules[i].pattern);
  }

  lemma {:induction false} BlankStaysBlank(s: string)
    ensures AllIn(TrimSpace(s), SPACES) <==> AllIn(s, SPACES)
  {
    hide Trim;
    TrimsToNothing(s, SPACES);
    if TrimSpace(s) != "" {
      var i, j := TrimCutsOnlyBlanks(s, SPACES);
      assert TrimSpace(s)[0] !in SPACES;
    }
  }

  /** THE VERDICT in the rules' own fields: nothing and more than fifty are refused;
      a list is accepted exactly if there is a tenant, every rule is well posed and
      no trimmed pattern is taken; otherwise the first rule that fails is named, a
      taken pattern before anything else about it. */
  lemma {:induction false} VerdictIs(rules: seq<Rule>, tenantId: string, outcome: Outcome)
    requires Verdict(rules, tenantId, outcome)
    ensures outcome.NoRules? <==> |rules| == 0
    ensures outcome.TooManyRules? <==> 50 < |rules|
    ensures outcome.Accepted? <==>
              && 1 <= |rules| <= 50
              && forall i :: 0 <= i < |rules| ==> Storable(rules, tenantId, i)
    ensures outcome.DuplicatePattern? || outcome.InvalidRule? ==>
              && outcome.at < |rules| <= 50
              && (forall i :: 0 <= i < outcome.at ==> Storable(rules, tenantId, i))
              && (outcome.DuplicatePattern? <==> PatternTaken(rules, outcome.at))
              && (outcome.InvalidRule? ==> tenantId == "" || !WellPosed(rules[outcome.at]))
  {
    hide TrimSpace, Validate, WellPosed, PatternTaken, Repeats;
    var normal := NormalAll(rules, tenantId);
    forall i | 0 <= i < |rules| ensures Fine(normal, i) <==> Storable(rules, tenantId, i) {
      FineIff(rules, tenantId, i);
    }
    if outcome.DuplicatePattern? || outcome.InvalidRule? {
      FineIff(rules, tenantId, outcome.at);
      assert !Fine(normal, outcome.at);
      forall i | 0 <= i < outcome.at ensures Storable(rules, tenantId, i) {
        assert Fine(normal, i);
      }
    } else if outcome.Accepted? {
      forall i | 0 <= i < |rules| ensures Storable(rules, tenantId, i) {
        assert Fine(normal, i);
      }
    }
  }

  /** What the loop has rewritten, in the rules' own fields. */
  lemma {:induction false} RewrittenIs(rules: seq<Rule>, tenantId: string, outcome: Outcome, i: nat)
    requires Verdict(rules, tenantId, outcome) && i < |rules|
    ensures |Rewritten(rules, tenantId, outcome)| == |rules|
    ensures Rewritten(rules, tenantId, outcome)[i]
         == if outcome.Accepted? || ((outcome.DuplicatePattern? || outcome.InvalidRule?) && i <= outcome.at)
            then rules[i].(tenantId := tenantId, pattern := TrimSpace(rules[i].pattern)) else rules[i]
  {
    hide TrimSpace, Validate;
  }

  /** A project's stored rules resolve the same way in every order, for every
      route on which the default and a one-character prefix are not tied. */
  lemma {:induction false} AcceptedRulesResolveUniquely(
    rules: seq<Rule>, tenantId: string, stored: seq<Rule>, route: string)
    requires Verdict(rules, tenantId, Accepted)
    requires multiset(stored) == multiset(Rewritten(rules, tenantId, Accepted))
    requires !Tied(Rewritten(rules, tenantId, Accepted), route)
    ensures Choice(stored, route) == Choice(Rewritten(rules, tenantId, Accepted), route)
  {
    hide Choice, Tied, Fine, Validate;
    AcceptedIff(rules, tenantId, Accepted);
    UntiedIsInvariant(Rewritten(rules, tenantId, Accepted), stored, route);
  }
}
