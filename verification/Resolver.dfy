/** Three ways the repository picks the rule for a route, and why they agree. */
module Resolver {
  import opened Text
  import opened Rules
  import opened StableSort

  function ScoreFor(route: string): (key: Rule -> int) {
    (r: Rule) => Specificity(r.pattern, route)
  }

  function StaticOrder(): (key: Rule -> int) {
    (r: Rule) => StaticScore(r.pattern)
  }

  function EligibleFor(route: string): (eligible: Rule -> bool) {
    (r: Rule) => Eligible(r, route)
  }

  /** Reference choice: the earliest of the eligible rules with the greatest
      score, or none. */
  function Choice(rules: seq<Rule>, route: string): (chosen: Option<Rule>) {
    FirstMax(Filter(rules, EligibleFor(route)), ScoreFor(route))
  }

  lemma {:induction false} ChoiceStep(rules: seq<Rule>, r: Rule, route: string)
    ensures var before := Choice(rules, route);
            Choice(rules + [r], route)
              == if Eligible(r, route)
                    && (before.None? || Specificity(before.value.pattern, route) < Specificity(r.pattern, route))
                 then Some(r) else before
  {
    assert (rules + [r])[..|rules|] == rules;
    var kept := Filter(rules, EligibleFor(route));
    assert (kept + [r])[..|kept|] == kept;
  }

  /** The server: one pass that keeps the first rule with a strictly greater
      score. */
  method Resolve(rules: seq<Rule>, route: string) returns (best: Option<Rule>)
    ensures best == Choice(rules, route)
    ensures best.None? <==> forall r :: r in rules ==> !(r.enabled && Matches(r.pattern, route))
  {
    hide Choice, Specificity;
    best := None;
    var bestScore := -1;
    NothingToChoose(route);
    for i := 0 to |rules|
      invariant best == Choice(rules[..i], route)
      invariant bestScore == if best.Some? then Specificity(best.value.pattern, route) else -1
    {
      var rule := rules[i];
      ChoiceStep(rules[..i], rule, route);
      assert rules[..i + 1] == rules[..i] + [rule];
      if !rule.enabled {
        continue;
      }
      var score := Specificity(rule.pattern, route);
      if score <= 0 {
        continue;
      }
      if score > bestScore {
        bestScore := score;
        best := Some(rule);
      }
    }
    assert rules[..|rules|] == rules;
    NoChoiceMeansNoMatch(rules, route);
  }

  /** Nothing is chosen if and only if no enabled rule matches; what is chosen
      is enabled, matches, and scores at least as high as every such rule. */
  lemma {:induction false} NoChoiceMeansNoMatch(rules: seq<Rule>, route: string)
    ensures Choice(rules, route).None? <==> forall r :: r in rules ==> !(r.enabled && Matches(r.pattern, route))
    ensures Choice(rules, route).Some? ==>
              var c := Choice(rules, route).value;
              && c in rules && c.enabled && Matches(c.pattern, route)
              && forall r :: r in rules && r.enabled && Matches(r.pattern, route) ==>
                   Specificity(r.pattern, route) <= Specificity(c.pattern, route)
  {
    var kept := Filter(rules, EligibleFor(route));
    forall r | r in rules ensures r in kept <==> r.enabled && Matches(r.pattern, route) {
      ScoresAgree(r.pattern, route);
    }
    forall r | r in kept ensures ScoreFor(route)(r) == Specificity(r.pattern, route) {
    }
    if kept != [] {
      assert kept[0] in rules;
    }
  }

  /** The rule at `i` is enabled, matches, scores higher than every such rule before
      it and at least as high as every such rule after it. */
  predicate BestAt(rules: seq<Rule>, route: string, i: nat)
    requires i < |rules|
  {
    && rules[i].enabled && Matches(rules[i].pattern, route)
    && forall j :: 0 <= j < |rules| && rules[j].enabled && Matches(rules[j].pattern, route) ==>
         var other, best := Specificity(rules[j].pattern, route), Specificity(rules[i].pattern, route);
         if j < i then other < best else other <= best
  }

  /** EARLIEST BEST: the choice is where the best score first stands. */
  lemma {:induction false} ChoiceIsEarliestBest(rules: seq<Rule>, route: string)
    ensures Choice(rules, route).Some? ==>
              exists i :: 0 <= i < |rules| && BestAt(rules, route, i) && Choice(rules, route).value == rules[i]
  {
    hide Choice, Specificity, Matches, BestAt;
    if rules == [] {
      NothingToChoose(route);
    } else {
      var n := |rules| - 1;
      var init, r := rules[..n], rules[n];
      assert rules == init + [r];
      ChoiceIsEarliestBest(init, route);
      ChoiceStep(init, r, route);
      NoChoiceMeansNoMatch(init, route);
      ScoresAgree(r.pattern, route);
      if Choice(init, route) == Choice(rules, route) && Choice(init, route).Some? {
        var i :| 0 <= i < n && BestAt(init, route, i) && Choice(init, route).value == init[i];
        StillBest(init, route, i, r);
      } else if Choice(rules, route).Some? {
        NewBest(init, route, r);
      }
    }
  }

  lemma {:induction false} StillBest(rules: seq<Rule>, route: string, i: nat, r: Rule)
    requires i < |rules| && BestAt(rules, route, i)
    requires Eligible(r, route) ==> Specificity(r.pattern, route) <= Specificity(rules[i].pattern, route)
    ensures BestAt(rules + [r], route, i)
  {
    hide Specificity, Matches;
    ScoresAgree(r.pattern, route);
    assert forall j :: 0 <= j < |rules| ==> (rules + [r])[j] == rules[j];
  }

  lemma {:induction false} NewBest(rules: seq<Rule>, route: string, r: Rule)
    requires r.enabled && Matches(r.pattern, route)
    requires forall x :: x in rules && x.enabled && Matches(x.pattern, route) ==>
               Specificity(x.pattern, route) < Specificity(r.pattern, route)
    ensures BestAt(rules + [r], route, |rules|)
  {
    hide Specificity, Matches;
    assert forall j :: 0 <= j < |rules| ==> (rules + [r])[j] == rules[j] && rules[j] in rules;
  }

  // ---- the console: filter, score, filter, sort, take the first

  datatype Scored = Scored(rule: Rule, score: int)

  function ScoreAll(rules: seq<Rule>, route: string): (scored: seq<Scored>)
    ensures |scored| == |rules|
    ensures forall i :: 0 <= i < |rules| ==>
              scored[i] == Scored(rules[i], ConsoleSpecificity(rules[i].pattern, route))
  {
    if rules == [] then []
    else
      ScoreAll(rules[..|rules| - 1], route)
      + [Scored(rules[|rules| - 1], ConsoleSpecificity(rules[|rules| - 1].pattern, route))]
  }

  function ByScore(): (key: Scored -> int) {
    (x: Scored) => x.score
  }

  /** The console's list before it is sorted. */
  function Candidates(rules: seq<Rule>, route: string): (candidates: seq<Scored>) {
    Filter(ScoreAll(Filter(rules, (r: Rule) => r.enabled), route), (x: Scored) => x.score > 0)
  }

  lemma {:induction false} CandidatesStep(rules: seq<Rule>, r: Rule, route: string)
    ensures Candidates(rules + [r], route)
         == Candidates(rules, route)
            + if Eligible(r, route) then [Scored(r, Specificity(r.pattern, route))] else []
  {
    ScoresAgree(r.pattern, route);
    assert (rules + [r])[..|rules|] == rules;
    var enabled := Filter(rules, (x: Rule) => x.enabled);
    assert (enabled + [r])[..|enabled|] == enabled;
    var scored := ScoreAll(enabled, route);
    var more := scored + [Scored(r, ConsoleSpecificity(r.pattern, route))];
    assert more[..|scored|] == scored;
  }

  lemma {:induction false} NothingToChoose(route: string)
    ensures Choice([], route).None? && Candidates([], route) == []
  {
  }

  lemma {:induction false} FirstCandidate(rules: seq<Rule>, route: string)
    ensures var c := Choice(rules, route);
            FirstMax(Candidates(rules, route), ByScore())
              == if c.None? then None else Some(Scored(c.value, Specificity(c.value.pattern, route)))
  {
    hide Choice, Candidates, Eligible, Specificity;
    if rules == [] {
      NothingToChoose(route);
    } else {
      var init, r := rules[..|rules| - 1], rules[|rules| - 1];
      assert rules == init + [r];
      FirstCandidate(init, route);
      ChoiceStep(init, r, route);
      CandidatesStep(init, r, route);
      assert Candidates(init, route) + [] == Candidates(init, route);
      FirstMaxStep(Candidates(init, route), Scored(r, Specificity(r.pattern, route)), ByScore());
    }
  }

  /** Whatever stable sort the console runs, its first entry is the server's
      choice. */
  lemma {:induction false} ConsoleAgrees(rules: seq<Rule>, route: string, sorted: seq<Scored>)
    requires SortedFrom(Candidates(rules, route), sorted, ByScore())
    ensures (if sorted == [] then None else Some(sorted[0].rule)) == Choice(rules, route)
  {
    HeadIsFirstMax(Candidates(rules, route), sorted, ByScore());
    FirstCandidate(rules, route);
  }

  // ---- the dashboard: one list sorted without looking at any route

  /** Whatever stable sort the dashboard runs on its static score, the first
      enabled rule in its list that matches is the server's choice, for every
      route. */
  lemma {:induction false} DashboardAgrees(rules: seq<Rule>, sorted: seq<Rule>, route: string)
    requires SortedFrom(rules, sorted, StaticOrder())
    ensures var matching := Filter(sorted, EligibleFor(route));
            (if matching == [] then None else Some(matching[0])) == Choice(rules, route)
  {
    FilterSorted(rules, sorted, EligibleFor(route), StaticOrder());
    var kept := Filter(rules, EligibleFor(route));
    HeadIsFirstMax(kept, Filter(sorted, EligibleFor(route)), StaticOrder());
    forall r | r in kept ensures ScoreFor(route)(r) == StaticOrder()(r) {
      ScoresAgree(r.pattern, route);
    }
    FirstMaxSameKeys(kept, ScoreFor(route), StaticOrder());
  }

  /** Both lists exist for every rule list: stable sorting always succeeds. */
  lemma {:induction false} SortedListsExist(rules: seq<Rule>, route: string)
    ensures SortedFrom(rules, Sort(rules, StaticOrder()), StaticOrder())
    ensures SortedFrom(Candidates(rules, route), Sort(Candidates(rules, route), ByScore()), ByScore())
  {
    SortIsStable(rules, StaticOrder());
    SortIsStable(Candidates(rules, route), ByScore());
  }

  // ---- when the order of the list matters

  ghost predicate DistinctPatterns(rules: seq<Rule>) {
    forall i, j :: 0 <= i < j < |rules| ==> rules[i].pattern != rules[j].pattern
  }

  ghost predicate Candidate(rules: seq<Rule>, route: string, r: Rule) {
    r in rules && r.enabled && Matches(r.pattern, route)
  }

  /** An enabled default and an enabled one-character prefix both apply, and
      nothing more specific does. */
  ghost predicate Tied(rules: seq<Rule>, route: string) {
    && (exists d :: Candidate(rules, route, d) && d.pattern == "*")
    && (exists p :: Candidate(rules, route, p) && OneCharPrefix(p.pattern, route))
    && forall r :: Candidate(rules, route, r) ==> r.pattern == "*" || OneCharPrefix(r.pattern, route)
  }

  /** A rule that scores strictly above every other candidate is chosen,
      wherever it stands. */
  lemma {:induction false} StrictBestIsChosen(rules: seq<Rule>, route: string, best: Rule)
    requires Candidate(rules, route, best)
    requires forall r :: Candidate(rules, route, r) && r != best ==>
               Specificity(r.pattern, route) < Specificity(best.pattern, route)
    ensures Choice(rules, route) == Some(best)
  {
    NoChoiceMeansNoMatch(rules, route);
    assert Candidate(rules, route, Choice(rules, route).value);
  }

  /** The candidates in list order. */
  function InOrder(rules: seq<Rule>, route: string): (ordered: seq<Rule>) {
    Filter(rules, EligibleFor(route))
  }

  lemma {:induction false} InOrderAreCandidates(rules: seq<Rule>, route: string)
    ensures forall r :: r in InOrder(rules, route) <==> Candidate(rules, route, r)
  {
    forall r ensures r in InOrder(rules, route) <==> Candidate(rules, route, r) {
      ScoresAgree(r.pattern, route);
    }
  }

  /** When no candidate beats the first one in the list, that one is chosen. */
  lemma {:induction false} FirstIsChosen(rules: seq<Rule>, route: string)
    requires InOrder(rules, route) != []
    requires forall r :: Candidate(rules, route, r) ==>
               Specificity(r.pattern, route) <= Specificity(InOrder(rules, route)[0].pattern, route)
    ensures Choice(rules, route) == Some(InOrder(rules, route)[0])
  {
    InOrderAreCandidates(rules, route);
    HeadWins(InOrder(rules, route), ScoreFor(route));
  }

  lemma {:induction false} HeadIsFirst(rules: seq<Rule>, route: string)
    requires rules != [] && Candidate(rules, route, rules[0])
    ensures InOrder(rules, route) != [] && InOrder(rules, route)[0] == rules[0]
  {
    ScoresAgree(rules[0].pattern, route);
    assert rules == [rules[0]] + rules[1..];
    FilterPrefix([rules[0]], rules[1..], EligibleFor(route));
  }

  /** Distinct patterns that are not tied have one strict best, if any. */
  lemma {:induction false} UntiedHasStrictBest(rules: seq<Rule>, route: string, best: Rule, r: Rule)
    requires DistinctPatterns(rules) && !Tied(rules, route)
    requires Choice(rules, route) == Some(best) && Candidate(rules, route, r) && r != best
    ensures Specificity(r.pattern, route) < Specificity(best.pattern, route)
  {
    NoChoiceMeansNoMatch(rules, route);
    assert Candidate(rules, route, best);
    var i :| 0 <= i < |rules| && rules[i] == r;
    var j :| 0 <= j < |rules| && rules[j] == best;
    assert r.pattern != best.pattern;
    ScoreFollowsPrecedence(best.pattern, r.pattern, route);
    if Specificity(r.pattern, route) == Specificity(best.pattern, route) {
      forall x | Candidate(rules, route, x) ensures x.pattern == "*" || OneCharPrefix(x.pattern, route) {
        ScoreFollowsPrecedence(x.pattern, "*", route);
        ScoreFollowsPrecedence(best.pattern, r.pattern, route);
        ScoresAgree(x.pattern, route);
        assert Specificity(x.pattern, route) <= 1;
      }
      assert Tied(rules, route);
    }
  }

  /** WELL DEFINED: with pairwise distinct patterns, the choice is the same for
      every order of the list if and only if the default and a one-character
      prefix are not tied for the route. */
  lemma {:induction false} OrderMattersOnlyInTie(rules: seq<Rule>, route: string)
    requires DistinctPatterns(rules)
    ensures (forall ys: seq<Rule> :: multiset(ys) == multiset(rules) ==> Choice(ys, route) == Choice(rules, route))
       <==> !Tied(rules, route)
  {
    if Tied(rules, route) {
      var ys := TieDependsOnOrder(rules, route);
      assert multiset(ys) == multiset(rules) && Choice(ys, route) != Choice(rules, route);
    } else {
      forall ys: seq<Rule> | multiset(ys) == multiset(rules)
        ensures Choice(ys, route) == Choice(rules, route)
      {
        UntiedIsInvariant(rules, ys, route);
      }
    }
  }

  lemma {:induction false} UntiedIsInvariant(rules: seq<Rule>, ys: seq<Rule>, route: string)
    requires DistinctPatterns(rules) && !Tied(rules, route) && multiset(ys) == multiset(rules)
    ensures Choice(ys, route) == Choice(rules, route)
  {
    assert forall r :: r in ys <==> r in multiset(ys);
    assert forall r :: r in rules <==> r in multiset(rules);
    NoChoiceMeansNoMatch(rules, route);
    NoChoiceMeansNoMatch(ys, route);
    if Choice(rules, route).Some? {
      var best := Choice(rules, route).value;
      forall r | Candidate(ys, route, r) && r != best
        ensures Specificity(r.pattern, route) < Specificity(best.pattern, route)
      {
        UntiedHasStrictBest(rules, route, best, r);
      }
      StrictBestIsChosen(ys, route, best);
    }
  }

  lemma {:induction false} TiedScoreOne(rules: seq<Rule>, route: string, r: Rule)
    requires Tied(rules, route) && Candidate(rules, route, r)
    ensures Specificity(r.pattern, route) == 1
  {
  }

  /** Moving one rule to the front keeps the same rules. */
  lemma {:induction false} MoveToFront(rules: seq<Rule>, r: Rule) returns (ys: seq<Rule>)
    requires r in rules
    ensures multiset(ys) == multiset(rules) && ys != [] && ys[0] == r
    ensures forall x :: x in ys <==> x in rules
  {
    var i :| 0 <= i < |rules| && rules[i] == r;
    ys := [r] + (rules[..i] + rules[i + 1..]);
    assert rules == rules[..i] + [r] + rules[i + 1..];
  }

  /** In a tie some other order changes the choice: move the loser to the
      front. */
  lemma {:induction false} TieDependsOnOrder(rules: seq<Rule>, route: string) returns (ys: seq<Rule>)
    requires Tied(rules, route)
    ensures multiset(ys) == multiset(rules) && Choice(ys, route) != Choice(rules, route)
  {
    hide Choice, Tied, Specificity;
    var d, p := TwoTied(rules, route);
    var loser := if Choice(rules, route) == Some(d) then p else d;
    ys := MoveToFront(rules, loser);
    assert Candidate(ys, route, loser);
    HeadIsFirst(ys, route);
    forall r | Candidate(ys, route, r)
      ensures Specificity(r.pattern, route) <= Specificity(loser.pattern, route)
    {
      assert Candidate(rules, route, r);
      TiedScoreOne(rules, route, r);
      TiedScoreOne(rules, route, loser);
    }
    FirstIsChosen(ys, route);
  }

  lemma {:induction false} TwoTied(rules: seq<Rule>, route: string) returns (d: Rule, p: Rule)
    requires Tied(rules, route)
    ensures Candidate(rules, route, d) && Candidate(rules, route, p) && d != p
  {
    d :| Candidate(rules, route, d) && d.pattern == "*";
    p :| Candidate(rules, route, p) && OneCharPrefix(p.pattern, route);
  }

  // ---- the documented precedence

  /** The default and a one-character prefix are tied, and the first candidate
      in the list is the default. */
  ghost predicate DefaultShadowsPrefix(rules: seq<Rule>, route: string) {
    Tied(rules, route) && InOrder(rules, route) != [] && InOrder(rules, route)[0].pattern == "*"
  }

  lemma {:induction false} ShadowChoosesDefault(rules: seq<Rule>, route: string)
    requires Tied(rules, route)
    ensures InOrder(rules, route) != [] && Choice(rules, route) == Some(InOrder(rules, route)[0])
  {
    hide Choice, Tied, Specificity, InOrder;
    InOrderAreCandidates(rules, route);
    var d, p := TwoTied(rules, route);
    var first := InOrder(rules, route)[0];
    forall r | Candidate(rules, route, r)
      ensures Specificity(r.pattern, route) <= Specificity(first.pattern, route)
    {
      TiedScoreOne(rules, route, r);
      TiedScoreOne(rules, route, first);
    }
    FirstIsChosen(rules, route);
  }

  /** The documented order (exact, then longest prefix, then default) is kept
      by every choice except where the default shadows a one-character prefix. */
  lemma {:induction false} PrecedenceIsFollowed(rules: seq<Rule>, route: string)
    requires Choice(rules, route).Some?
    ensures (forall r :: Candidate(rules, route, r) ==>
               !Outranks(r.pattern, Choice(rules, route).value.pattern, route))
       <==> !DefaultShadowsPrefix(rules, route)
  {
    hide Choice, Specificity, InOrder;
    NoChoiceMeansNoMatch(rules, route);
    var best := Choice(rules, route).value;
    assert Candidate(rules, route, best);
    forall r | Candidate(rules, route, r)
      ensures Outranks(r.pattern, best.pattern, route) <==> OneCharPrefix(r.pattern, route) && best.pattern == "*"
    {
      ScoreFollowsPrecedence(r.pattern, best.pattern, route);
    }
    if Tied(rules, route) {
      ShadowChoosesDefault(rules, route);
    }
    if best.pattern == "*" {
      forall r | Candidate(rules, route, r) ensures r.pattern == "*" || OneCharPrefix(r.pattern, route) {
        BeatsDefault(r.pattern, route);
      }
    }
  }

  /** Whatever matches scores at least one; more than one, unless it is the
      default or a one-character prefix. */
  lemma {:induction false} BeatsDefault(p: string, route: string)
    requires Matches(p, route)
    ensures Specificity(p, route) <= Specificity("*", route) ==> p == "*" || OneCharPrefix(p, route)
  {
    ScoreFollowsPrecedence(p, "*", route);
  }
}
