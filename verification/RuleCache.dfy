/** The per-tenant rule cache.  A miss loads from the repository with no lock
    held, so loads of the same tenant overlap and finish in any order. */
module RuleCache {
  import opened Text
  import opened Rules

  type Tenant = string

  datatype Cached = Cached(rules: seq<Rule>, expiresAt: int)

  type Items = map<Tenant, Cached>

  /** A hit needs an entry that has not run out. */
  function Lookup(items: Items, tenant: Tenant, now: int): (rules: Option<seq<Rule>>) {
    if tenant in items && now <= items[tenant].expiresAt then Some(items[tenant].rules) else None
  }

  function Stored(items: Items, tenant: Tenant, rules: seq<Rule>, now: int, ttl: int): (stored: Items) {
    items[tenant := Cached(rules, now + ttl)]
  }

  // ---- what a cache has been given decides what it serves

  /** A list put into the cache for a tenant. */
  datatype Put = Put(tenant: Tenant, rules: seq<Rule>, at: int)

  /** The tenant's last put. */
  function Latest(puts: seq<Put>, tenant: Tenant): (p: Option<Put>)
    ensures p.Some? ==> p.value in puts && p.value.tenant == tenant
    ensures p.None? <==> forall q :: q in puts ==> q.tenant != tenant
  {
    if puts == [] then None
    else
      var n := |puts| - 1;
      if puts[n].tenant == tenant then Some(puts[n]) else Latest(puts[..n], tenant)
  }

  lemma {:induction false} LatestIsLast(puts: seq<Put>, tenant: Tenant, i: nat)
    requires i < |puts| && puts[i].tenant == tenant
    ensures (forall j :: i < j < |puts| ==> puts[j].tenant != tenant) ==> Latest(puts, tenant) == Some(puts[i])
  {
    var n := |puts| - 1;
    if puts[n].tenant != tenant {
      LatestIsLast(puts[..n], tenant, i);
    }
  }

  /** A put decides what its own tenant gets from then on, and nothing about
      any other tenant. */
  lemma {:induction false} OnePut(puts: seq<Put>, p: Put, tenant: Tenant)
    ensures Latest(puts + [p], tenant) == if tenant == p.tenant then Some(p) else Latest(puts, tenant)
  {
    assert (puts + [p])[..|puts|] == puts;
  }

  /** The list of the tenant's last put, while that is at most `ttl` old. */
  function Current(puts: seq<Put>, ttl: int, tenant: Tenant, now: int): (rules: Option<seq<Rule>>) {
    var p := Latest(puts, tenant);
    if p.Some? && now <= p.value.at + ttl then Some(p.value.rules) else None
  }

  /** The entries hold exactly each tenant's last put. */
  ghost predicate Remembers(items: Items, ttl: int, puts: seq<Put>) {
    forall tenant ::
      && (tenant in items <==> Latest(puts, tenant).Some?)
      && (tenant in items ==>
            items[tenant] == Cached(Latest(puts, tenant).value.rules, Latest(puts, tenant).value.at + ttl))
  }

  lemma {:induction false} StoredRemembers(items: Items, ttl: int, puts: seq<Put>, p: Put)
    requires Remembers(items, ttl, puts)
    ensures Remembers(Stored(items, p.tenant, p.rules, p.at, ttl), ttl, puts + [p])
  {
    hide Latest;
    forall tenant ensures Latest(puts + [p], tenant) == if tenant == p.tenant then Some(p) else Latest(puts, tenant) {
      OnePut(puts, p, tenant);
    }
  }

  class Cache {
    var items: Items
    ghost var history: seq<Put>
    const ttl: int

    ghost predicate Valid()
      reads this
    {
      Remembers(items, ttl, history)
    }

    constructor (ttl: int)
      ensures Valid() && this.ttl == ttl && history == []
    {
      items := map[];
      history := [];
      this.ttl := ttl;
    }

    /** Served exactly until the lifetime of the tenant's last put is over. */
    method Get(tenant: Tenant, now: int) returns (rules: seq<Rule>, ok: bool)
      requires Valid()
      ensures ok <==> exists p :: Latest(history, tenant) == Some(p) && now <= p.at + ttl
      ensures ok ==> rules == Latest(history, tenant).value.rules
      ensures !ok ==> rules == []
    {
      if tenant !in items || items[tenant].expiresAt < now {
        return [], false;
      }
      assert Latest(history, tenant) == Some(Latest(history, tenant).value);
      return items[tenant].rules, true;
    }

    /** From now on the tenant's last put is this one; every other tenant's is
        what it was. */
    method Set(tenant: Tenant, rules: seq<Rule>, now: int)
      requires Valid()
      modifies this
      ensures Valid() && history == old(history) + [Put(tenant, rules, now)]
      ensures forall other :: Latest(history, other)
                == if other == tenant then Some(Put(tenant, rules, now)) else Latest(old(history), other)
    {
      StoredRemembers(items, ttl, history, Put(tenant, rules, now));
      forall other {
        OnePut(history, Put(tenant, rules, now), other);
      }
      items := items[tenant := Cached(rules, now + ttl)];
      history := history + [Put(tenant, rules, now)];
    }

    /** One uninterrupted call.  `loaded` is the repository's answer, None when
        it fails; `setAt` is the clock when the answer is stored. */
    method ListByTenant(
      tenant: Tenant, now: int, loaded: Option<seq<Rule>>, setAt: int) returns (result: Option<seq<Rule>>)
      requires Valid()
      modifies this
      ensures Valid()
      ensures var cached := Current(old(history), ttl, tenant, now);
              && result == (if cached.Some? then cached else loaded)
              && history == old(history)
                            + if cached.None? && loaded.Some? then [Put(tenant, loaded.value, setAt)] else []
    {
      var rules, ok := Get(tenant, now);
      if ok {
        return Some(rules);
      }
      if loaded.None? {
        return None;
      }
      Set(tenant, loaded.value, setAt);
      return loaded;
    }
  }

  // ---- overlapping calls as interleaved steps

  /** What the repository would answer for a tenant at each instant. */
  type Repository = (Tenant, int) -> seq<Rule>

  /** A call that has read the repository at `readAt`, but has not stored the
      answer yet. */
  datatype Load = Load(tenant: Tenant, rules: seq<Rule>, readAt: int)

  datatype Step =
    | Hit(tenant: Tenant, now: int)               // get finds an entry and serves it
    | Miss(call: nat, tenant: Tenant, now: int)   // get finds none
    | Read(call: nat, now: int)                   // the repository answers
    | ReadFails(call: nat, now: int)              // the repository fails
    | Finish(call: nat, now: int)                 // set, and serve what was read

  /** Calls that have missed and not read, and calls that have read and not
      stored. */
  datatype State = State(items: Items, missed: map<nat, Tenant>, loads: map<nat, Load>)

  const Init := State(map[], map[], map[])

  /** A list handed to a caller, and when. */
  datatype Served = Nothing | Served(tenant: Tenant, rules: seq<Rule>, now: int)

  /** Each step is what one call does while it holds the lock, or while the
      repository works.  Steps that cannot happen leave the state alone and serve
      nothing. */
  function Apply(repo: Repository, ttl: int, s: State, step: Step): (result: (State, Served)) {
    match step
    case Hit(tenant, now) =>
      var found := Lookup(s.items, tenant, now);
      (s, if found.Some? then Served(tenant, found.value, now) else Nothing)
    case Miss(call, tenant, now) =>
      if call in s.missed || call in s.loads || Lookup(s.items, tenant, now).Some? then (s, Nothing)
      else (s.(missed := s.missed[call := tenant]), Nothing)
    case Read(call, now) =>
      if call !in s.missed then (s, Nothing)
      else
        var l := Load(s.missed[call], repo(s.missed[call], now), now);
        (s.(missed := s.missed - {call}, loads := s.loads[call := l]), Nothing)
    case ReadFails(call, now) => (s.(missed := s.missed - {call}), Nothing)
    case Finish(call, now) =>
      if call !in s.loads then (s, Nothing)
      else
        var l := s.loads[call];
        (s.(items := Stored(s.items, l.tenant, l.rules, now, ttl), loads := s.loads - {call}),
         Served(l.tenant, l.rules, now))
  }

  function After(repo: Repository, ttl: int, steps: seq<Step>): (s: State) {
    if steps == [] then Init
    else Apply(repo, ttl, After(repo, ttl, steps[..|steps| - 1]), steps[|steps| - 1]).0
  }

  /** What the last step serves. */
  function LastServed(repo: Repository, ttl: int, steps: seq<Step>): (served: Served)
    requires steps != []
  {
    Apply(repo, ttl, After(repo, ttl, steps[..|steps| - 1]), steps[|steps| - 1]).1
  }

  /** The clock never runs backwards. */
  ghost predicate Timely(steps: seq<Step>) {
    forall i, j :: 0 <= i <= j < |steps| ==> steps[i].now <= steps[j].now
  }

  /** Every load is stored at most `delay` after it read the repository. */
  ghost predicate Prompt(repo: Repository, ttl: int, steps: seq<Step>, delay: int) {
    forall n :: 0 <= n < |steps| && steps[n].Finish? && steps[n].call in After(repo, ttl, steps[..n]).loads ==>
      steps[n].now - After(repo, ttl, steps[..n]).loads[steps[n].call].readAt <= delay
  }

  /** `rules` was the repository's list at some instant from `oldest` to `newest`. */
  ghost predicate CurrentBetween(repo: Repository, tenant: Tenant, rules: seq<Rule>, oldest: int, newest: int) {
    exists t :: oldest <= t <= newest && repo(tenant, t) == rules
  }

  /** Entries and pending loads trace back to the repository. */
  ghost predicate Traced(repo: Repository, ttl: int, s: State, now: int, delay: int) {
    && (forall k :: k in s.items ==>
          && s.items[k].expiresAt - ttl <= now
          && CurrentBetween(repo, k, s.items[k].rules, s.items[k].expiresAt - ttl - delay, s.items[k].expiresAt - ttl))
    && (forall c :: c in s.loads ==>
          && s.loads[c].readAt <= now
          && s.loads[c].rules == repo(s.loads[c].tenant, s.loads[c].readAt))
  }

  lemma {:induction false} CurrentAt(repo: Repository, tenant: Tenant, t: int, oldest: int, newest: int)
    requires oldest <= t <= newest
    ensures CurrentBetween(repo, tenant, repo(tenant, t), oldest, newest)
  {
  }

  lemma {:induction false} StepTraced(repo: Repository, ttl: int, s: State, before: int, step: Step, delay: int)
    requires Traced(repo, ttl, s, before, delay) && before <= step.now
    requires step.Finish? && step.call in s.loads ==> step.now - s.loads[step.call].readAt <= delay
    ensures Traced(repo, ttl, Apply(repo, ttl, s, step).0, step.now, delay)
  {
    hide CurrentBetween;
    if step.Finish? && step.call in s.loads {
      var l := s.loads[step.call];
      CurrentAt(repo, l.tenant, l.readAt, step.now - delay, step.now);
    }
  }

  lemma {:induction false} RunTraced(repo: Repository, ttl: int, steps: seq<Step>, delay: int)
    requires Timely(steps) && Prompt(repo, ttl, steps, delay) && steps != []
    ensures Traced(repo, ttl, After(repo, ttl, steps), steps[|steps| - 1].now, delay)
  {
    hide Traced, Apply, CurrentBetween;
    var n := |steps| - 1;
    if n == 0 {
      NothingTraced(repo, ttl, steps[0].now, delay);
      assert steps[..0] == [];
      StepTraced(repo, ttl, Init, steps[0].now, steps[0], delay);
    } else {
      PromptInit(repo, ttl, steps, delay);
      RunTraced(repo, ttl, steps[..n], delay);
      StepTraced(repo, ttl, After(repo, ttl, steps[..n]), steps[n - 1].now, steps[n], delay);
    }
  }

  lemma {:induction false} NothingTraced(repo: Repository, ttl: int, now: int, delay: int)
    ensures Traced(repo, ttl, Init, now, delay)
  {
  }

  lemma {:induction false} PromptInit(repo: Repository, ttl: int, steps: seq<Step>, delay: int)
    requires Prompt(repo, ttl, steps, delay) && steps != []
    ensures Prompt(repo, ttl, steps[..|steps| - 1], delay)
  {
    var init := steps[..|steps| - 1];
    assert forall n :: 0 <= n < |init| ==> init[..n] == steps[..n];
  }

  /** STALENESS: under any interleaving of overlapping misses, including slow
      loads that overwrite newer ones, every list served was the repository's
      at some instant at most ttl + delay ago. */
  lemma {:induction false} StalenessBound(repo: Repository, ttl: int, steps: seq<Step>, delay: int)
    requires Timely(steps) && Prompt(repo, ttl, steps, delay) && steps != [] && 0 <= ttl
    ensures match LastServed(repo, ttl, steps)
            case Nothing => true
            case Served(tenant, rules, now) =>
              now == steps[|steps| - 1].now
              && CurrentBetween(repo, tenant, rules, now - ttl - delay, now)
  {
    var n := |steps| - 1;
    var s := After(repo, ttl, steps[..n]);
    if n == 0 {
      assert steps[..0] == [];
    } else {
      PromptInit(repo, ttl, steps, delay);
      RunTraced(repo, ttl, steps[..n], delay);
      var step := steps[n];
      match step {
        case Hit(tenant, now) =>
          if Lookup(s.items, tenant, now).Some? {
            var item := s.items[tenant];
            assert item.expiresAt - ttl <= steps[n - 1].now <= now;
            var t :| item.expiresAt - ttl - delay <= t <= item.expiresAt - ttl && repo(tenant, t) == item.rules;
            assert now - ttl - delay <= t <= now;
          }
        case Finish(call, now) =>
          if call in s.loads {
            var l := s.loads[call];
            assert now - ttl - delay <= l.readAt <= now && repo(l.tenant, l.readAt) == l.rules;
          }
        case _ =>
      }
    }
  }

  /** None of these later steps stores a load of this tenant. */
  ghost predicate StoresNoneFor(repo: Repository, ttl: int, steps: seq<Step>, more: seq<Step>, tenant: Tenant) {
    forall n :: 0 <= n < |more| && more[n].Finish? ==>
      var loads := After(repo, ttl, steps + more[..n]).loads;
      more[n].call in loads ==> loads[more[n].call].tenant != tenant
  }

  /** ISOLATION OF TENANTS: whatever happens meanwhile, a lookup answers as before
      until a load of the same tenant is stored. */
  lemma {:induction false} OtherTenantsUntouched(
    repo: Repository, ttl: int, steps: seq<Step>, more: seq<Step>, tenant: Tenant, now: int)
    requires StoresNoneFor(repo, ttl, steps, more, tenant)
    ensures LastServed(repo, ttl, steps + more + [Hit(tenant, now)])
         == LastServed(repo, ttl, steps + [Hit(tenant, now)])
    ensures var before, after := After(repo, ttl, steps).items, After(repo, ttl, steps + more).items;
            (tenant in before <==> tenant in after) && (tenant in before ==> before[tenant] == after[tenant])
    decreases |more|
  {
    hide After, LastServed;
    if more == [] {
      assert steps + [] == steps;
    } else {
      var n := |more| - 1;
      var init := more[..n];
      assert forall m :: 0 <= m < n ==> init[..m] == more[..m];
      OtherTenantsUntouched(repo, ttl, steps, init, tenant, now);
      assert steps + more == (steps + init) + [more[n]];
      OneMore(repo, ttl, steps + init, more[n]);
    }
    OneMore(repo, ttl, steps, Hit(tenant, now));
    OneMore(repo, ttl, steps + more, Hit(tenant, now));
  }

  lemma {:induction false} NeverBoth(repo: Repository, ttl: int, steps: seq<Step>)
    ensures var s := After(repo, ttl, steps); s.missed.Keys !! s.loads.Keys
  {
    if steps != [] {
      NeverBoth(repo, ttl, steps[..|steps| - 1]);
    }
  }

  /** A failed load is never cached: whatever happens after the failure, the call
      has nothing to store unless it starts over with another miss. */
  lemma {:induction false} FailureIsNeverCached(
    repo: Repository, ttl: int, steps: seq<Step>, call: nat, at: int, more: seq<Step>, now: int)
    requires call in After(repo, ttl, steps).missed
    requires forall step :: step in more && step.Miss? ==> step.call != call
    ensures var s := After(repo, ttl, steps + [ReadFails(call, at)] + more);
            && call !in s.missed && call !in s.loads
            && Apply(repo, ttl, s, Finish(call, now)) == (s, Nothing)
  {
    hide After, LastServed, Lookup, Stored;
    var before := steps + [ReadFails(call, at)];
    if more == [] {
      assert before + [] == before;
      NeverBoth(repo, ttl, steps);
      OneMore(repo, ttl, steps, ReadFails(call, at));
    } else {
      var n := |more| - 1;
      FailureIsNeverCached(repo, ttl, steps, call, at, more[..n], now);
      assert before + more == (before + more[..n]) + [more[n]];
      assert more[n] in more;
      OneMore(repo, ttl, before + more[..n], more[n]);
    }
  }

  /** The lists stored along the way. */
  function Puts(repo: Repository, ttl: int, steps: seq<Step>): (puts: seq<Put>) {
    if steps == [] then []
    else
      var n := |steps| - 1;
      var s := After(repo, ttl, steps[..n]);
      Puts(repo, ttl, steps[..n])
      + if steps[n].Finish? && steps[n].call in s.loads
        then [Put(s.loads[steps[n].call].tenant, s.loads[steps[n].call].rules, steps[n].now)]
        else []
  }

  lemma {:induction false} RunRemembers(repo: Repository, ttl: int, steps: seq<Step>)
    ensures Remembers(After(repo, ttl, steps).items, ttl, Puts(repo, ttl, steps))
  {
    hide Remembers, Lookup, Stored;
    if steps == [] {
      NothingRemembered(ttl);
    } else {
      var n := |steps| - 1;
      var s := After(repo, ttl, steps[..n]);
      RunRemembers(repo, ttl, steps[..n]);
      if steps[n].Finish? && steps[n].call in s.loads {
        var l := s.loads[steps[n].call];
        StoredRemembers(s.items, ttl, Puts(repo, ttl, steps[..n]), Put(l.tenant, l.rules, steps[n].now));
      } else {
        assert Puts(repo, ttl, steps) == Puts(repo, ttl, steps[..n]);
        assert After(repo, ttl, steps).items == s.items;
      }
    }
  }

  lemma {:induction false} NothingRemembered(ttl: int)
    ensures Remembers(map[], ttl, [])
  {
  }

  /** Whatever overlaps, a lookup serves exactly the list stored last for the
      tenant, for exactly one lifetime: storing order decides, not reading order. */
  lemma {:induction false} LastStoreIsServed(repo: Repository, ttl: int, steps: seq<Step>, tenant: Tenant, now: int)
    ensures var current := Current(Puts(repo, ttl, steps), ttl, tenant, now);
            LastServed(repo, ttl, steps + [Hit(tenant, now)])
              == if current.Some? then Served(tenant, current.value, now) else Nothing
  {
    hide After, LastServed, Puts, Latest;
    RunRemembers(repo, ttl, steps);
    OneMore(repo, ttl, steps, Hit(tenant, now));
    assert tenant in After(repo, ttl, steps).items <==> Latest(Puts(repo, ttl, steps), tenant).Some?;
  }

  // ---- what a call that misses gets

  ghost predicate Names(step: Step, call: nat) {
    !step.Hit? && step.call == call
  }

  /** Steps of other calls leave this call where it is. */
  lemma {:induction false} OtherCalls(repo: Repository, ttl: int, steps: seq<Step>, more: seq<Step>, call: nat)
    requires forall step :: step in more ==> !Names(step, call)
    ensures var s, s' := After(repo, ttl, steps), After(repo, ttl, steps + more);
            && (call in s.missed <==> call in s'.missed) && (call in s.missed ==> s.missed[call] == s'.missed[call])
            && (call in s.loads <==> call in s'.loads) && (call in s.loads ==> s.loads[call] == s'.loads[call])
  {
    hide After, Lookup, Stored;
    if more == [] {
      assert steps + [] == steps;
    } else {
      var n := |more| - 1;
      OtherCalls(repo, ttl, steps, more[..n], call);
      assert steps + more == (steps + more[..n]) + [more[n]];
      assert more[n] in more;
      OneMore(repo, ttl, steps + more[..n], more[n]);
    }
  }

  /** A lookup that finds a list starts no load. */
  lemma {:induction false} FoundIsNotLoaded(
    repo: Repository, ttl: int, steps: seq<Step>, call: nat, tenant: Tenant, now: int)
    requires Current(Puts(repo, ttl, steps), ttl, tenant, now).Some?
    ensures After(repo, ttl, steps + [Miss(call, tenant, now)]) == After(repo, ttl, steps)
    ensures LastServed(repo, ttl, steps + [Miss(call, tenant, now)]) == Nothing
  {
    hide After, LastServed, Puts, Latest;
    RunRemembers(repo, ttl, steps);
    OneMore(repo, ttl, steps, Miss(call, tenant, now));
    assert tenant in After(repo, ttl, steps).items <==> Latest(Puts(repo, ttl, steps), tenant).Some?;
  }

  /** EVERY MISSED CALL IS ANSWERED: whatever other calls do in between, a call that
      finds nothing is served what the repository answered it, and stores that. */
  lemma {:induction false} MissedCallIsServed(
    repo: Repository, ttl: int, steps: seq<Step>, call: nat, tenant: Tenant, a: int, xs: seq<Step>, b: int,
    ys: seq<Step>, now: int)
    requires call !in After(repo, ttl, steps).missed && call !in After(repo, ttl, steps).loads
    requires Current(Puts(repo, ttl, steps), ttl, tenant, a).None?
    requires forall step :: step in xs + ys ==> !Names(step, call)
    ensures var before := steps + [Miss(call, tenant, a)] + xs + [Read(call, b)] + ys;
            && LastServed(repo, ttl, before + [Finish(call, now)]) == Served(tenant, repo(tenant, b), now)
            && Puts(repo, ttl, before + [Finish(call, now)])
               == Puts(repo, ttl, before) + [Put(tenant, repo(tenant, b), now)]
  {
    hide After, LastServed, Puts, Latest, Names;
    RunRemembers(repo, ttl, steps);
    assert tenant in After(repo, ttl, steps).items <==> Latest(Puts(repo, ttl, steps), tenant).Some?;
    var s1 := steps + [Miss(call, tenant, a)];
    var s2 := s1 + xs;
    var s3 := s2 + [Read(call, b)];
    var s4 := s3 + ys;
    OneMore(repo, ttl, steps, Miss(call, tenant, a));
    assert forall step :: step in xs || step in ys ==> step in xs + ys;
    OtherCalls(repo, ttl, s1, xs, call);
    OneMore(repo, ttl, s2, Read(call, b));
    OtherCalls(repo, ttl, s3, ys, call);
    OneMore(repo, ttl, s4, Finish(call, now));
    PutsStep(repo, ttl, s4, Finish(call, now));
  }

  lemma {:induction false} PutsStep(repo: Repository, ttl: int, steps: seq<Step>, step: Step)
    ensures var loads := After(repo, ttl, steps).loads;
            Puts(repo, ttl, steps + [step])
              == Puts(repo, ttl, steps)
                 + if step.Finish? && step.call in loads
                   then [Put(loads[step.call].tenant, loads[step.call].rules, step.now)] else []
  {
    assert (steps + [step])[..|steps|] == steps;
  }

  // ---- the bound is reached, so the lifetime alone does not bound staleness

  const OLD: seq<Rule> := []
  const NEW: seq<Rule> := [Rule("r", "t", "*", SlidingWindow, true, 1, 1, 0, 0.0)]

  /** A repository whose only change happens just after instant 0. */
  function ChangesAfterZero(): (repo: Repository) {
    (tenant: Tenant, now: int) => if now <= 0 then OLD else NEW
  }

  /** A slow load that read before the change overwrites a quick one that read
      after it, and is served for a whole lifetime more. */
  function SlowOverwrite(ttl: int, delay: int): (steps: seq<Step>) {
    [Miss(1, "t", 0)] + [Read(1, 0)] + [Miss(2, "t", 0)] + [Read(2, 1)]
    + [Finish(2, 1)] + [Finish(1, delay)] + [Hit("t", delay + ttl)]
  }

  lemma {:induction false} OneMore(repo: Repository, ttl: int, steps: seq<Step>, step: Step)
    ensures After(repo, ttl, steps + [step]) == Apply(repo, ttl, After(repo, ttl, steps), step).0
    ensures LastServed(repo, ttl, steps + [step]) == Apply(repo, ttl, After(repo, ttl, steps), step).1
  {
    assert (steps + [step])[..|steps|] == steps;
  }

  /** Both calls miss, one reads before the change and one after it. */
  lemma {:induction false} BothLoaded(ttl: int)
    ensures var repo := ChangesAfterZero();
            After(repo, ttl, [Miss(1, "t", 0)] + [Read(1, 0)] + [Miss(2, "t", 0)] + [Read(2, 1)])
              == State(map[], map[], map[1 := Load("t", OLD, 0), 2 := Load("t", NEW, 1)])
  {
    hide After, LastServed;
    var repo := ChangesAfterZero();
    var s1 := [] + [Miss(1, "t", 0)];
    var s2 := s1 + [Read(1, 0)];
    var s3 := s2 + [Miss(2, "t", 0)];
    NothingDone(repo, ttl);
    assert s1 == [Miss(1, "t", 0)];
    OneMore(repo, ttl, [], Miss(1, "t", 0));
    OneMore(repo, ttl, s1, Read(1, 0));
    OneMore(repo, ttl, s2, Miss(2, "t", 0));
    OneMore(repo, ttl, s3, Read(2, 1));
    assert After(repo, ttl, s1) == State(map[], map[1 := "t"], map[]);
    assert After(repo, ttl, s2) == State(map[], map[], map[1 := Load("t", OLD, 0)]);
    assert After(repo, ttl, s3) == State(map[], map[2 := "t"], map[1 := Load("t", OLD, 0)]);
  }

  lemma {:induction false} NothingDone(repo: Repository, ttl: int)
    ensures After(repo, ttl, []) == Init
  {
  }

  lemma {:induction false} SlowOverwriteRun(ttl: int, delay: int)
    requires 0 <= ttl && 1 <= delay
    ensures var repo := ChangesAfterZero();
            var steps := SlowOverwrite(ttl, delay);
            && After(repo, ttl, steps[..4]).loads == map[1 := Load("t", OLD, 0), 2 := Load("t", NEW, 1)]
            && After(repo, ttl, steps[..5]).loads == map[1 := Load("t", OLD, 0)]
            && LastServed(repo, ttl, steps) == Served("t", OLD, delay + ttl)
  {
    hide After, LastServed;
    var repo := ChangesAfterZero();
    var s4 := [Miss(1, "t", 0)] + [Read(1, 0)] + [Miss(2, "t", 0)] + [Read(2, 1)];
    var s5 := s4 + [Finish(2, 1)];
    var s6 := s5 + [Finish(1, delay)];
    var steps := SlowOverwrite(ttl, delay);
    assert steps[..4] == s4 && steps[..5] == s5;
    BothLoaded(ttl);
    OneMore(repo, ttl, s4, Finish(2, 1));
    OneMore(repo, ttl, s5, Finish(1, delay));
    OneMore(repo, ttl, s6, Hit("t", delay + ttl));
  }

  /** The documented claim that the lifetime bounds staleness is false for
      every positive delay: the list served at ttl + delay was last current
      ttl + delay before. */
  lemma {:induction false} LifetimeAloneIsNoBound(ttl: int, delay: int)
    requires 0 <= ttl && 1 <= delay
    ensures var repo := ChangesAfterZero();
            var served := LastServed(repo, ttl, SlowOverwrite(ttl, delay));
            && Timely(SlowOverwrite(ttl, delay)) && Prompt(repo, ttl, SlowOverwrite(ttl, delay), delay)
            && served == Served("t", OLD, delay + ttl)
            && (forall t :: repo("t", t) == OLD ==> ttl + delay <= served.now - t)
  {
    hide After, LastServed;
    SlowOverwriteRun(ttl, delay);
    assert NEW != OLD;
  }

  // ---- the exact bound

  /** In every timely run with loads at most so slow, whatever is served was the
      repository's at most `bound` ago. */
  ghost predicate StalenessIsAtMost(ttl: int, delay: int, bound: int) {
    forall repo, steps :: steps != [] && Timely(steps) && Prompt(repo, ttl, steps, delay) ==>
      ServedFresh(repo, LastServed(repo, ttl, steps), bound)
  }

  ghost predicate ServedFresh(repo: Repository, served: Served, bound: int) {
    served.Served? ==> CurrentBetween(repo, served.tenant, served.rules, served.now - bound, served.now)
  }

  /** One load as slow as allowed, served once more at the end of its lifetime. */
  function SlowLoad(ttl: int, delay: int): (steps: seq<Step>) {
    [Miss(1, "t", 0)] + [Read(1, 0)] + [Finish(1, delay)] + [Hit("t", delay + ttl)]
  }

  lemma {:induction false} SlowLoadRun(ttl: int, delay: int)
    requires 0 <= ttl && 0 <= delay
    ensures var repo := ChangesAfterZero();
            var steps := SlowLoad(ttl, delay);
            && Timely(steps) && Prompt(repo, ttl, steps, delay)
            && LastServed(repo, ttl, steps) == Served("t", OLD, delay + ttl)
  {
    hide After, LastServed;
    var repo := ChangesAfterZero();
    var s1 := [] + [Miss(1, "t", 0)];
    var s2 := s1 + [Read(1, 0)];
    var s3 := s2 + [Finish(1, delay)];
    var steps := SlowLoad(ttl, delay);
    assert s1 == [Miss(1, "t", 0)] && steps == s3 + [Hit("t", delay + ttl)] && steps[..2] == s2;
    NothingDone(repo, ttl);
    OneMore(repo, ttl, [], Miss(1, "t", 0));
    OneMore(repo, ttl, s1, Read(1, 0));
    OneMore(repo, ttl, s2, Finish(1, delay));
    OneMore(repo, ttl, s3, Hit("t", delay + ttl));
    assert After(repo, ttl, s2) == State(map[], map[], map[1 := Load("t", OLD, 0)]);
  }

  /** A bound below lifetime plus delay fails. */
  lemma {:induction false} SlowLoadIsStale(ttl: int, delay: int, bound: int)
    requires 0 <= ttl && 0 <= delay && bound < ttl + delay
    ensures !ServedFresh(ChangesAfterZero(), Served("t", OLD, delay + ttl), bound)
  {
    assert NEW != OLD;
  }

  lemma {:induction false} FreshEnough(repo: Repository, ttl: int, steps: seq<Step>, delay: int, bound: int)
    requires 0 <= ttl && steps != [] && Timely(steps) && Prompt(repo, ttl, steps, delay) && ttl + delay <= bound
    ensures ServedFresh(repo, LastServed(repo, ttl, steps), bound)
  {
    hide LastServed, Timely, Prompt;
    StalenessBound(repo, ttl, steps, delay);
    var served := LastServed(repo, ttl, steps);
    if served.Served? {
      var t :| served.now - ttl - delay <= t <= served.now && repo(served.tenant, t) == served.rules;
      assert served.now - bound <= t;
    }
  }

  /** EXACT STALENESS: lists served are at most `bound` old in every run with load
      delays up to `delay` if and only if `bound` is at least lifetime plus delay. */
  lemma {:induction false} StalenessIsExact(ttl: int, delay: int, bound: int)
    requires 0 <= ttl && 0 <= delay
    ensures StalenessIsAtMost(ttl, delay, bound) <==> ttl + delay <= bound
  {
    hide LastServed, Timely, Prompt, ServedFresh, SlowLoad;
    if ttl + delay <= bound {
      forall repo, steps | steps != [] && Timely(steps) && Prompt(repo, ttl, steps, delay)
        ensures ServedFresh(repo, LastServed(repo, ttl, steps), bound)
      {
        FreshEnough(repo, ttl, steps, delay, bound);
      }
    } else {
      SlowLoadRun(ttl, delay);
      SlowLoadIsStale(ttl, delay, bound);
      assert SlowLoad(ttl, delay) != [] by { SlowLoadSteps(ttl, delay); }
    }
  }

  lemma {:induction false} SlowLoadSteps(ttl: int, delay: int)
    ensures |SlowLoad(ttl, delay)| == 4
  {
  }
}
