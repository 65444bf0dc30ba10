/** One check from end to end: rules from the cache, the governing rule, one
    limiter call. */
module CheckService {
  import opened Text
  import opened Rules
  import opened Redis
  import opened Keys
  import opened Limiter
  import Resolver
  import RuleCache

  /** What a route without a rule gets: allowed, with every field zero. */
  const UNLIMITED := Decision(true, 0, 0, 0, 0, Other(""))

  /** Any limiter error reaches the caller as an unavailable backend. */
  function FailClosed(r: Result<Decision>): (mapped: Result<Decision>)
    ensures mapped.Failure? ==> mapped.error == BackendUnavailable
    ensures r.Success? ==> mapped == r
  {
    if r.Failure? then Failure(BackendUnavailable) else r
  }

  class Service {
    const cache: RuleCache.Cache
    const limiter: RateLimiter

    constructor (cache: RuleCache.Cache, limiter: RateLimiter)
      ensures this.cache == cache && this.limiter == limiter
    {
      this.cache, this.limiter := cache, limiter;
    }

    /** The rule list this call works with, None when it cannot be had. */
    ghost function RulesFor(tenant: Uuid, now: int, loaded: Option<seq<Rule>>)
      : (rules: Option<seq<Rule>>)
      reads cache
    {
      var cached := RuleCache.Current(cache.history, cache.ttl, tenant, now);
      if cached.Some? then cached else loaded
    }

    /** `cacheNow`, `loaded` and `setAt` are the cache's clock and the
        repository's answer; `nowMs` is the limiter's clock reading. */
    method Check(tenant: Uuid, route: string, subject: string, cost: int,
                 cacheNow: int, loaded: Option<seq<Rule>>, setAt: int, nowMs: int)
      returns (result: Result<Decision>)
      requires limiter.Valid() && cache.Valid()
      requires RulesFor(tenant, cacheNow, loaded).Some? ==>
                 forall r :: r in RulesFor(tenant, cacheNow, loaded).value ==> Usable(r)
      modifies cache, limiter.store`db
      ensures limiter.Valid() && cache.Valid()
      ensures cache.history == old(cache.history)
                + if RuleCache.Current(old(cache.history), cache.ttl, tenant, cacheNow).None? && loaded.Some?
                  then [RuleCache.Put(tenant, loaded.value, setAt)] else []
      ensures var rules := old(RulesFor(tenant, cacheNow, loaded));
              match rules
              case None => result == Failure(RulesUnavailable) && limiter.store.db == old(limiter.store.db)
              case Some(list) =>
                match Resolver.Choice(list, route)
                case None => result == Success(UNLIMITED) && limiter.store.db == old(limiter.store.db)
                case Some(rule) =>
                  var q := Request(TenantRouteKey(tenant, route, subject), rule, nowMs, limiter.store.clock, cost);
                  && Usable(rule)
                  && result == FailClosed(ReplyOfOne(limiter.hashing, old(limiter.store.db), q))
                  && limiter.store.db == DbAfterOne(limiter.hashing, old(limiter.store.db), q)
      ensures var rules, key := old(RulesFor(tenant, cacheNow, loaded)), TenantRouteKey(tenant, route, subject);
              rules.Some? ==>
                && ((forall r :: r in rules.value ==> !(r.enabled && Matches(r.pattern, route))) ==>
                      && result == Success(Decision(true, 0, 0, 0, 0, Other("")))
                      && limiter.store.db == old(limiter.store.db))
                && (Resolver.Choice(rules.value, route).Some? ==>
                      exists call ::
                        && CallStep(old(limiter.store.db), limiter.store.db,
                                    TokenBucketKey(limiter.hashing, key), SlidingWindowKeys(limiter.hashing, key),
                                    Resolver.Choice(rules.value, route).value, nowMs, limiter.store.clock, cost, call)
                        && result == if call.Success? then call else Failure(BackendUnavailable))
    {
      hide Resolver.Choice, ReplyOfOne, DbAfterOne, WellFormed, Hashing.Sound, CallStep;
      var charged := if cost <= 0 then 1 else cost;
      var rules := cache.ListByTenant(tenant, cacheNow, loaded, setAt);
      if rules.None? {
        return Failure(RulesUnavailable);
      }
      var rule := Resolver.Resolve(rules.value, route);
      if rule.None? {
        return Success(UNLIMITED);
      }
      Resolver.NoChoiceMeansNoMatch(rules.value, route);
      OneCall(limiter.hashing, limiter.store.db, Request(TenantRouteKey(tenant, route, subject), rule.value, nowMs,
                                                         limiter.store.clock, cost));
      ChargedTwice(limiter.hashing, limiter.store.db, TenantRouteKey(tenant, route, subject), rule.value, nowMs,
                   limiter.store.clock, cost);
      var decision := limiter.Check(TenantRouteKey(tenant, route, subject), rule.value, nowMs, charged);
      if decision.Failure? {
        return Failure(BackendUnavailable);
      }
      return decision;
    }
  }

  /** Defaulting the cost twice is defaulting it once. */
  lemma {:induction false} ChargedTwice(
    h: Hashing, db: Db, key: TenantRouteKey, rule: Rule, nowMs: int, at: int, cost: int)
    requires WellFormed(h, db) && Usable(rule)
    ensures var q := Request(key, rule, nowMs, at, cost);
            var q' := q.(cost := if cost <= 0 then 1 else cost);
            && WindowShape(db, SlidingWindowKeys(h, key)) && BucketShape(db, TokenBucketKey(h, key))
            && ReplyOfOne(h, db, q) == ReplyOfOne(h, db, q') && DbAfterOne(h, db, q) == DbAfterOne(h, db, q')
  {
    StepShapes(h, db, Request(key, rule, nowMs, at, cost));
  }
}
