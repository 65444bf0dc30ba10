/** End to end: what one tenant's route and subject see of a store that
    everybody shares. */
module SharedStore {
  import opened Text
  import opened Decisions
  import opened Rules
  import opened Redis
  import opened Keys
  import opened Limiter
  import SW = SlidingWindow
  import SL = SlidingWindowLog
  import SX = SlidingWindowExpiry
  import TB = TokenBucket
  import TX = TokenBucketExpiry

  function WindowChecks(qs: seq<Request>): (checks: seq<Check>)
    ensures |checks| == |qs| && forall i :: 0 <= i < |qs| ==> checks[i] == WindowCheck(qs[i])
  {
    seq(|qs|, i requires 0 <= i < |qs| => WindowCheck(qs[i]))
  }

  function BucketChecks(qs: seq<Request>): (checks: seq<Check>)
    ensures |checks| == |qs| && forall i :: 0 <= i < |qs| ==> checks[i] == BucketCheck(qs[i])
  {
    seq(|qs|, i requires 0 <= i < |qs| => BucketCheck(qs[i]))
  }

  function DecidedAll(replies: seq<Reply>, rule: Rule): (ds: seq<Result<Decision>>)
    ensures |ds| == |replies| && forall i :: 0 <= i < |ds| ==> ds[i] == Decided(replies[i], rule)
  {
    seq(|replies|, i requires 0 <= i < |replies| => Decided(replies[i], rule))
  }

  /** Every request is for this counter and under this rule. */
  ghost predicate AllUnder(h: Hashing, key: TenantRouteKey, rule: Rule, qs: seq<Request>) {
    forall q :: q in qs ==> q.rule == rule && SharesCounter(h, q.key, key)
  }

  /** This counter's requests reach the store window by window, and none of them
      meets keys dropped while they still counted.  Nothing is asked of any other
      counter's clocks. */
  ghost predicate WindowClocks(rule: Rule, mine: seq<Request>)
    requires WindowConfig(rule).Valid()
  {
    var c := WindowConfig(rule);
    SW.WindowOrdered(c, WindowChecks(mine)) && SX.NeverDropsEarly(c, WindowChecks(mine))
  }

  /** Readings in any order, as long as none meets a key dropped early. */
  ghost predicate BucketClocks(rule: Rule, mine: seq<Request>)
    requires BucketConfig(rule).Valid()
  {
    TX.NeverDropsEarly(BucketConfig(rule), BucketChecks(mine))
  }

  // ---- a counter on its own is the abstract run

  lemma {:induction false} SoleWindowRun(h: Hashing, key: TenantRouteKey, rule: Rule, qs: seq<Request>)
    requires h.Sound() && rule.algorithm == SlidingWindow && Usable(rule)
    requires AllUsable(qs) && AllUnder(h, key, rule, qs)
    ensures SharedReplies(h, qs) == DecidedAll(SX.CellRun(WindowConfig(rule), WindowChecks(qs)), rule)
    ensures WindowShape(SharedDb(h, qs), SlidingWindowKeys(h, key))
    ensures WindowCell(SharedDb(h, qs), SlidingWindowKeys(h, key))
         == SX.CellAfter(WindowConfig(rule), WindowChecks(qs))
  {
    hide Hashing.Sound, SlidingWindowKeys, TokenBucketKey, SharesCounter, PutWindow, SX.NextCell, SX.CellAnswer;
    hide Decided, WindowShape, BucketShape, WindowCell;
    StepShapes(h, SharedDb(h, qs), Request(key, rule, 0, 0, 1));
    if qs == [] {
      EmptyCell(SlidingWindowKeys(h, key));
    } else {
      var n := |qs| - 1;
      var init, q := qs[..n], qs[n];
      SoleWindowRun(h, key, rule, init);
      assert WindowChecks(init) == WindowChecks(qs)[..n];
      var db := SharedDb(h, init);
      assert q in qs;
      NamesIdentify(h, q.key, key);
      StepShapes(h, db, q);
      NextWindowKept(q, WindowCell(db, SlidingWindowKeys(h, key)));
      PutWindowIsLocal(h, db, q.key,
        SX.NextCell(WindowConfig(rule), WindowCell(db, SlidingWindowKeys(h, key)), WindowCheck(q)), key);
    }
  }

  lemma {:induction false} EmptyCell(ks: WindowKeys)
    ensures WindowShape(map[], ks) && WindowCell(map[], ks) == SX.Missing
  {
  }

  lemma {:induction false} SoleBucketRun(h: Hashing, key: TenantRouteKey, rule: Rule, qs: seq<Request>)
    requires h.Sound() && rule.algorithm == TokenBucket
    requires AllUsable(qs) && AllUnder(h, key, rule, qs)
    ensures SharedReplies(h, qs) == DecidedAll(TX.CellRun(BucketConfig(rule), BucketChecks(qs)), rule)
    ensures BucketShape(SharedDb(h, qs), TokenBucketKey(h, key))
    ensures BucketCell(SharedDb(h, qs), TokenBucketKey(h, key))
         == TX.CellAfter(BucketConfig(rule), BucketChecks(qs))
  {
    hide Hashing.Sound, SlidingWindowKeys, TokenBucketKey, SharesCounter, PutBucket, TX.NextCell, TX.CellAnswer;
    hide Decided, WindowShape, BucketShape, BucketCell;
    StepShapes(h, SharedDb(h, qs), Request(key, rule, 0, 0, 1));
    if qs == [] {
      EmptyBucket(TokenBucketKey(h, key));
    } else {
      var n := |qs| - 1;
      var init, q := qs[..n], qs[n];
      SoleBucketRun(h, key, rule, init);
      assert BucketChecks(init) == BucketChecks(qs)[..n];
      var db := SharedDb(h, init);
      assert q in qs;
      NamesIdentify(h, q.key, key);
      StepShapes(h, db, q);
      NextBucketKept(q, BucketCell(db, TokenBucketKey(h, key)));
      PutBucketIsLocal(h, db, q.key,
        TX.NextCell(BucketConfig(rule), BucketCell(db, TokenBucketKey(h, key)), BucketCheck(q)), key);
    }
  }

  lemma {:induction false} EmptyBucket(name: string)
    ensures BucketShape(map[], name) && BucketCell(map[], name) == TX.Missing
  {
  }

  // ---- the end-to-end statements

  /** The requests of one counter, in order. */
  function Mine(h: Hashing, key: TenantRouteKey, algorithm: Algorithm, qs: seq<Request>): (mine: seq<Request>) {
    Keep(qs, MaskOf(h, key, algorithm, qs))
  }

  /** The owners of these requests. */
  function OwnersOf(qs: seq<Request>): (keys: set<TenantRouteKey>) {
    set q | q in qs :: q.key
  }

  /** Where the texts in play do not collide, the requests of one counter are
      those of its owner and no others. */
  lemma {:induction false} MineIsOwn(h: Hashing, key: TenantRouteKey, algorithm: Algorithm, qs: seq<Request>)
    requires h.Sound() && CollisionFree(h, OwnersOf(qs) + {key})
    ensures |MaskOf(h, key, algorithm, qs)| == |qs|
    ensures forall i :: 0 <= i < |qs| ==>
              (MaskOf(h, key, algorithm, qs)[i] <==>
                 qs[i].rule.algorithm == algorithm && SameOwner(h, qs[i].key, key))
  {
    hide SameOwner, SharesCounter, CollisionFree, Hashing.Sound;
    if qs != [] {
      var init, q := qs[..|qs| - 1], qs[|qs| - 1];
      assert q in qs;
      assert forall p :: p in init ==> p in qs;
      FewerOwners(h, OwnersOf(init) + {key}, OwnersOf(qs) + {key});
      MineIsOwn(h, key, algorithm, init);
      OwnersKeepApart(h, OwnersOf(qs) + {key}, q.key, key);
    }
  }

  lemma {:induction false} FewerOwners(h: Hashing, some: set<TenantRouteKey>, all: set<TenantRouteKey>)
    requires some <= all && CollisionFree(h, all)
    ensures CollisionFree(h, some)
  {
  }

  /** The decisions those requests got. */
  ghost function MyDecisions(h: Hashing, key: TenantRouteKey, algorithm: Algorithm, qs: seq<Request>)
    : (decisions: seq<Result<Decision>>)
    requires h.Sound() && AllUsable(qs)
  {
    Keep(SharedReplies(h, qs), MaskOf(h, key, algorithm, qs))
  }

  /** SLIDING WINDOW, END TO END: in a store shared with any other traffic, and
      with keys that expire, one counter's decisions are those of a limiter
      that keeps the whole log of that counter's admissions. */
  lemma {:induction false} SharedWindowRefinesLog(h: Hashing, key: TenantRouteKey, rule: Rule, qs: seq<Request>)
    requires h.Sound() && AllUsable(qs) && rule.algorithm == SlidingWindow && Usable(rule)
    requires AllUnder(h, key, rule, Mine(h, key, SlidingWindow, qs))
    requires WindowClocks(rule, Mine(h, key, SlidingWindow, qs))
    ensures var checks := WindowChecks(Mine(h, key, SlidingWindow, qs));
            MyDecisions(h, key, SlidingWindow, qs) == DecidedAll(SL.LogRun(WindowConfig(rule), checks), rule)
  {
    hide Hashing.Sound, AllUnder, AllUsable;
    var mine := Mine(h, key, SlidingWindow, qs);
    Isolated(h, key, SlidingWindow, qs);
    SoleWindowRun(h, key, rule, mine);
    SX.ExpiryIsUnobservable(WindowConfig(rule), WindowChecks(mine));
  }

  /** What a counter's decisions let through. */
  function Granted(qs: seq<Request>, ds: seq<Result<Decision>>): (log: SL.Log)
    requires |qs| == |ds|
  {
    if qs == [] then []
    else
      var n := |qs| - 1;
      Granted(qs[..n], ds[..n])
      + if !ds[n].Success? || !ds[n].value.allowed then []
        else [SL.Entry(qs[n].nowMs / 1000, if qs[n].cost < 1 then 1 else qs[n].cost)]
  }

  lemma {:induction false} GrantedIsAdmitted(qs: seq<Request>, replies: seq<Reply>, rule: Rule)
    requires |qs| == |replies|
    ensures Granted(qs, DecidedAll(replies, rule)) == SX.Admitted(WindowChecks(qs), replies)
  {
    if qs != [] {
      var n := |qs| - 1;
      GrantedIsAdmitted(qs[..n], replies[..n], rule);
      assert DecidedAll(replies, rule)[..n] == DecidedAll(replies[..n], rule);
      assert WindowChecks(qs)[..n] == WindowChecks(qs[..n]);
    }
  }

  /** SAFETY, END TO END: whatever else the store serves, the cost let through
      for one counter within one window's length stays within the bound. */
  lemma {:induction false} SharedWindowNoBurst(
    h: Hashing, key: TenantRouteKey, rule: Rule, qs: seq<Request>, w: int, s: int)
    requires h.Sound() && AllUsable(qs) && rule.algorithm == SlidingWindow && Usable(rule)
    requires AllUnder(h, key, rule, Mine(h, key, SlidingWindow, qs))
    requires WindowClocks(rule, Mine(h, key, SlidingWindow, qs))
    requires 0 <= s < rule.windowSeconds
    ensures |Mine(h, key, SlidingWindow, qs)| == |MyDecisions(h, key, SlidingWindow, qs)|
    ensures var W := rule.windowSeconds;
            var log := Granted(Mine(h, key, SlidingWindow, qs), MyDecisions(h, key, SlidingWindow, qs));
            var span := SL.SumIn(log, w * W + s, (w + 1) * W + s);
            && (s == 0 ==> span <= rule.limitCount)
            && (0 < s ==> W * span <= W * rule.limitCount + rule.limitCount * (s - 1))
            && span < 2 * rule.limitCount
  {
    hide Hashing.Sound, AllUnder, AllUsable, SharedReplies, SX.CellRun, SL.LogRun;
    var mine := Mine(h, key, SlidingWindow, qs);
    var c := WindowConfig(rule);
    SharedWindowRefinesLog(h, key, rule, qs);
    SX.ExpiryIsUnobservable(c, WindowChecks(mine));
    GrantedIsAdmitted(mine, SX.CellRun(c, WindowChecks(mine)), rule);
    SX.NoBoundaryBurst(c, WindowChecks(mine), w, s);
  }

  lemma {:induction false} SharedBucketRun(
    h: Hashing, key: TenantRouteKey, rule: Rule, qs: seq<Request>)
    requires h.Sound() && AllUsable(qs) && rule.algorithm == TokenBucket
    requires AllUnder(h, key, rule, Mine(h, key, TokenBucket, qs))
    ensures MyDecisions(h, key, TokenBucket, qs)
         == DecidedAll(TX.CellRun(BucketConfig(rule), BucketChecks(Mine(h, key, TokenBucket, qs))), rule)
  {
    hide Hashing.Sound, AllUnder, AllUsable, SharedReplies, TX.CellRun;
    Isolated(h, key, TokenBucket, qs);
    SoleBucketRun(h, key, rule, Mine(h, key, TokenBucket, qs));
  }

  /** TOKEN BUCKET, END TO END: in a store shared with any other traffic, one
      counter's check is allowed if and only if that counter's own history
      leaves room for it. */
  lemma {:induction false} SharedBucketDecidesAsHistory(
    h: Hashing, key: TenantRouteKey, rule: Rule, qs: seq<Request>, n: nat)
    requires h.Sound() && AllUsable(qs) && rule.algorithm == TokenBucket && BucketConfig(rule).Valid()
    requires AllUnder(h, key, rule, Mine(h, key, TokenBucket, qs))
    requires BucketClocks(rule, Mine(h, key, TokenBucket, qs))
    requires n < |Mine(h, key, TokenBucket, qs)|
    ensures |MyDecisions(h, key, TokenBucket, qs)| == |Mine(h, key, TokenBucket, qs)|
    ensures var checks := BucketChecks(Mine(h, key, TokenBucket, qs));
            var d := MyDecisions(h, key, TokenBucket, qs)[n];
            && d.Success?
            && (d.value.allowed <==>
                  TB.HistoryAllows(BucketConfig(rule), checks, TX.CellRun(BucketConfig(rule), checks), n))
  {
    hide Hashing.Sound, AllUnder, AllUsable, SharedReplies, TX.CellRun, TB.HistoryAllows, Mine;
    var mine := Mine(h, key, TokenBucket, qs);
    SharedBucketRun(h, key, rule, qs);
    TX.StoredBucketDecidesAsHistory(BucketConfig(rule), BucketChecks(mine), n);
  }

  // ---- the same in the requests' and the rule's own fields

  lemma {:induction false} GrantedPrefix(qs: seq<Request>, replies: seq<Reply>, rule: Rule, n: nat)
    requires |qs| == |replies| && n <= |qs|
    ensures DecidedAll(replies, rule)[..n] == DecidedAll(replies[..n], rule)
    ensures WindowChecks(qs)[..n] == WindowChecks(qs[..n])
  {
  }

  /** WINDOW, IN THE CALLER'S TERMS: what a counter has been granted in the aligned
      window before the request's and in its own decides the request, with a cost
      below one counted as one and the time in whole seconds. */
  lemma {:induction false} SharedWindowDecision(
    h: Hashing, key: TenantRouteKey, rule: Rule, qs: seq<Request>, n: nat)
    requires h.Sound() && AllUsable(qs) && rule.algorithm == SlidingWindow && Usable(rule)
    requires AllUnder(h, key, rule, Mine(h, key, SlidingWindow, qs))
    requires WindowClocks(rule, Mine(h, key, SlidingWindow, qs))
    requires n < |Mine(h, key, SlidingWindow, qs)|
    ensures |MyDecisions(h, key, SlidingWindow, qs)| == |Mine(h, key, SlidingWindow, qs)|
    ensures var mine, ds := Mine(h, key, SlidingWindow, qs), MyDecisions(h, key, SlidingWindow, qs);
            var now, W, cost := mine[n].nowMs / 1000, rule.windowSeconds, if mine[n].cost < 1 then 1 else mine[n].cost;
            var w, log := now / W, Granted(mine[..n], ds[..n]);
            var before, sofar := SL.SumIn(log, (w - 1) * W, w * W), SL.SumIn(log, w * W, (w + 1) * W);
            && ds[n].Success?
            && (ds[n].value.allowed <==> before * (W - now % W) + (sofar + cost) * W <= rule.limitCount * W)
            && exists reply :: SX.ReplyFor(rule.limitCount, W, before, sofar, now, cost, reply)
                 && Reports(ds[n], reply, rule.limitCount, SlidingWindow)
  {
    hide Hashing.Sound, AllUnder, AllUsable, SharedReplies, SX.CellRun, SL.LogRun, SL.SumIn, SX.ReplyFor, Mine;
    hide SX.Admitted, SW.WindowOrdered, SX.NeverDropsEarly, MyDecisions, Granted;
    var c, mine := WindowConfig(rule), Mine(h, key, SlidingWindow, qs);
    var replies := SX.CellRun(c, WindowChecks(mine));
    SharedWindowRefinesLog(h, key, rule, qs);
    SX.ExpiryIsUnobservable(c, WindowChecks(mine));
    GrantedPrefix(mine, replies, rule, n);
    GrantedIsAdmitted(mine[..n], replies[..n], rule);
    SX.StoredReplyIs(c, WindowChecks(mine), n);
    assert Reports(Decided(replies[n], rule), replies[n], rule.limitCount, SlidingWindow);
  }

  /** The cost granted to requests k, ..., n - 1. */
  function GrantedCost(qs: seq<Request>, ds: seq<Result<Decision>>, k: nat, n: nat): (total: int)
    requires n <= |qs| == |ds|
  {
    if n <= k then 0
    else
      GrantedCost(qs, ds, k, n - 1)
      + if !ds[n - 1].Success? || !ds[n - 1].value.allowed then 0
        else if qs[n - 1].cost < 1 then 1 else qs[n - 1].cost
  }

  /** The milliseconds by which the times of requests k, ..., n - 1 step up. */
  function StepsUp(qs: seq<Request>, k: nat, n: nat): (ms: int)
    requires n <= |qs|
  {
    if n <= k + 1 then 0
    else
      StepsUp(qs, k, n - 1)
      + if qs[n - 2].nowMs < qs[n - 1].nowMs then qs[n - 1].nowMs - qs[n - 2].nowMs else 0
  }

  lemma {:induction false} SameSums(qs: seq<Request>, replies: seq<Reply>, rule: Rule, k: nat, n: nat)
    requires n <= |qs| == |replies|
    ensures GrantedCost(qs, DecidedAll(replies, rule), k, n) == TB.Spent(BucketChecks(qs), replies, k, n)
    ensures StepsUp(qs, k, n) == TB.Climb(BucketChecks(qs), k, n)
    decreases n
  {
    if k < n {
      SameSums(qs, replies, rule, k, n - 1);
    }
  }

  /** From request k on, what was granted and the cost of request n fit into the
      rule's capacity and its refill of the clock's upward steps. */
  predicate FitsSince(qs: seq<Request>, ds: seq<Result<Decision>>, rule: Rule, k: nat, n: nat)
    requires k <= n < |qs| == |ds|
  {
    GrantedCost(qs, ds, k, n) as real + (if qs[n].cost < 1 then 1 else qs[n].cost) as real
    <= rule.bucketCapacity as real + rule.refillRate * (StepsUp(qs, k, n + 1) as real / 1000.0)
  }

  lemma {:induction false} FitsIs(qs: seq<Request>, replies: seq<Reply>, rule: Rule, k: nat, n: nat)
    requires k <= n < |qs| == |replies|
    ensures var c, checks := BucketConfig(rule), BucketChecks(qs);
            FitsSince(qs, DecidedAll(replies, rule), rule, k, n)
            <==> TB.Spent(checks, replies, k, n) as real + checks[n].cost as real
                 <= c.capacity as real + TB.Refill(c, TB.Climb(checks, k, n + 1))
  {
    hide TB.Refill, TB.Spent, TB.Climb, GrantedCost, StepsUp, DecidedAll;
    SameSums(qs, replies, rule, k, n);
    SameSums(qs, replies, rule, k, n + 1);
    RefillIs(BucketConfig(rule), StepsUp(qs, k, n + 1));
  }

  lemma {:induction false} RefillIs(c: TB.Config, ms: int)
    ensures TB.Refill(c, ms) == c.rate * (ms as real / 1000.0)
  {
  }

  lemma {:induction false} HistoryFits(qs: seq<Request>, replies: seq<Reply>, rule: Rule, n: nat)
    requires n < |qs| == |replies|
    ensures TB.HistoryAllows(BucketConfig(rule), BucketChecks(qs), replies, n)
       <==> forall k :: 0 <= k <= n ==> FitsSince(qs, DecidedAll(replies, rule), rule, k, n)
  {
    hide FitsSince, TB.Spent, TB.Refill, TB.Climb;
    forall k | 0 <= k <= n
      ensures var c, checks := BucketConfig(rule), BucketChecks(qs);
              FitsSince(qs, DecidedAll(replies, rule), rule, k, n)
              <==> TB.Spent(checks, replies, k, n) as real + checks[n].cost as real
                   <= c.capacity as real + TB.Refill(c, TB.Climb(checks, k, n + 1))
    {
      FitsIs(qs, replies, rule, k, n);
    }
  }

  /** BUCKET, IN THE CALLER'S TERMS: a request is allowed exactly if from each earlier
      request of the counter and from itself on, the granted costs and its own fit
      into the capacity and the refill of the upward steps of the clock. */
  lemma {:induction false} SharedBucketDecision(
    h: Hashing, key: TenantRouteKey, rule: Rule, qs: seq<Request>, n: nat)
    requires h.Sound() && AllUsable(qs) && rule.algorithm == TokenBucket
    requires 0 < rule.bucketCapacity && 0.0 < rule.refillRate
    requires AllUnder(h, key, rule, Mine(h, key, TokenBucket, qs))
    requires BucketClocks(rule, Mine(h, key, TokenBucket, qs))
    requires n < |Mine(h, key, TokenBucket, qs)|
    ensures |MyDecisions(h, key, TokenBucket, qs)| == |Mine(h, key, TokenBucket, qs)|
    ensures var mine, ds := Mine(h, key, TokenBucket, qs), MyDecisions(h, key, TokenBucket, qs);
            && ds[n].Success? && ds[n].value.limit == rule.bucketCapacity && ds[n].value.algorithm == TokenBucket
            && (ds[n].value.allowed <==> forall k :: 0 <= k <= n ==> FitsSince(mine, ds, rule, k, n))
  {
    hide Hashing.Sound, AllUnder, AllUsable, SharedReplies, TX.CellRun, Mine, MyDecisions, FitsSince;
    hide TB.HistoryAllows, TX.NeverDropsEarly;
    var c, mine := BucketConfig(rule), Mine(h, key, TokenBucket, qs);
    SharedBucketRun(h, key, rule, qs);
    TX.StoredBucketDecidesAsHistory(c, BucketChecks(mine), n);
    HistoryFits(mine, TX.CellRun(c, BucketChecks(mine)), rule, n);
  }
}
