/** The limiter front end over one shared store: it picks the script by the
    rule, builds the key names, and parses the reply.  Runs of requests by many
    owners over the shared store are isolated from each other. */
module Limiter {
  import opened Text
  import opened Decisions
  import opened Rules
  import opened Redis
  import opened Keys
  import SW = SlidingWindow
  import SX = SlidingWindowExpiry
  import TB = TokenBucket
  import TX = TokenBucketExpiry

  datatype Decision = Decision(
    allowed: bool, limit: int, remaining: int, resetAt: int, retryAfter: int, algorithm: Algorithm)

  datatype Error = UnsupportedAlgorithm(name: string) | BackendUnavailable | RulesUnavailable

  datatype Result<+T> = Success(value: T) | Failure(error: Error)

  /** One call of the limiter: `nowMs` is the caller's own clock reading, `at`
      the store's clock when the script runs. */
  datatype Request = Request(key: TenantRouteKey, rule: Rule, nowMs: int, at: int, cost: int)

  function ChargedCost(cost: int): (charged: Cost) {
    if cost <= 0 then 1 else cost
  }

  /** Validation keeps window rules with nonpositive numbers out of the store. */
  predicate Usable(rule: Rule) {
    rule.algorithm == SlidingWindow ==> 0 < rule.limitCount && 0 < rule.windowSeconds
  }

  function WindowConfig(rule: Rule): (c: SW.Config) {
    SW.Config(rule.limitCount, rule.windowSeconds)
  }

  function BucketConfig(rule: Rule): (c: TB.Config) {
    TB.Config(rule.bucketCapacity, rule.refillRate)
  }

  /** The check a script sees: whole seconds for the window, milliseconds for
      the bucket. */
  function WindowCheck(q: Request): (k: Check) {
    Check(q.nowMs / 1000, q.at, ChargedCost(q.cost))
  }

  function BucketCheck(q: Request): (k: Check) {
    Check(q.nowMs, q.at, ChargedCost(q.cost))
  }

  // ---- replies on the wire

  function Wire(reply: Reply): (numbers: seq<int>) {
    [if reply.allowed then 1 else 0, reply.remaining, reply.resetAt, reply.retryAfter]
  }

  function ParseDecision(result: seq<int>, rule: Rule): (parsed: Result<Decision>) {
    if |result| < 4 then Failure(BackendUnavailable)
    else
      Success(Decision(result[0] == 1, Limit(rule), if result[1] < 0 then 0 else result[1],
                       result[2], result[3], rule.algorithm))
  }

  /** The decision a script reply stands for. */
  function Decided(reply: Reply, rule: Rule): (decided: Result<Decision>) {
    ParseDecision(Wire(reply), rule)
  }

  /** Round trip: a script's four numbers come back as the decision's fields,
      with the limit of the rule's own algorithm; anything shorter is refused. */
  lemma {:induction false} WireRoundTrip(reply: Reply, rule: Rule, cut: nat)
    requires cut < 4
    ensures 0 <= reply.remaining ==>
              Decided(reply, rule) == Success(Decision(
                reply.allowed, if rule.algorithm == TokenBucket then rule.bucketCapacity else rule.limitCount,
                reply.remaining, reply.resetAt, reply.retryAfter, rule.algorithm))
    ensures ParseDecision(Wire(reply)[..cut], rule) == Failure(BackendUnavailable)
  {
    assert Wire(reply)[0] == 1 <==> reply.allowed;
  }

  /** The positions on the wire: any reply of at least four numbers is read as
      allowed, remaining, reset and retry, with nothing negative remaining. */
  lemma {:induction false} WirePositions(result: seq<int>, reply: Reply, rule: Rule)
    ensures Wire(reply) == [if reply.allowed then 1 else 0, reply.remaining, reply.resetAt, reply.retryAfter]
    ensures |result| < 4 ==> ParseDecision(result, rule) == Failure(BackendUnavailable)
    ensures 4 <= |result| ==>
              var parsed := ParseDecision(result, rule);
              && parsed.Success?
              && (parsed.value.allowed <==> result[0] == 1)
              && parsed.value.remaining == (if result[1] < 0 then 0 else result[1])
              && parsed.value.resetAt == result[2] && parsed.value.retryAfter == result[3]
              && parsed.value.algorithm == rule.algorithm
              && parsed.value.limit == if rule.algorithm == TokenBucket then rule.bucketCapacity else rule.limitCount
  {
  }

  // ---- the store as a whole

  /** Every name a key can produce holds what its script expects, so that no
      script ever meets a value of the wrong type. */
  ghost predicate WellFormed(h: Hashing, db: Db) {
    forall key: TenantRouteKey ::
      WindowShape(db, SlidingWindowKeys(h, key)) && BucketShape(db, TokenBucketKey(h, key))
  }

  function DbAfterOne(h: Hashing, db: Db, q: Request): (db': Db)
    requires Usable(q.rule)
    requires WindowShape(db, SlidingWindowKeys(h, q.key)) && BucketShape(db, TokenBucketKey(h, q.key))
  {
    match q.rule.algorithm
    case TokenBucket =>
      var name := TokenBucketKey(h, q.key);
      PutBucket(db, name, TX.NextCell(BucketConfig(q.rule), BucketCell(db, name), BucketCheck(q)))
    case SlidingWindow =>
      var names := SlidingWindowKeys(h, q.key);
      PutWindow(db, names, SX.NextCell(WindowConfig(q.rule), WindowCell(db, names), WindowCheck(q)))
    case Other(_) => db
  }

  function ReplyOfOne(h: Hashing, db: Db, q: Request): (reply: Result<Decision>)
    requires Usable(q.rule)
    requires WindowShape(db, SlidingWindowKeys(h, q.key)) && BucketShape(db, TokenBucketKey(h, q.key))
  {
    match q.rule.algorithm
    case TokenBucket =>
      Decided(TX.CellAnswer(BucketConfig(q.rule), BucketCell(db, TokenBucketKey(h, q.key)), BucketCheck(q)), q.rule)
    case SlidingWindow =>
      Decided(SX.CellAnswer(WindowConfig(q.rule), WindowCell(db, SlidingWindowKeys(h, q.key)), WindowCheck(q)), q.rule)
    case Other(name) => Failure(UnsupportedAlgorithm(name))
  }

  // ---- one call, in the request's and the rule's own fields

  /** The decision a caller gets for a script's answer. */
  ghost predicate Reports(result: Result<Decision>, reply: Reply, limit: int, algorithm: Algorithm) {
    && result.Success?
    && var d := result.value;
       && d.allowed == reply.allowed && d.limit == limit && d.algorithm == algorithm
       && d.remaining == (if reply.remaining < 0 then 0 else reply.remaining)
       && d.resetAt == reply.resetAt && d.retryAfter == reply.retryAfter
  }

  /** One call takes `db` to `db'`: a cost below one counts as one, the bucket works
      in milliseconds and the window in whole seconds, each on its own keys; an
      unknown algorithm is refused and writes nothing. */
  ghost predicate CallStep(
    db: Db, db': Db, bucket: string, window: WindowKeys, rule: Rule, nowMs: int, clock: int, cost: int,
    result: Result<Decision>)
    requires Usable(rule) && BucketShape(db, bucket) && WindowShape(db, window)
  {
    var charged := if cost < 1 then 1 else cost;
    match rule.algorithm
    case TokenBucket =>
      exists reply :: Reports(result, reply, rule.bucketCapacity, TokenBucket)
        && BucketStep(db, db', bucket, rule.bucketCapacity, rule.refillRate, nowMs, clock, charged, reply)
    case SlidingWindow =>
      exists reply :: Reports(result, reply, rule.limitCount, SlidingWindow)
        && WindowStep(db, db', window, rule.limitCount, rule.windowSeconds, nowMs / 1000, clock, charged, reply)
    case Other(name) => result == Failure(UnsupportedAlgorithm(name)) && db' == db
  }

  lemma {:induction false} OneCall(h: Hashing, db: Db, q: Request)
    requires h.Sound() && WellFormed(h, db) && Usable(q.rule)
    ensures BucketShape(db, TokenBucketKey(h, q.key)) && WindowShape(db, SlidingWindowKeys(h, q.key))
    ensures CallStep(db, DbAfterOne(h, db, q), TokenBucketKey(h, q.key), SlidingWindowKeys(h, q.key), q.rule, q.nowMs,
                     q.at, q.cost, ReplyOfOne(h, db, q))
  {
    hide Hashing.Sound, SlidingWindowKeys, TokenBucketKey, PutWindow, PutBucket, WindowStep, BucketStep;
    hide SX.NextCell, TX.NextCell, SX.CellAnswer, TX.CellAnswer, WindowShape, BucketShape, WellFormed;
    StepShapes(h, db, q);
    NamesIdentify(h, q.key, q.key);
    var rule := q.rule;
    match rule.algorithm {
      case TokenBucket =>
        var bucket := TokenBucketKey(h, q.key);
        BucketScript(db, bucket, rule.bucketCapacity, rule.refillRate, BucketCheck(q));
        var reply := TX.CellAnswer(BucketConfig(rule), BucketCell(db, bucket), BucketCheck(q));
        assert Reports(Decided(reply, rule), reply, rule.bucketCapacity, TokenBucket);
      case SlidingWindow =>
        var window := SlidingWindowKeys(h, q.key);
        WindowScript(db, window, rule.limitCount, rule.windowSeconds, WindowCheck(q));
        var reply := SX.CellAnswer(WindowConfig(rule), WindowCell(db, window), WindowCheck(q));
        assert Reports(Decided(reply, rule), reply, rule.limitCount, SlidingWindow);
      case Other(_) =>
    }
  }

  class RateLimiter {
    const store: Store
    const hashing: Hashing

    constructor (store: Store, hashing: Hashing)
      ensures this.store == store && this.hashing == hashing
    {
      this.store, this.hashing := store, hashing;
    }

    ghost predicate Valid()
      reads this, store
    {
      hashing.Sound() && WellFormed(hashing, store.db)
    }

    /** Clock reading, then one atomic script. */
    method Check(key: TenantRouteKey, rule: Rule, nowMs: int, cost: int) returns (result: Result<Decision>)
      requires Valid() && Usable(rule)
      modifies store`db
      ensures Valid()
      ensures var q := Request(key, rule, nowMs, store.clock, cost);
              && result == ReplyOfOne(hashing, old(store.db), q)
              && store.db == DbAfterOne(hashing, old(store.db), q)
      ensures CallStep(old(store.db), store.db, TokenBucketKey(hashing, key), SlidingWindowKeys(hashing, key), rule,
                       nowMs, store.clock, cost, result)
    {
      hide WindowShape, BucketShape, Hashing.Sound, SlidingWindowKeys, TokenBucketKey;
      hide SX.NextCell, TX.NextCell, SX.CellAnswer, TX.CellAnswer, PutWindow, PutBucket;
      hide CallStep, WindowStep, BucketStep;
      OneCall(hashing, store.db, Request(key, rule, nowMs, store.clock, cost));
      var charged := if cost <= 0 then 1 else cost;
      NamesIdentify(hashing, key, key);
      OneKeepsWellFormed(hashing, store.db, Request(key, rule, nowMs, store.clock, cost));
      match rule.algorithm {
        case TokenBucket =>
          var reply := store.EvalTokenBucket(TokenBucketKey(hashing, key), rule.bucketCapacity, rule.refillRate,
                                             nowMs, charged);
          result := ParseDecision(Wire(reply), rule);
        case SlidingWindow =>
          var nowSec := nowMs / 1000;
          var reply := store.EvalSlidingWindow(SlidingWindowKeys(hashing, key), rule.limitCount, rule.windowSeconds,
                                               nowSec, charged);
          result := ParseDecision(Wire(reply), rule);
        case Other(name) =>
          result := Failure(UnsupportedAlgorithm(name));
      }
    }
  }

  // ---- one request touches one owner's counters

  /** A window write leaves every other owner's window cell, and every bucket
      cell, as they were. */
  lemma {:induction false} PutWindowIsLocal(
    h: Hashing, db: Db, key: TenantRouteKey, cell: SX.Cell, other: TenantRouteKey)
    requires h.Sound() && WellFormed(h, db) && cell.Kept?
    ensures var db' := PutWindow(db, SlidingWindowKeys(h, key), cell);
            && WindowShape(db', SlidingWindowKeys(h, other)) && BucketShape(db', TokenBucketKey(h, other))
            && BucketCell(db', TokenBucketKey(h, other)) == BucketCell(db, TokenBucketKey(h, other))
            && WindowCell(db', SlidingWindowKeys(h, other))
               == if SharesCounter(h, key, other) then cell else WindowCell(db, SlidingWindowKeys(h, other))
  {
    hide SlidingWindowKeys, TokenBucketKey, SharesCounter, Hashing.Sound;
    NamesIdentify(h, key, other);
    NamesIdentify(h, other, key);
    var mine, theirs, bucket := SlidingWindowKeys(h, key), SlidingWindowKeys(h, other), TokenBucketKey(h, other);
    assert WindowShape(db, theirs) && BucketShape(db, bucket);
    PutWindowThenLook(db, mine, cell);
    if !SharesCounter(h, key, other) {
      assert {theirs.curr, theirs.prev, theirs.idx} == WindowNames(h, other);
      assert theirs.curr in WindowNames(h, other) && theirs.prev in WindowNames(h, other);
      assert theirs.idx in WindowNames(h, other);
    }
  }

  lemma {:induction false} PutBucketIsLocal(
    h: Hashing, db: Db, key: TenantRouteKey, cell: TX.Cell, other: TenantRouteKey)
    requires h.Sound() && WellFormed(h, db) && cell.Kept?
    ensures var db' := PutBucket(db, TokenBucketKey(h, key), cell);
            && WindowShape(db', SlidingWindowKeys(h, other)) && BucketShape(db', TokenBucketKey(h, other))
            && WindowCell(db', SlidingWindowKeys(h, other)) == WindowCell(db, SlidingWindowKeys(h, other))
            && BucketCell(db', TokenBucketKey(h, other))
               == if SharesCounter(h, key, other) then cell else BucketCell(db, TokenBucketKey(h, other))
  {
    hide SlidingWindowKeys, TokenBucketKey, SharesCounter, Hashing.Sound;
    NamesIdentify(h, key, other);
    var theirs := SlidingWindowKeys(h, other);
    assert WindowShape(db, theirs) && BucketShape(db, TokenBucketKey(h, other));
    assert TokenBucketKey(h, key) !in WindowNames(h, other);
  }

  lemma {:induction false} OneKeepsWellFormed(h: Hashing, db: Db, q: Request)
    requires h.Sound() && WellFormed(h, db) && Usable(q.rule)
    ensures WellFormed(h, DbAfterOne(h, db, q))
  {
    hide SlidingWindowKeys, TokenBucketKey, Hashing.Sound, WindowShape, BucketShape, PutWindow, PutBucket;
    forall other: TenantRouteKey
      ensures WindowShape(DbAfterOne(h, db, q), SlidingWindowKeys(h, other))
           && BucketShape(DbAfterOne(h, db, q), TokenBucketKey(h, other))
    {
      assert WindowShape(db, SlidingWindowKeys(h, q.key));
      match q.rule.algorithm {
        case TokenBucket =>
          var name := TokenBucketKey(h, q.key);
          PutBucketIsLocal(h, db, q.key, TX.NextCell(BucketConfig(q.rule),
            BucketCell(db, name), BucketCheck(q)), other);
        case SlidingWindow =>
          var names := SlidingWindowKeys(h, q.key);
          PutWindowIsLocal(h, db, q.key,
            SX.NextCell(WindowConfig(q.rule), WindowCell(db, names), WindowCheck(q)), other);
        case Other(_) =>
          assert WindowShape(db, SlidingWindowKeys(h, other));
      }
    }
  }

  // ---- runs over the shared store

  ghost predicate AllUsable(qs: seq<Request>) {
    forall q :: q in qs ==> Usable(q.rule)
  }

  lemma {:induction false} EmptyIsWellFormed(h: Hashing)
    ensures WellFormed(h, map[])
  {
    hide SlidingWindowKeys, TokenBucketKey;
  }

  lemma {:induction false} StepShapes(h: Hashing, db: Db, q: Request)
    requires WellFormed(h, db)
    ensures WindowShape(db, SlidingWindowKeys(h, q.key)) && BucketShape(db, TokenBucketKey(h, q.key))
  {
    hide SlidingWindowKeys, TokenBucketKey, WindowShape, BucketShape;
  }

  ghost function SharedDb(h: Hashing, qs: seq<Request>): (db: Db)
    requires h.Sound() && AllUsable(qs)
    ensures WellFormed(h, db)
  {
    hide Hashing.Sound, WellFormed, SlidingWindowKeys, TokenBucketKey, WindowShape, BucketShape, DbAfterOne;
    if qs == [] then
      EmptyIsWellFormed(h);
      map[]
    else
      var db := SharedDb(h, qs[..|qs| - 1]);
      StepShapes(h, db, qs[|qs| - 1]);
      OneKeepsWellFormed(h, db, qs[|qs| - 1]);
      DbAfterOne(h, db, qs[|qs| - 1])
  }

  ghost function SharedReplies(h: Hashing, qs: seq<Request>): (replies: seq<Result<Decision>>)
    requires h.Sound() && AllUsable(qs)
    ensures |replies| == |qs|
  {
    if qs == [] then []
    else
      var init, q := qs[..|qs| - 1], qs[|qs| - 1];
      StepShapes(h, SharedDb(h, init), q);
      SharedReplies(h, init) + [ReplyOfOne(h, SharedDb(h, init), q)]
  }

  /** The requests charged to one counter: an owner under one algorithm. */
  predicate ChargedTo(h: Hashing, key: TenantRouteKey, algorithm: Algorithm, q: Request) {
    q.rule.algorithm == algorithm && SharesCounter(h, q.key, key)
  }

  function MaskOf(h: Hashing, key: TenantRouteKey, algorithm: Algorithm, qs: seq<Request>): (mask: seq<bool>)
    ensures |mask| == |qs|
  {
    if qs == [] then []
    else MaskOf(h, key, algorithm, qs[..|qs| - 1]) + [ChargedTo(h, key, algorithm, qs[|qs| - 1])]
  }

  /** Two stores that look the same to one counter. */
  ghost predicate SameCounter(h: Hashing, key: TenantRouteKey, algorithm: Algorithm, db: Db, db': Db)
    requires WellFormed(h, db) && WellFormed(h, db')
  {
    match algorithm
    case TokenBucket => BucketCell(db, TokenBucketKey(h, key)) == BucketCell(db', TokenBucketKey(h, key))
    case SlidingWindow => WindowCell(db, SlidingWindowKeys(h, key)) == WindowCell(db', SlidingWindowKeys(h, key))
    case Other(_) => true
  }

  /** A request on another counter is invisible to this one. */
  lemma {:induction false} OtherRequestInvisible(
    h: Hashing, key: TenantRouteKey, algorithm: Algorithm, db: Db, q: Request)
    requires h.Sound() && WellFormed(h, db) && Usable(q.rule) && !ChargedTo(h, key, algorithm, q)
    ensures WellFormed(h, DbAfterOne(h, db, q))
    ensures SameCounter(h, key, algorithm, DbAfterOne(h, db, q), db)
  {
    hide SlidingWindowKeys, TokenBucketKey, Hashing.Sound, WindowShape, BucketShape, PutWindow, PutBucket;
    hide WindowCell, BucketCell, SharesCounter;
    OneKeepsWellFormed(h, db, q);
    assert WindowShape(db, SlidingWindowKeys(h, q.key)) && WindowShape(db, SlidingWindowKeys(h, key));
    match q.rule.algorithm {
      case TokenBucket =>
        var name := TokenBucketKey(h, q.key);
        PutBucketIsLocal(h, db, q.key, TX.NextCell(BucketConfig(q.rule), BucketCell(db, name), BucketCheck(q)), key);
      case SlidingWindow =>
        var names := SlidingWindowKeys(h, q.key);
        PutWindowIsLocal(h, db, q.key, SX.NextCell(WindowConfig(q.rule), WindowCell(db, names), WindowCheck(q)), key);
      case Other(_) =>
    }
  }

  /** A request on this counter depends on, and changes, only its cell. */
  lemma {:induction false} OwnRequestLocal(
    h: Hashing, key: TenantRouteKey, algorithm: Algorithm, db: Db, db': Db, q: Request)
    requires h.Sound() && WellFormed(h, db) && WellFormed(h, db') && Usable(q.rule) && ChargedTo(h, key, algorithm, q)
    requires SameCounter(h, key, algorithm, db, db')
    ensures WellFormed(h, DbAfterOne(h, db, q)) && WellFormed(h, DbAfterOne(h, db', q))
    ensures SameCounter(h, key, algorithm, DbAfterOne(h, db, q), DbAfterOne(h, db', q))
    ensures ReplyOfOne(h, db, q) == ReplyOfOne(h, db', q)
  {
    hide SlidingWindowKeys, TokenBucketKey, Hashing.Sound, WindowShape, BucketShape, PutWindow, PutBucket;
    hide WindowCell, BucketCell, SharesCounter, SX.NextCell, TX.NextCell, SX.CellAnswer, TX.CellAnswer;
    OneKeepsWellFormed(h, db, q);
    OneKeepsWellFormed(h, db', q);
    NamesIdentify(h, q.key, key);
    assert WindowShape(db, SlidingWindowKeys(h, key)) && WindowShape(db', SlidingWindowKeys(h, key));
    match q.rule.algorithm {
      case TokenBucket =>
        var cell := TX.NextCell(BucketConfig(q.rule), BucketCell(db, TokenBucketKey(h, key)), BucketCheck(q));
        NextBucketKept(q, BucketCell(db, TokenBucketKey(h, key)));
        PutBucketIsLocal(h, db, q.key, cell, key);
        PutBucketIsLocal(h, db', q.key, cell, key);
      case SlidingWindow =>
        var cell := SX.NextCell(WindowConfig(q.rule), WindowCell(db, SlidingWindowKeys(h, key)), WindowCheck(q));
        NextWindowKept(q, WindowCell(db, SlidingWindowKeys(h, key)));
        PutWindowIsLocal(h, db, q.key, cell, key);
        PutWindowIsLocal(h, db', q.key, cell, key);
      case Other(_) =>
    }
  }

  lemma {:induction false} NextBucketKept(q: Request, cell: TX.Cell)
    ensures TX.NextCell(BucketConfig(q.rule), cell, BucketCheck(q)).Kept?
  {
  }

  lemma {:induction false} NextWindowKept(q: Request, cell: SX.Cell)
    requires Usable(q.rule) && q.rule.algorithm == SlidingWindow
    ensures SX.NextCell(WindowConfig(q.rule), cell, WindowCheck(q)).Kept?
  {
  }

  /** ISOLATION: in any run over the shared store, the requests of one counter
      get the decisions they would get if they were the only ones. */
  lemma {:induction false} Isolated(h: Hashing, key: TenantRouteKey, algorithm: Algorithm, qs: seq<Request>)
    requires h.Sound() && AllUsable(qs)
    ensures var mask := MaskOf(h, key, algorithm, qs);
            && AllUsable(Keep(qs, mask))
            && SharedReplies(h, Keep(qs, mask)) == Keep(SharedReplies(h, qs), mask)
            && SameCounter(h, key, algorithm, SharedDb(h, qs), SharedDb(h, Keep(qs, mask)))
  {
    hide Hashing.Sound, WellFormed, SameCounter, DbAfterOne, ReplyOfOne, ChargedTo;
    var mask := MaskOf(h, key, algorithm, qs);
    if qs == [] {
      EmptyIsWellFormed(h);
      SameAsItself(h, key, algorithm, map[]);
      return;
    }
    var n := |qs| - 1;
    var init, q := qs[..n], qs[n];
    Isolated(h, key, algorithm, init);
    assert mask[..n] == MaskOf(h, key, algorithm, init);
    assert SharedReplies(h, qs)[..n] == SharedReplies(h, init);
    var kept := Keep(init, mask[..n]);
    var db, db' := SharedDb(h, init), SharedDb(h, kept);
    assert q in qs;
    StepShapes(h, db, q);
    StepShapes(h, db', q);
    if ChargedTo(h, key, algorithm, q) {
      OwnRequestLocal(h, key, algorithm, db, db', q);
      assert Keep(qs, mask) == kept + [q];
      assert (kept + [q])[..|kept|] == kept;
    } else {
      OtherRequestInvisible(h, key, algorithm, db, q);
      SameCounterTransitive(h, key, algorithm, DbAfterOne(h, db, q), db, db');
      assert Keep(qs, mask) == kept;
    }
  }

  lemma {:induction false} SameAsItself(h: Hashing, key: TenantRouteKey, algorithm: Algorithm, db: Db)
    requires WellFormed(h, db)
    ensures SameCounter(h, key, algorithm, db, db)
  {
  }

  lemma {:induction false} SameCounterTransitive(
    h: Hashing, key: TenantRouteKey, algorithm: Algorithm, a: Db, b: Db, c: Db)
    requires WellFormed(h, a) && WellFormed(h, b) && WellFormed(h, c)
    requires SameCounter(h, key, algorithm, a, b) && SameCounter(h, key, algorithm, b, c)
    ensures SameCounter(h, key, algorithm, a, c)
  {
  }
}
