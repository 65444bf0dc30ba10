/** The token bucket script on its two stored numbers.  Readings are in
    milliseconds, tokens are real. */
module TokenBucket {
  import opened Arith
  import opened Decisions

  datatype Config = Config(capacity: int, rate: real) {
    /** What rule validation guarantees. */
    predicate Valid() {
      0 < capacity && 0.0 < rate
    }
  }

  /** `Full` is a missing (or expired) key. */
  datatype Bucket = Full | Stored(tokens: real, last: int)

  /** Tokens added in `ms` milliseconds. */
  function Refill(c: Config, ms: int): (tokens: real) {
    (ms as real / 1000.0) * c.rate
  }

  /** Tokens available at reading `now`, before spending. */
  function Pool(c: Config, b: Bucket, now: int): (tokens: real) {
    match b
    case Full => c.capacity as real
    case Stored(tokens, last) => MinReal(c.capacity as real, tokens + Refill(c, Max(0, now - last)))
  }

  predicate Admits(c: Config, b: Bucket, now: int, cost: int) {
    cost as real <= Pool(c, b, now)
  }

  /** Tokens left once a check has been decided. */
  function Left(c: Config, b: Bucket, now: int, cost: int): (tokens: real) {
    if Admits(c, b, now, cost) then Pool(c, b, now) - cost as real else Pool(c, b, now)
  }

  function Next(c: Config, b: Bucket, now: int, cost: Cost): (n: Bucket) {
    Stored(Left(c, b, now, cost), now)
  }

  /** Whole seconds until `missing` tokens have come in. */
  function Wait(c: Config, missing: real): (secs: int) {
    if 0.0 < c.rate then Ceil(missing / c.rate) else 0
  }

  function Answer(c: Config, b: Bucket, now: int, cost: Cost): (reply: Reply) {
    var left := Left(c, b, now, cost);
    var retry := if Admits(c, b, now, cost) then 0 else Wait(c, cost as real - left);
    var reset := now / 1000 + if left < c.capacity as real then Wait(c, c.capacity as real - left) else 0;
    Reply(Admits(c, b, now, cost), left.Floor, reset, retry)
  }

  // ---- runs over a key that starts out missing and never expires

  function After(c: Config, checks: seq<Check>): (b: Bucket) {
    if checks == [] then Full
    else
      var k := checks[|checks| - 1];
      Next(c, After(c, checks[..|checks| - 1]), k.read, k.cost)
  }

  function Run(c: Config, checks: seq<Check>): (replies: seq<Reply>)
    ensures |replies| == |checks|
  {
    if checks == [] then []
    else
      var k := checks[|checks| - 1];
      Run(c, checks[..|checks| - 1]) + [Answer(c, After(c, checks[..|checks| - 1]), k.read, k.cost)]
  }

  /** Cost admitted by checks k, k + 1, ..., n - 1. */
  function Spent(checks: seq<Check>, replies: seq<Reply>, k: nat, n: nat): (total: int)
    requires n <= |checks| == |replies|
    ensures 0 <= total
  {
    if n <= k then 0
    else Spent(checks, replies, k, n - 1) + if replies[n - 1].allowed then checks[n - 1].cost else 0
  }

  // ---- refill arithmetic

  lemma {:induction false} RefillAdds(c: Config, a: int, b: int)
    ensures Refill(c, a) + Refill(c, b) == Refill(c, a + b)
  {
    assert (a as real / 1000.0) * c.rate + (b as real / 1000.0) * c.rate
        == (a as real / 1000.0 + b as real / 1000.0) * c.rate;
  }

  lemma {:induction false} RefillMono(c: Config, a: int, b: int)
    requires c.Valid() && a <= b
    ensures Refill(c, a) <= Refill(c, b)
  {
    RealMulMono(a as real / 1000.0, b as real / 1000.0, c.rate);
  }

  lemma {:induction false} RefillZero(c: Config)
    ensures Refill(c, 0) == 0.0
  {
  }

  /** A bucket refilled in two steps is refilled as in one: the cap cannot be
      used to lose or gain tokens. */
  lemma {:induction false} PoolComposes(c: Config, b: Bucket, t: int, u: int)
    requires c.Valid() && t <= u && (b.Stored? ==> b.last <= t)
    ensures Pool(c, Stored(Pool(c, b, t), t), u) == Pool(c, b, u)
  {
    hide Refill;
    RefillMono(c, 0, u - t);
    RefillZero(c);
    if b.Stored? {
      RefillAdds(c, t - b.last, u - t);
    }
  }

  // ---- invariant

  ghost predicate Sane(c: Config, b: Bucket) {
    b.Stored? ==> 0.0 <= b.tokens <= c.capacity as real
  }

  lemma {:induction false} PoolInRange(c: Config, b: Bucket, now: int)
    requires c.Valid() && Sane(c, b)
    ensures 0.0 <= Pool(c, b, now) <= c.capacity as real
    ensures b.Stored? ==> b.tokens <= Pool(c, b, now)
  {
    hide Refill;
    RefillZero(c);
    if b.Stored? {
      RefillMono(c, 0, Max(0, now - b.last));
    }
  }

  /** Tokens stay within 0 and capacity in every reachable state, whatever
      order the readings come in. */
  lemma {:induction false} AfterSane(c: Config, checks: seq<Check>)
    requires c.Valid()
    ensures Sane(c, After(c, checks))
  {
    hide Pool;
    if checks != [] {
      var n := |checks| - 1;
      AfterSane(c, checks[..n]);
      PoolInRange(c, After(c, checks[..n]), checks[n].read);
    }
  }

  // ---- exactness against the full history, in any order of readings

  /** The sum of the upward steps of readings k, ..., n - 1. */
  function Climb(checks: seq<Check>, k: nat, n: nat): (ms: int)
    requires n <= |checks|
    ensures 0 <= ms
  {
    if n <= k + 1 then 0
    else Climb(checks, k, n - 1) + Max(0, checks[n - 1].read - checks[n - 2].read)
  }

  lemma {:induction false} ClimbWhenOrdered(checks: seq<Check>, k: nat, n: nat)
    requires NonDecreasing(checks) && k < n <= |checks|
    ensures Climb(checks, k, n) == checks[n - 1].read - checks[k].read
    decreases n
  {
    if k + 1 < n {
      ClimbWhenOrdered(checks, k, n - 1);
    }
  }

  /** What the history from check k on leaves for check n: a full bucket at k,
      refilled by every upward step since, less everything admitted from k on. */
  function Allowance(c: Config, checks: seq<Check>, k: nat, n: nat): (tokens: real)
    requires k <= n < |checks|
  {
    c.capacity as real + Refill(c, Climb(checks, k, n + 1)) - Spent(checks, Run(c, checks), k, n) as real
  }

  function PoolAt(c: Config, checks: seq<Check>, n: nat): (tokens: real)
    requires n < |checks|
  {
    Pool(c, After(c, checks[..n]), checks[n].read)
  }

  lemma {:induction false} PoolStep(c: Config, checks: seq<Check>, n: nat)
    requires c.Valid() && 0 < n < |checks|
    ensures var left := PoolAt(c, checks, n - 1)
                        - if Run(c, checks)[n - 1].allowed then checks[n - 1].cost as real else 0.0;
            PoolAt(c, checks, n)
              == MinReal(c.capacity as real, left + Refill(c, Max(0, checks[n].read - checks[n - 1].read)))
  {
    hide Refill;
    assert checks[..n][..n - 1] == checks[..n - 1];
    RunAt(c, checks, n - 1);
  }

  lemma {:induction false} AllowanceStep(c: Config, checks: seq<Check>, k: nat, n: nat)
    requires k < n < |checks|
    ensures Allowance(c, checks, k, n)
         == Allowance(c, checks, k, n - 1) + Refill(c, Max(0, checks[n].read - checks[n - 1].read))
            - if Run(c, checks)[n - 1].allowed then checks[n - 1].cost as real else 0.0
  {
    hide Refill;
    RefillAdds(c, Climb(checks, k, n), Max(0, checks[n].read - checks[n - 1].read));
  }

  lemma {:induction false} AllowanceNow(c: Config, checks: seq<Check>, n: nat)
    requires n < |checks|
    ensures Allowance(c, checks, n, n) == c.capacity as real
  {
    RefillZero(c);
  }

  /** The pool is the least of the allowances of the whole history. */
  lemma {:induction false} PoolIsLeastAllowance(c: Config, checks: seq<Check>, n: nat) returns (m: nat)
    requires c.Valid() && n < |checks|
    ensures forall k :: 0 <= k <= n ==> PoolAt(c, checks, n) <= Allowance(c, checks, k, n)
    ensures m <= n && PoolAt(c, checks, n) == Allowance(c, checks, m, n)
  {
    hide Refill, Allowance, PoolAt;
    AllowanceNow(c, checks, n);
    if n == 0 {
      m := 0;
      FirstPool(c, checks);
    } else {
      m := PoolIsLeastAllowance(c, checks, n - 1);
      PoolStep(c, checks, n);
      forall k | 0 <= k <= n ensures PoolAt(c, checks, n) <= Allowance(c, checks, k, n) {
        if k < n {
          AllowanceStep(c, checks, k, n);
        }
      }
      AllowanceStep(c, checks, m, n);
      if PoolAt(c, checks, n) == c.capacity as real {
        m := n;
      }
    }
  }

  lemma {:induction false} FirstPool(c: Config, checks: seq<Check>)
    requires checks != []
    ensures PoolAt(c, checks, 0) == c.capacity as real
  {
  }

  /** From every check k of the history up to and including check n, the cost
      admitted since k plus the cost of n fits into a full bucket refilled by
      the readings' upward steps since k. */
  ghost predicate HistoryAllows(c: Config, checks: seq<Check>, replies: seq<Reply>, n: nat)
    requires n < |checks| == |replies|
  {
    forall k :: 0 <= k <= n ==>
      Spent(checks, replies, k, n) as real + checks[n].cost as real
      <= c.capacity as real + Refill(c, Climb(checks, k, n + 1))
  }

  /** With readings in order the upward steps since k are the time since k. */
  lemma {:induction false} HistoryInOrder(c: Config, checks: seq<Check>, replies: seq<Reply>, n: nat)
    requires NonDecreasing(checks) && n < |checks| == |replies|
    ensures HistoryAllows(c, checks, replies, n) <==>
              forall k :: 0 <= k <= n ==>
                Spent(checks, replies, k, n) as real + checks[n].cost as real
                <= c.capacity as real + Refill(c, checks[n].read - checks[k].read)
  {
    hide Refill, Spent;
    forall k | 0 <= k <= n ensures Climb(checks, k, n + 1) == checks[n].read - checks[k].read {
      ClimbWhenOrdered(checks, k, n + 1);
    }
  }

  /** EXACTNESS: in any order of readings a check is allowed if and only if its
      whole history leaves room for it: the two stored numbers decide what the
      unbounded history would. */
  lemma {:induction false} BucketDecidesAsHistory(c: Config, checks: seq<Check>, n: nat)
    requires c.Valid() && n < |checks|
    ensures Run(c, checks)[n].allowed <==> HistoryAllows(c, checks, Run(c, checks), n)
  {
    hide Refill, PoolAt, After, Run, Answer, Spent;
    RunAt(c, checks, n);
    var m := PoolIsLeastAllowance(c, checks, n);
    PoolAtAdmits(c, checks, n);
    if !Run(c, checks)[n].allowed {
      assert Allowance(c, checks, m, n) < checks[n].cost as real;
    } else {
      forall k | 0 <= k <= n
        ensures Spent(checks, Run(c, checks), k, n) as real + checks[n].cost as real
             <= c.capacity as real + Refill(c, Climb(checks, k, n + 1))
      {
        assert PoolAt(c, checks, n) <= Allowance(c, checks, k, n);
      }
    }
  }

  lemma {:induction false} PoolAtAdmits(c: Config, checks: seq<Check>, n: nat)
    requires n < |checks|
    ensures Answer(c, After(c, checks[..n]), checks[n].read, checks[n].cost).allowed
       <==> checks[n].cost as real <= PoolAt(c, checks, n)
  {
  }

  /** The n-th reply depends on the first n checks alone. */
  lemma {:induction false} RunAt(c: Config, checks: seq<Check>, n: nat)
    requires n < |checks|
    ensures Run(c, checks)[n] == Answer(c, After(c, checks[..n]), checks[n].read, checks[n].cost)
    decreases |checks|
  {
    var m := |checks| - 1;
    if n < m {
      RunAt(c, checks[..m], n);
      assert checks[..m][..n] == checks[..n];
    }
  }

  // ---- the bound on a segment

  lemma {:induction false} SpendStep(c: Config, checks: seq<Check>, n: nat)
    requires c.Valid() && n < |checks|
    ensures var b, b' := After(c, checks[..n]), After(c, checks[..n + 1]);
            && b'.Stored? && 0.0 <= b'.tokens <= c.capacity as real
            && (Run(c, checks)[n].allowed ==> b'.tokens == Pool(c, b, checks[n].read) - checks[n].cost as real)
            && (!Run(c, checks)[n].allowed ==> b'.tokens == Pool(c, b, checks[n].read))
            && Pool(c, b, checks[n].read) <= c.capacity as real
            && (b.Stored? ==> Pool(c, b, checks[n].read) <= b.tokens + Refill(c, Max(0, checks[n].read - b.last)))
            && b'.last == checks[n].read
  {
    hide Refill;
    assert checks[..n + 1][..n] == checks[..n];
    RunAt(c, checks, n);
    AfterSane(c, checks[..n]);
    AfterSane(c, checks[..n + 1]);
  }

  /** Tokens left plus cost admitted never exceed a full bucket plus refill. */
  lemma {:induction false} SpentPlusLeft(c: Config, checks: seq<Check>, k: nat, n: nat)
    requires c.Valid() && k < n <= |checks|
    ensures Spent(checks, Run(c, checks), k, n) as real + After(c, checks[..n]).tokens
         <= c.capacity as real + Refill(c, Climb(checks, k, n))
    decreases n
  {
    hide Refill, Pool, Next, Answer;
    SpendStep(c, checks, n - 1);
    assert Spent(checks, Run(c, checks), k, k) == 0;
    RefillZero(c);
    if k + 1 < n {
      SpentPlusLeft(c, checks, k, n - 1);
      SpendStep(c, checks, n - 2);
      RefillAdds(c, Climb(checks, k, n - 1), Max(0, checks[n - 1].read - checks[n - 2].read));
    }
  }

  /** SAFETY under any reading order: the cost admitted over a segment of the
      run is at most the capacity plus the refill of the readings' upward
      steps; with nondecreasing readings that is the refill of the time from
      the first to the last. */
  lemma {:induction false} SegmentBound(c: Config, checks: seq<Check>, k: nat, n: nat)
    requires c.Valid() && k < n <= |checks|
    ensures Spent(checks, Run(c, checks), k, n) as real <= c.capacity as real + Refill(c, Climb(checks, k, n))
    ensures NonDecreasing(checks) ==>
              Spent(checks, Run(c, checks), k, n) as real
              <= c.capacity as real + Refill(c, checks[n - 1].read - checks[k].read)
  {
    hide Refill, Next;
    SpentPlusLeft(c, checks, k, n);
    SpendStep(c, checks, n - 1);
    if NonDecreasing(checks) {
      ClimbWhenOrdered(checks, k, n);
    }
  }

  // ---- what the reply promises

  /** `remaining` is exact for a further check at the same reading. */
  lemma {:induction false} RemainingIsExact(c: Config, b: Bucket, now: int, cost: Cost, more: Cost)
    requires c.Valid() && Sane(c, b)
    ensures Answer(c, Next(c, b, now, cost), now, more).allowed
       <==> more <= Answer(c, b, now, cost).remaining
    ensures Answer(c, b, now, cost).allowed ==> Answer(c, b, now, cost).retryAfter == 0
  {
    hide Refill;
    PoolInRange(c, b, now);
    RefillZero(c);
  }

  /** Waiting: `missing` tokens are there after `secs` whole seconds exactly
      when `secs` has reached Wait. */
  lemma {:induction false} WaitIsLeast(c: Config, missing: real, secs: int)
    requires c.Valid()
    ensures missing <= Refill(c, 1000 * secs) <==> Wait(c, missing) <= secs
  {
    assert Refill(c, 1000 * secs) == secs as real * c.rate;
    var q := missing / c.rate;
    assert q * c.rate == missing;
    CeilLeast(q, secs);
    if q <= secs as real {
      RealMulMono(q, secs as real, c.rate);
    } else {
      assert (q - secs as real) * c.rate > 0.0;
      assert (q - secs as real) * c.rate == missing - secs as real * c.rate;
    }
  }

  /** `retry_after` of a denied check of any cost, even one that can never fit: it
      has waited `secs` seconds exactly when the refill alone covers what is
      missing. */
  lemma {:induction false} RetryCoversMissing(c: Config, b: Bucket, now: int, cost: Cost, secs: int)
    requires c.Valid() && !Answer(c, b, now, cost).allowed
    ensures cost as real - Next(c, b, now, cost).tokens <= secs as real * c.rate
       <==> Answer(c, b, now, cost).retryAfter <= secs
  {
    hide Refill, Wait;
    WaitIsLeast(c, cost as real - Pool(c, b, now), secs);
    RefillSeconds(c, secs);
  }

  lemma {:induction false} RefillSeconds(c: Config, secs: int)
    ensures Refill(c, 1000 * secs) == secs as real * c.rate
  {
  }

  /** `retry_after` of a denied check is the least whole number of seconds
      after which the same check succeeds, provided the cost can ever fit. */
  lemma {:induction false} RetryIsLeast(c: Config, b: Bucket, now: int, cost: Cost, secs: nat)
    requires c.Valid() && Sane(c, b) && cost <= c.capacity
    requires !Answer(c, b, now, cost).allowed
    ensures Answer(c, Next(c, b, now, cost), now + 1000 * secs, cost).allowed
       <==> Answer(c, b, now, cost).retryAfter <= secs
    ensures 1 <= Answer(c, b, now, cost).retryAfter
  {
    hide Refill, Wait;
    PoolInRange(c, b, now);
    WaitIsLeast(c, cost as real - Pool(c, b, now), secs);
    WaitIsLeast(c, cost as real - Pool(c, b, now), 0);
    RefillZero(c);
  }

  /** A tail of denied checks changes nothing a later reading could see. */
  lemma {:induction false} DeniedOnlyRefill(c: Config, checks: seq<Check>, n: nat, u: int)
    requires c.Valid() && NonDecreasing(checks) && n <= |checks|
    requires forall i :: n <= i < |checks| ==> !Run(c, checks)[i].allowed
    requires checks != [] ==> checks[|checks| - 1].read <= u
    ensures Pool(c, After(c, checks), u) == Pool(c, After(c, checks[..n]), u)
    decreases |checks|
  {
    hide Refill, Pool, Admits, Left, Answer, Next;
    if n == |checks| {
      assert checks[..n] == checks;
    } else {
      var m := |checks| - 1;
      var init, k := checks[..m], checks[m];
      assert init[..n] == checks[..n];
      assert Run(c, init) == Run(c, checks)[..m];
      DeniedOnlyRefill(c, init, n, u);
      LastFollowsReadings(c, init);
      assert !Run(c, checks)[m].allowed;
      var b := After(c, init);
      DeniedKeepsPool(c, b, k.read, k.cost);
      NextReadsNow(c, b, k.read, k.cost);
      SamePoolLater(c, Next(c, b, k.read, k.cost), b, k.read, u);
    }
  }

  lemma {:induction false} NextReadsNow(c: Config, b: Bucket, now: int, cost: Cost)
    ensures Next(c, b, now, cost).Stored? && Next(c, b, now, cost).last == now
  {
  }

  /** `retry_after` holds in a whole run: whatever denied checks intervene, the
      check that was denied at index n is allowed again exactly from its
      retry_after on. */
  lemma {:induction false} RetryHoldsInRun(c: Config, checks: seq<Check>, n: nat, secs: nat)
    requires c.Valid() && NonDecreasing(checks) && n < |checks| && checks[n].cost <= c.capacity
    requires forall i :: n <= i < |checks| ==> !Run(c, checks)[i].allowed
    requires checks[|checks| - 1].read <= checks[n].read + 1000 * secs
    ensures Answer(c, After(c, checks), checks[n].read + 1000 * secs, checks[n].cost).allowed
       <==> Run(c, checks)[n].retryAfter <= secs
  {
    hide Refill, Pool, Admits, Left, Answer, Next;
    var u, cost := checks[n].read + 1000 * secs, checks[n].cost;
    RunAt(c, checks, n);
    assert checks[..n + 1][..n] == checks[..n];
    AfterSane(c, checks[..n]);
    RetryIsLeast(c, After(c, checks[..n]), checks[n].read, cost, secs);
    DeniedOnlyRefill(c, checks, n + 1, u);
    SamePoolSameAnswer(c, After(c, checks), After(c, checks[..n + 1]), u, cost);
  }

  /** A cost above the capacity is denied in every state. */
  lemma {:induction false} TooLargeIsDenied(c: Config, b: Bucket, now: int, cost: Cost)
    ensures c.capacity < cost ==> !Answer(c, b, now, cost).allowed
  {
  }

  /** `reset_at` is within a second of the moment the bucket is full again:
      from one second after it on it is full, until one second before it it
      is not. */
  lemma {:induction false} ResetWithinOneSecond(c: Config, b: Bucket, now: int, cost: Cost, u: int)
    requires c.Valid() && Sane(c, b) && now <= u
    ensures var reset := Answer(c, b, now, cost).resetAt;
            var n := Next(c, b, now, cost);
            && (1000 * reset + 999 <= u ==> Pool(c, n, u) == c.capacity as real)
            && (u <= 1000 * reset - 1000 ==> Pool(c, n, u) < c.capacity as real)
  {
    hide Refill, Wait;
    PoolInRange(c, b, now);
    var left := Left(c, b, now, cost);
    var missing := c.capacity as real - left;
    var secs := Wait(c, missing);
    RefillZero(c);
    RefillMono(c, 0, u - now);
    if left < c.capacity as real {
      WaitIsLeast(c, missing, secs);
      WaitIsLeast(c, missing, secs - 1);
      if 1000 * secs <= u - now {
        RefillMono(c, 1000 * secs, u - now);
      } else if u - now <= 1000 * (secs - 1) {
        RefillMono(c, u - now, 1000 * (secs - 1));
      }
    }
  }

  /** The same in real time: `reset_at` differs from the exact instant at which
      the missing tokens are back by less than one second either way. */
  lemma {:induction false} ResetNearFullInstant(c: Config, b: Bucket, now: int, cost: Cost)
    requires c.Valid() && Sane(c, b)
    ensures var full := now as real / 1000.0 + (c.capacity as real - Left(c, b, now, cost)) / c.rate;
            -1.0 < Answer(c, b, now, cost).resetAt as real - full < 1.0
  {
    PoolInRange(c, b, now);
    var left := Left(c, b, now, cost);
    var q := (c.capacity as real - left) / c.rate;
    if left == c.capacity as real {
      assert q == 0.0;
    }
    CeilLeast(q, Ceil(q) - 1);
    var s := now / 1000;
    assert 1000 * s <= now < 1000 * s + 1000;
    assert s as real <= now as real / 1000.0 < s as real + 1.0;
  }

  /** Seconds by which rounding up overstates the wait for `missing` tokens. */
  function RoundedUp(c: Config, missing: real): (secs: real)
    requires c.Valid()
  {
    Wait(c, missing) as real - missing / c.rate
  }

  lemma {:induction false} MillisOfWait(c: Config, missing: real, ms: int)
    requires c.Valid()
    ensures missing <= Refill(c, ms) <==> missing / c.rate <= ms as real / 1000.0
  {
    var q, r := missing / c.rate, ms as real / 1000.0;
    assert q * c.rate == missing;
    if q <= r {
      RealMulMono(q, r, c.rate);
    } else {
      assert (q - r) * c.rate > 0.0;
      assert (q - r) * c.rate == missing - r * c.rate;
    }
  }

  /** EXACT RESET: the bucket is full at `reset_at` if and only if nothing was
      missing, or the fraction of a second dropped from the clock is at most
      what rounding the wait up has added. */
  lemma {:induction false} FullAtResetIff(c: Config, b: Bucket, now: int, cost: Cost)
    requires c.Valid() && Sane(c, b)
    ensures var missing := c.capacity as real - Left(c, b, now, cost);
            Pool(c, Next(c, b, now, cost), 1000 * Answer(c, b, now, cost).resetAt) == c.capacity as real
            <==> (missing == 0.0 || (now % 1000) as real / 1000.0 <= RoundedUp(c, missing))
  {
    hide Refill, Wait;
    PoolInRange(c, b, now);
    var missing := c.capacity as real - Left(c, b, now, cost);
    var secs := Wait(c, missing);
    RefillZero(c);
    if missing != 0.0 {
      WaitIsLeast(c, missing, 0);
      var ms := 1000 * secs - now % 1000;
      assert 1000 * Answer(c, b, now, cost).resetAt - now == ms;
      MillisOfWait(c, missing, ms);
      assert ms as real / 1000.0 == secs as real - (now % 1000) as real / 1000.0;
    }
  }

  /** A bucket that is not full at its own `reset_at`. */
  lemma {:induction false} ResetMayBeEarly()
    ensures var c := Config(1, 1.0);
            Pool(c, Next(c, Full, 999, 1), 1000 * Answer(c, Full, 999, 1).resetAt) != c.capacity as real
  {
    var c := Config(1, 1.0);
    assert Pool(c, Full, 999) == 1.0 && Left(c, Full, 999, 1) == 0.0;
    assert Wait(c, 1.0) == 1;
    FullAtResetIff(c, Full, 999, 1);
  }

  // ---- denied checks leave no trace

  lemma {:induction false} LastFollowsReadings(c: Config, checks: seq<Check>)
    ensures After(c, checks) == Full <==> checks == []
    ensures checks != [] ==> After(c, checks).last == checks[|checks| - 1].read
  {
  }

  /** Buckets that agree at `t` agree at every later reading. */
  lemma {:induction false} SamePoolLater(c: Config, b: Bucket, b': Bucket, t: int, u: int)
    requires c.Valid() && t <= u
    requires (b.Stored? ==> b.last <= t) && (b'.Stored? ==> b'.last <= t)
    requires Pool(c, b, t) == Pool(c, b', t)
    ensures Pool(c, b, u) == Pool(c, b', u)
  {
    PoolComposes(c, b, t, u);
    PoolComposes(c, b', t, u);
  }

  lemma {:induction false} SamePoolSameAnswer(c: Config, b: Bucket, b': Bucket, now: int, cost: Cost)
    requires Pool(c, b, now) == Pool(c, b', now)
    ensures Answer(c, b, now, cost) == Answer(c, b', now, cost)
    ensures Next(c, b, now, cost) == Next(c, b', now, cost)
  {
  }

  /** A denied check keeps what the bucket holds at its own reading. */
  lemma {:induction false} DeniedKeepsPool(c: Config, b: Bucket, now: int, cost: Cost)
    requires c.Valid()
    ensures !Answer(c, b, now, cost).allowed ==> Pool(c, Next(c, b, now, cost), now) == Pool(c, b, now)
  {
    RefillZero(c);
  }

  lemma {:induction false} TraceFree(c: Config, checks: seq<Check>, mask: seq<bool>)
    requires c.Valid() && NonDecreasing(checks) && |mask| == |checks|
    requires OnlyDeniedDropped(Run(c, checks), mask)
    ensures Run(c, Keep(checks, mask)) == Keep(Run(c, checks), mask)
    ensures checks != [] ==>
              var t := checks[|checks| - 1].read;
              var kept := After(c, Keep(checks, mask));
              (kept.Stored? ==> kept.last <= t) && Pool(c, kept, t) == Pool(c, After(c, checks), t)
  {
    hide Refill, Pool, Admits, Left, Answer, Next;
    if checks == [] {
      return;
    }
    var n := |checks| - 1;
    var init, k := checks[..n], checks[n];
    assert Run(c, init) == Run(c, checks)[..n];
    TraceFree(c, init, mask[..n]);
    var b, b' := After(c, init), After(c, Keep(init, mask[..n]));
    LastFollowsReadings(c, init);
    if init != [] {
      SamePoolLater(c, b, b', init[n - 1].read, k.read);
    }
    SamePoolSameAnswer(c, b, b', k.read, k.cost);
    DeniedKeepsPool(c, b, k.read, k.cost);
    NextReadsNow(c, b, k.read, k.cost);
    if mask[n] {
      assert Keep(checks, mask)[..|Keep(checks, mask)| - 1] == Keep(init, mask[..n]);
    } else {
      assert !Run(c, checks)[n].allowed;
    }
  }
}
