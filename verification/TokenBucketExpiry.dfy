/** The token bucket as it sits in the store: one hash with a deadline that
    every check renews. */
module TokenBucketExpiry {
  import opened Arith
  import opened Decisions
  import opened TokenBucket

  /** Milliseconds on the store's clock; a key without one never expires. */
  datatype Deadline = Never | At(ms: int)

  datatype Cell = Missing | Kept(tokens: real, last: int, deadline: Deadline)

  function Visible(cell: Cell, at: int): (seen: Bucket) {
    if cell.Missing? || (cell.deadline.At? && cell.deadline.ms < at) then Full
    else Stored(cell.tokens, cell.last)
  }

  /** Lifetime the script gives the key, in seconds. */
  function Lifetime(c: Config): (secs: int)
    requires 0.0 < c.rate
  {
    Ceil(c.capacity as real / c.rate) + 60
  }

  /** A rate of zero or less sets no deadline; a live key keeps its own. */
  function NextCell(c: Config, cell: Cell, k: Check): (next: Cell) {
    var b := Visible(cell, k.at);
    var n := Next(c, b, k.read, k.cost);
    Kept(n.tokens, n.last,
         if 0.0 < c.rate then At(k.at + 1000 * Lifetime(c)) else if b.Full? then Never else cell.deadline)
  }

  function CellAfter(c: Config, checks: seq<Check>): (cell: Cell) {
    if checks == [] then Missing
    else NextCell(c, CellAfter(c, checks[..|checks| - 1]), checks[|checks| - 1])
  }

  function CellAnswer(c: Config, cell: Cell, k: Check): (reply: Reply) {
    Answer(c, Visible(cell, k.at), k.read, k.cost)
  }

  function CellRun(c: Config, checks: seq<Check>): (replies: seq<Reply>)
    ensures |replies| == |checks|
  {
    if checks == [] then []
    else
      CellRun(c, checks[..|checks| - 1])
      + [CellAnswer(c, CellAfter(c, checks[..|checks| - 1]), checks[|checks| - 1])]
  }

  // ---- one script, in plain arithmetic

  /** The least whole number of seconds in which `missing` tokens come in. */
  ghost predicate LeastSeconds(rate: real, missing: real, secs: int) {
    (secs - 1) as real * rate < missing <= secs as real * rate
  }

  /** The four numbers for a cost read at `now`, when the bucket holds `pool`. */
  ghost predicate ReplyFor(capacity: int, rate: real, pool: real, now: int, cost: int, reply: Reply) {
    var left := if reply.allowed then pool - cost as real else pool;
    && (reply.allowed <==> cost as real <= pool)
    && reply.remaining as real <= left < reply.remaining as real + 1.0
    && (if rate <= 0.0 || capacity as real <= left then reply.resetAt == now / 1000
        else LeastSeconds(rate, capacity as real - left, reply.resetAt - now / 1000))
    && (if rate <= 0.0 || reply.allowed then reply.retryAfter == 0
        else LeastSeconds(rate, cost as real - left, reply.retryAfter))
  }

  lemma {:induction false} Scale(q: real, n: int, rate: real)
    requires 0.0 < rate
    ensures q <= n as real <==> q * rate <= n as real * rate
  {
    if q <= n as real {
      RealMulMono(q, n as real, rate);
    } else {
      assert (q - n as real) * rate > 0.0;
      assert (q - n as real) * rate == q * rate - n as real * rate;
    }
  }

  lemma {:induction false} CeilIs(missing: real, rate: real)
    requires 0.0 < rate
    ensures LeastSeconds(rate, missing, Ceil(missing / rate))
  {
    var secs := Ceil(missing / rate);
    CeilLeast(missing / rate, secs);
    CeilLeast(missing / rate, secs - 1);
    Scale(missing / rate, secs, rate);
    Scale(missing / rate, secs - 1, rate);
    assert (missing / rate) * rate == missing;
  }

  lemma {:induction false} AnswerIsReplyFor(c: Config, b: Bucket, now: int, cost: Cost)
    ensures ReplyFor(c.capacity, c.rate, Pool(c, b, now), now, cost, Answer(c, b, now, cost))
  {
    hide Pool, Refill, LeastSeconds;
    if 0.0 < c.rate {
      CeilIs(c.capacity as real - Left(c, b, now, cost), c.rate);
      CeilIs(cost as real - Left(c, b, now, cost), c.rate);
    }
  }

  /** What a bucket left with `tokens` at `last` holds at `now`: the refill of the
      time between on top, up to the capacity. */
  ghost function Refilled(capacity: int, rate: real, tokens: real, last: int, now: int): (held: real) {
    var earned := if now <= last then 0.0 else (now - last) as real / 1000.0 * rate;
    if capacity as real <= tokens + earned then capacity as real else tokens + earned
  }

  lemma {:induction false} PoolIs(c: Config, cell: Cell, k: Check)
    ensures var alive := cell.Kept? && (cell.deadline.At? ==> k.at <= cell.deadline.ms);
            Pool(c, Visible(cell, k.at), k.read)
              == if alive then Refilled(c.capacity, c.rate, cell.tokens, cell.last, k.read) else c.capacity as real
  {
  }

  /** ONE SCRIPT, from any stored key: what it answers and what it leaves, read
      off the key's own fields.  A missing key is a full bucket.  Every check renews the deadline, to a minute
      after an empty bucket would be full. */
  lemma {:induction false} ScriptIs(c: Config, cell: Cell, k: Check)
    ensures var alive := cell.Kept? && (cell.deadline.At? ==> k.at <= cell.deadline.ms);
            var pool := if alive then Refilled(c.capacity, c.rate, cell.tokens, cell.last, k.read)
                        else c.capacity as real;
            var reply, next := CellAnswer(c, cell, k), NextCell(c, cell, k);
            && ReplyFor(c.capacity, c.rate, pool, k.read, k.cost, reply)
            && next.Kept? && next.last == k.read
            && next.tokens == (if reply.allowed then pool - k.cost as real else pool)
            && (c.rate <= 0.0 ==> next.deadline == if alive then cell.deadline else Never)
            && (0.0 < c.rate ==>
                  && next.deadline == At(k.at + 1000 * Lifetime(c))
                  && LeastSeconds(c.rate, c.capacity as real, Lifetime(c) - 60))
  {
    hide Pool, Refill, LeastSeconds, ReplyFor, Refilled;
    PoolIs(c, cell, k);
    AnswerIsReplyFor(c, Visible(cell, k.at), k.read, k.cost);
    if 0.0 < c.rate {
      CeilIs(c.capacity as real, c.rate);
    }
  }

  /** The least whole number of milliseconds that refills an empty bucket. */
  function RefillTime(c: Config): (ms: int)
    requires c.Valid()
  {
    Ceil(1000.0 * c.capacity as real / c.rate)
  }

  /** Milliseconds the store may run ahead before a drop can be noticed. */
  function Slack(c: Config): (ms: int)
    requires c.Valid()
  {
    1000 * Lifetime(c) + 1 - RefillTime(c)
  }

  lemma {:induction false} RefillTimeIsLeast(c: Config, ms: int)
    requires c.Valid()
    ensures c.capacity as real <= Refill(c, ms) <==> RefillTime(c) <= ms
  {
    var q := c.capacity as real / c.rate;
    assert 1000.0 * c.capacity as real / c.rate == 1000.0 * q;
    CeilLeast(1000.0 * q, ms);
    MillisOfWait(c, c.capacity as real, ms);
  }

  /** The lifetime's own slack is the 60 seconds the script adds, and the
      millisecond a deadline is still alive. */
  lemma {:induction false} SlackAtLeast(c: Config)
    requires c.Valid()
    ensures 60_001 <= Slack(c) <= 61_000 && Slack(c) <= 1000 * Lifetime(c)
  {
    var q := c.capacity as real / c.rate;
    assert 1000.0 * c.capacity as real / c.rate == 1000.0 * q;
    assert q > 0.0;
    CeilLeast(q, Ceil(q));
    CeilLeast(q, Ceil(q) - 1);
    CeilLeast(1000.0 * q, 1000 * Ceil(q));
    CeilLeast(1000.0 * q, 1000 * (Ceil(q) - 1));
    CeilLeast(1000.0 * q, 0);
  }

  /** A bucket left alone for its refill time is full. */
  lemma {:induction false} FullByExpiry(c: Config, b: Bucket, now: int)
    requires c.Valid() && Sane(c, b) && b.Stored?
    requires RefillTime(c) <= Max(0, now - b.last)
    ensures Pool(c, b, now) == c.capacity as real
  {
    hide Refill, RefillTime;
    RefillTimeIsLeast(c, Max(0, now - b.last));
  }

  /** From `x` to `y` the key lives, or the readings give it time to refill. */
  ghost predicate PairSpaced(c: Config, x: Check, y: Check)
    requires c.Valid()
  {
    y.at - x.at <= 1000 * Lifetime(c) || SkewBetween(x, y, 1, Slack(c))
  }

  /** No check meets a key dropped before it would have refilled anyway. */
  ghost predicate NeverDropsEarly(c: Config, checks: seq<Check>)
    requires c.Valid()
  {
    forall i :: 1 <= i < |checks| ==> PairSpaced(c, checks[i - 1], checks[i])
  }

  /** The same between any two checks, so that it survives dropping some. */
  ghost predicate Spaced(c: Config, checks: seq<Check>)
    requires c.Valid()
  {
    forall i, j :: 0 <= i < j < |checks| ==> PairSpaced(c, checks[i], checks[j])
  }

  lemma {:induction false} SpacedNeverDropsEarly(c: Config, checks: seq<Check>)
    requires c.Valid() && Spaced(c, checks)
    ensures NeverDropsEarly(c, checks)
  {
    hide PairSpaced;
  }

  lemma {:induction false} SkewIsSpaced(c: Config, checks: seq<Check>, slack: int)
    requires c.Valid() && SkewAtMost(checks, 1, slack) && slack <= Slack(c)
    ensures Spaced(c, checks)
  {
    hide Slack;
    forall i, j | 0 <= i < j < |checks| ensures PairSpaced(c, checks[i], checks[j]) {
      assert SkewBetween(checks[i], checks[j], 1, slack);
    }
  }

  lemma {:induction false} KeepSpaced(c: Config, checks: seq<Check>, mask: seq<bool>)
    requires c.Valid() && |checks| == |mask| && Spaced(c, checks)
    ensures Spaced(c, Keep(checks, mask))
  {
    hide PairSpaced;
    if checks != [] {
      var n := |checks| - 1;
      KeepSpaced(c, checks[..n], mask[..n]);
      forall x | x in Keep(checks[..n], mask[..n]) ensures PairSpaced(c, x, checks[n]) {
        assert x in checks[..n];
      }
    }
  }

  /** The cell carries the run's bucket and the deadline of its last check. */
  ghost predicate Carries(c: Config, cell: Cell, checks: seq<Check>)
    requires c.Valid()
  {
    if checks == [] then cell == Missing
    else
      var b, k := After(c, checks), checks[|checks| - 1];
      b.Stored? && cell == Kept(b.tokens, b.last, At(k.at + 1000 * Lifetime(c)))
  }

  lemma {:induction false} StoredRunAgrees(c: Config, checks: seq<Check>)
    requires c.Valid() && NeverDropsEarly(c, checks)
    ensures CellRun(c, checks) == Run(c, checks)
    ensures Carries(c, CellAfter(c, checks), checks)
  {
    hide Refill, Pool, Admits, Left, Answer, Lifetime, RefillTime;
    if checks != [] {
      var n := |checks| - 1;
      var init, k := checks[..n], checks[n];
      StoredRunAgrees(c, init);
      var cell, b := CellAfter(c, init), After(c, init);
      LastFollowsReadings(c, init);
      AfterSane(c, init);
      if n > 0 && cell.deadline.ms < k.at {
        assert PairSpaced(c, checks[n - 1], k);
        FullByExpiry(c, b, k.read);
        PoolOfFull(c, k.read);
      }
      SamePoolSameAnswer(c, Visible(cell, k.at), b, k.read, k.cost);
    }
  }

  lemma {:induction false} PoolOfFull(c: Config, now: int)
    ensures Pool(c, Full, now) == c.capacity as real
  {
  }

  /** EXPIRY IS UNOBSERVABLE: dropping the key after its lifetime gives the
      replies of a bucket that is never dropped, in any order of readings, as
      long as no check meets a key dropped before it would have refilled. */
  lemma {:induction false} ExpiryIsUnobservable(c: Config, checks: seq<Check>)
    requires c.Valid() && NeverDropsEarly(c, checks)
    ensures CellRun(c, checks) == Run(c, checks)
  {
    hide NeverDropsEarly;
    StoredRunAgrees(c, checks);
  }

  /** Every run with at most this skew gets the replies of a bucket that is
      never dropped. */
  ghost predicate SlackIsSafe(c: Config, slack: int) {
    forall checks :: SkewAtMost(checks, 1, slack) ==> CellRun(c, checks) == Run(c, checks)
  }

  /** An emptied bucket, and a full-cost check just after its key is dropped. */
  function DroppedEarly(c: Config, slack: int): (checks: seq<Check>)
    requires c.Valid()
  {
    [Check(0, 0, c.capacity)]
    + [Check(1000 * Lifetime(c) + 1 - slack, 1000 * Lifetime(c) + 1, c.capacity)]
  }

  lemma {:induction false} DropIsSeen(c: Config, slack: int)
    requires c.Valid() && Slack(c) < slack
    ensures SkewAtMost(DroppedEarly(c, slack), 1, slack)
    ensures CellRun(c, DroppedEarly(c, slack))[1].allowed && !Run(c, DroppedEarly(c, slack))[1].allowed
  {
    hide Lifetime, Refill, RefillTime;
    var checks := DroppedEarly(c, slack);
    var k := checks[1];
    assert checks[..1] == [checks[0]] && [checks[0]][..0] == [];
    RefillZero(c);
    assert After(c, checks[..1]) == Stored(0.0, 0);
    assert CellAfter(c, checks[..1]) == Kept(0.0, 0, At(1000 * Lifetime(c)));
    SlackAtLeast(c);
    RefillTimeIsLeast(c, Max(0, k.read));
    assert CellRun(c, checks)[1] == CellAnswer(c, CellAfter(c, checks[..1]), k);
    assert Run(c, checks)[1] == Answer(c, After(c, checks[..1]), k.read, k.cost);
  }

  /** EXACT SLACK: for every configuration, expiry goes unnoticed in every run
      if and only if the store never runs further ahead than the lifetime
      exceeds the time an empty bucket takes to refill. */
  lemma {:induction false} SlackIsExact(c: Config, slack: int)
    requires c.Valid()
    ensures SlackIsSafe(c, slack) <==> slack <= Slack(c)
  {
    hide CellRun, Run, SkewAtMost, DroppedEarly, Slack, Spaced, NeverDropsEarly;
    if slack <= Slack(c) {
      forall checks | SkewAtMost(checks, 1, slack) ensures CellRun(c, checks) == Run(c, checks) {
        SkewIsSpaced(c, checks, slack);
        SpacedNeverDropsEarly(c, checks);
        StoredRunAgrees(c, checks);
      }
    } else {
      DropIsSeen(c, slack);
    }
  }

  /** SAFETY of the stored key under any reading order: while the key is never
      dropped early, the cost its replies admit over any segment is at most the
      capacity plus the refill of the readings' upward steps. */
  lemma {:induction false} StoredSegmentBound(c: Config, checks: seq<Check>, k: nat, n: nat)
    requires c.Valid() && NeverDropsEarly(c, checks) && k < n <= |checks|
    ensures Spent(checks, CellRun(c, checks), k, n) as real <= c.capacity as real + Refill(c, Climb(checks, k, n))
    ensures NonDecreasing(checks) ==>
              Spent(checks, CellRun(c, checks), k, n) as real
              <= c.capacity as real + Refill(c, checks[n - 1].read - checks[k].read)
  {
    hide Refill, Spent, NeverDropsEarly;
    StoredRunAgrees(c, checks);
    SegmentBound(c, checks, k, n);
  }

  /** Deleting any set of denied checks leaves every field of every other
      reply unchanged, as long as neither run has keys dropped early: a denied
      check renews the key. */
  lemma {:induction false} DeniedLeaveNoTrace(c: Config, checks: seq<Check>, mask: seq<bool>)
    requires c.Valid() && NonDecreasing(checks) && |mask| == |checks|
    requires NeverDropsEarly(c, checks) && NeverDropsEarly(c, Keep(checks, mask))
    requires OnlyDeniedDropped(CellRun(c, checks), mask)
    ensures CellRun(c, Keep(checks, mask)) == Keep(CellRun(c, checks), mask)
  {
    hide NeverDropsEarly;
    ExpiryIsUnobservable(c, checks);
    TraceFree(c, checks, mask);
    ExpiryIsUnobservable(c, Keep(checks, mask));
  }

  /** Spacing is enough for both runs. */
  lemma {:induction false} SpacedDeniedLeaveNoTrace(c: Config, checks: seq<Check>, mask: seq<bool>)
    requires c.Valid() && NonDecreasing(checks) && Spaced(c, checks)
    requires |mask| == |checks| && OnlyDeniedDropped(CellRun(c, checks), mask)
    ensures CellRun(c, Keep(checks, mask)) == Keep(CellRun(c, checks), mask)
  {
    hide Spaced, NeverDropsEarly, CellRun;
    SpacedNeverDropsEarly(c, checks);
    KeepSpaced(c, checks, mask);
    SpacedNeverDropsEarly(c, Keep(checks, mask));
    DeniedLeaveNoTrace(c, checks, mask);
  }

  /** EXACTNESS of the stored, expiring bucket against the whole history, in any
      order of readings. */
  lemma {:induction false} StoredBucketDecidesAsHistory(c: Config, checks: seq<Check>, n: nat)
    requires c.Valid() && NeverDropsEarly(c, checks) && n < |checks|
    ensures CellRun(c, checks)[n].allowed <==> HistoryAllows(c, checks, CellRun(c, checks), n)
  {
    hide HistoryAllows, NeverDropsEarly;
    StoredRunAgrees(c, checks);
    BucketDecidesAsHistory(c, checks, n);
  }

  /** `retry_after` of the stored bucket: whatever denied checks intervene, and
      whether or not the key has expired meanwhile, the check denied at index n
      is allowed again exactly from its retry_after on. */
  lemma {:induction false} StoredRetryHolds(c: Config, checks: seq<Check>, n: nat, secs: nat, probe: Check)
    requires c.Valid() && n < |checks| && checks[n].cost <= c.capacity
    requires NonDecreasing(checks + [probe]) && NeverDropsEarly(c, checks + [probe])
    requires probe.read == checks[n].read + 1000 * secs && probe.cost == checks[n].cost
    requires forall i :: n <= i < |checks| ==> !CellRun(c, checks)[i].allowed
    ensures CellAnswer(c, CellAfter(c, checks), probe).allowed <==> CellRun(c, checks)[n].retryAfter <= secs
  {
    hide Answer, CellAnswer, Next, NextCell, PairSpaced;
    var all, m := checks + [probe], |checks|;
    assert all[..m] == checks;
    assert forall i :: 0 <= i < m ==> all[i] == checks[i];
    forall i, j | 0 <= i <= j < m ensures checks[i].read <= checks[j].read {
      assert all[i] == checks[i] && all[j] == checks[j];
    }
    StoredRunAgrees(c, checks);
    StoredRunAgrees(c, all);
    assert CellRun(c, all)[m] == Run(c, all)[m];
    RetryHoldsInRun(c, checks, n, secs);
  }
}
