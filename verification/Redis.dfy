/** The commands of the store the scripts use, and the two scripts line by
    line.  A script runs atomically: the store's clock stands still in it. */
module Redis {
  import opened Arith
  import opened Text
  import opened Decisions
  import opened TokenBucketExpiry
  import SW = SlidingWindow
  import SX = SlidingWindowExpiry
  import TB = TokenBucket

  /** A string key holding a number, or a hash with the bucket's two fields. */
  datatype Value = Number(n: int) | Bucket(tokens: real, lastRefillMs: int)

  datatype Entry = Entry(value: Value, deadline: Deadline)

  type Db = map<string, Entry>

  /** A key past its deadline is gone for every command. */
  predicate Live(db: Db, key: string, clock: int) {
    key in db && (db[key].deadline.At? ==> clock <= db[key].deadline.ms)
  }

  /** What a missing number counts as in the scripts. */
  function OrZero(n: Option<int>): (value: int) {
    if n.Some? then n.value else 0
  }

  datatype WindowKeys = WindowKeys(curr: string, prev: string, idx: string) {
    predicate Distinct() {
      curr != prev && prev != idx && idx != curr
    }
  }

  // ---- what the two scripts' keys hold, as the cells of the abstract runs

  /** The three window keys are all absent, or all hold numbers and share one
      deadline. */
  predicate WindowShape(db: Db, ks: WindowKeys) {
    || (ks.curr !in db && ks.prev !in db && ks.idx !in db)
    || (&& ks.curr in db && ks.prev in db && ks.idx in db
        && db[ks.curr].value.Number? && db[ks.prev].value.Number? && db[ks.idx].value.Number?
        && db[ks.idx].deadline.At?
        && db[ks.curr].deadline == db[ks.idx].deadline && db[ks.prev].deadline == db[ks.idx].deadline)
  }

  function WindowCell(db: Db, ks: WindowKeys): (cell: SX.Cell)
    requires WindowShape(db, ks)
  {
    if ks.idx !in db then SX.Missing
    else SX.Kept(db[ks.idx].value.n, db[ks.prev].value.n, db[ks.curr].value.n, db[ks.idx].deadline.ms)
  }

  function PutWindow(db: Db, ks: WindowKeys, cell: SX.Cell): (db': Db)
    requires cell.Kept?
  {
    db[ks.prev := Entry(Number(cell.prev), At(cell.deadline))]
      [ks.curr := Entry(Number(cell.curr), At(cell.deadline))]
      [ks.idx := Entry(Number(cell.idx), At(cell.deadline))]
  }

  predicate BucketShape(db: Db, key: string) {
    key in db ==> db[key].value.Bucket?
  }

  function BucketCell(db: Db, key: string): (cell: TokenBucketExpiry.Cell)
    requires BucketShape(db, key)
  {
    if key !in db then TokenBucketExpiry.Missing
    else TokenBucketExpiry.Kept(db[key].value.tokens, db[key].value.lastRefillMs, db[key].deadline)
  }

  function PutBucket(db: Db, key: string, cell: TokenBucketExpiry.Cell): (db': Db)
    requires cell.Kept?
  {
    db[key := Entry(Bucket(cell.tokens, cell.last), cell.deadline)]
  }

  /** What was put is what is found, and nothing else is touched. */
  lemma {:induction false} PutWindowThenLook(db: Db, ks: WindowKeys, cell: SX.Cell)
    requires ks.Distinct() && cell.Kept?
    ensures WindowShape(PutWindow(db, ks, cell), ks)
    ensures WindowCell(PutWindow(db, ks, cell), ks) == cell
    ensures forall k :: k !in {ks.curr, ks.prev, ks.idx} ==>
              (k in PutWindow(db, ks, cell) <==> k in db) && (k in db ==> PutWindow(db, ks, cell)[k] == db[k])
  {
  }

  // ---- what the scripts do, in terms of the stored values alone

  /** sliding_window.lua takes `db` to `db'`: a live stored window up to the
      reading's becomes the current or the previous count or nothing, the cost is
      charged if it fits, and whatever is written lives for two windows. */
  ghost predicate WindowStep(
    db: Db, db': Db, ks: WindowKeys, limit: int, window: int, now: int, clock: int, cost: int, reply: Reply)
    requires WindowShape(db, ks) && 0 < window
  {
    var w, live, end := now / window, Live(db, ks.idx, clock), At(clock + 2000 * window);
    var held := live && w <= db[ks.idx].value.n;
    var before := if held then db[ks.prev].value.n
                  else if live && db[ks.idx].value.n == w - 1 then db[ks.curr].value.n else 0;
    var sofar := if held then db[ks.curr].value.n else 0;
    && SX.ReplyFor(limit, window, before, sofar, now, cost, reply)
    && db' == if held && !reply.allowed then db
              else db[ks.prev := Entry(Number(before), end)]
                     [ks.curr := Entry(Number(if reply.allowed then sofar + cost else sofar), end)]
                     [ks.idx := Entry(Number(if held then db[ks.idx].value.n else w), end)]
  }

  lemma {:induction false} WindowScript(db: Db, ks: WindowKeys, limit: int, window: int, k: Check)
    requires ks.Distinct() && WindowShape(db, ks) && 0 < limit && 0 < window
    ensures var c, cell := SW.Config(limit, window), WindowCell(db, ks);
            WindowStep(db, PutWindow(db, ks, SX.NextCell(c, cell, k)), ks, limit, window, k.read, k.at, k.cost,
                       SX.CellAnswer(c, cell, k))
  {
    hide SX.ReplyFor, SX.NextCell, SX.CellAnswer;
    SX.ScriptIs(SW.Config(limit, window), WindowCell(db, ks), k);
    if ks.idx in db {
      assert PutWindow(db, ks, WindowCell(db, ks)) == db;
    }
  }

  /** A whole number of seconds from now: a minute more than the least in which an
      empty bucket fills up. */
  ghost predicate MinuteAfterFull(capacity: int, rate: real, clock: int, deadline: Deadline) {
    && deadline.At? && (deadline.ms - clock) % 1000 == 0
    && LeastSeconds(rate, capacity as real, (deadline.ms - clock) / 1000 - 60)
  }

  /** token_bucket.lua takes `db` to `db'`: a missing key is a full bucket, a live
      one has earned the refill since its last check, up to the capacity. */
  ghost predicate BucketStep(
    db: Db, db': Db, key: string, capacity: int, rate: real, now: int, clock: int, cost: int, reply: Reply)
    requires BucketShape(db, key)
  {
    var live := Live(db, key, clock);
    var pool := if live then Refilled(capacity, rate, db[key].value.tokens, db[key].value.lastRefillMs, now)
                else capacity as real;
    && ReplyFor(capacity, rate, pool, now, cost, reply)
    && key in db' && db' == db[key := db'[key]]
    && db'[key].value == Bucket(if reply.allowed then pool - cost as real else pool, now)
    && (rate <= 0.0 ==> db'[key].deadline == if live then db[key].deadline else Never)
    && (0.0 < rate ==> MinuteAfterFull(capacity, rate, clock, db'[key].deadline))
  }

  lemma {:induction false} BucketScript(db: Db, key: string, capacity: int, rate: real, k: Check)
    requires BucketShape(db, key)
    ensures var c, cell := TB.Config(capacity, rate), BucketCell(db, key);
            BucketStep(db, PutBucket(db, key, NextCell(c, cell, k)), key, capacity, rate, k.read, k.at, k.cost,
                       CellAnswer(c, cell, k))
  {
    hide ReplyFor, NextCell, CellAnswer, LeastSeconds, Lifetime, MinuteAfterFull, Refilled;
    ScriptIs(TB.Config(capacity, rate), BucketCell(db, key), k);
    if 0.0 < rate {
      MinuteIs(capacity, rate, k.at, Lifetime(TB.Config(capacity, rate)));
    }
  }

  lemma {:induction false} MinuteIs(capacity: int, rate: real, clock: int, lifetime: int)
    requires LeastSeconds(rate, capacity as real, lifetime - 60)
    ensures MinuteAfterFull(capacity, rate, clock, At(clock + 1000 * lifetime))
  {
    hide LeastSeconds;
    assert (clock + 1000 * lifetime - clock) / 1000 == lifetime;
  }

  class Store {
    var db: Db
    /** Milliseconds. */
    var clock: int

    constructor (clock: int)
      ensures db == map[] && this.clock == clock
    {
      db, this.clock := map[], clock;
    }

    method Get(key: string) returns (n: Option<int>)
      requires Live(db, key, clock) ==> db[key].value.Number?
      ensures n == if Live(db, key, clock) then Some(db[key].value.n) else None
    {
      n := if Live(db, key, clock) then Some(db[key].value.n) else None;
    }

    /** SET drops any deadline. */
    method Set(key: string, n: int)
      modifies this`db
      ensures db == old(db)[key := Entry(Number(n), Never)]
    {
      db := db[key := Entry(Number(n), Never)];
    }

    /** EXPIRE on a missing key does nothing. */
    method Expire(key: string, seconds: int)
      modifies this`db
      ensures db == if Live(old(db), key, clock)
                    then old(db)[key := old(db)[key].(deadline := At(clock + 1000 * seconds))] else old(db)
    {
      if Live(db, key, clock) {
        db := db[key := db[key].(deadline := At(clock + 1000 * seconds))];
      }
    }

    method HMGet(key: string) returns (tokens: Option<real>, lastRefillMs: Option<int>)
      requires Live(db, key, clock) ==> db[key].value.Bucket?
      ensures Live(db, key, clock) ==> tokens == Some(db[key].value.tokens)
      ensures Live(db, key, clock) ==> lastRefillMs == Some(db[key].value.lastRefillMs)
      ensures !Live(db, key, clock) ==> tokens == None && lastRefillMs == None
    {
      if Live(db, key, clock) {
        tokens, lastRefillMs := Some(db[key].value.tokens), Some(db[key].value.lastRefillMs);
      } else {
        tokens, lastRefillMs := None, None;
      }
    }

    /** HSET keeps a live key's deadline. */
    method HSet(key: string, tokens: real, lastRefillMs: int)
      modifies this`db
      ensures db == old(db)[key := Entry(Bucket(tokens, lastRefillMs),
                                         if Live(old(db), key, clock) then old(db)[key].deadline else Never)]
    {
      db := db[key := Entry(Bucket(tokens, lastRefillMs), if Live(db, key, clock) then db[key].deadline else Never)];
    }

    /** sliding_window.lua, lines 20-35: move the counters to the current window. */
    method RotateKeys(ks: WindowKeys, window: int, currWindow: int)
      requires ks.Distinct() && WindowShape(db, ks) && 0 < window
      modifies this`db
      ensures var cell := WindowCell(old(db), ks);
              var s := SX.Visible(cell, clock);
              var r := SW.Rotate(s, currWindow);
              db == if s.Fresh? || s.idx < currWindow
                    then PutWindow(old(db), ks, SX.Kept(r.idx, r.prev, r.curr, clock + 2000 * window)) else old(db)
    {
      var stored := Get(ks.idx);
      if stored.None? || stored.value < currWindow {
        var carried := 0;
        if stored.Some? && stored.value == currWindow - 1 {
          var currVal := Get(ks.curr);
          carried := OrZero(currVal);
        }
        ReplaceKeys(ks, window, currWindow, carried);
      }
    }

    /** The writes of a rotation. */
    method ReplaceKeys(ks: WindowKeys, window: int, currWindow: int, carried: int)
      requires ks.Distinct() && 0 < window
      modifies this`db
      ensures db == PutWindow(old(db), ks, SX.Kept(currWindow, carried, 0, clock + 2000 * window))
    {
      Set(ks.prev, carried);
      Set(ks.curr, 0);
      Set(ks.idx, currWindow);
      Expire(ks.prev, window * 2);
      Expire(ks.curr, window * 2);
      Expire(ks.idx, window * 2);
    }

    /** sliding_window.lua, lines 51-55: charge the cost and renew the keys. */
    method ChargeKeys(ks: WindowKeys, window: int, newCurr: int)
      requires ks.Distinct() && WindowShape(db, ks) && Live(db, ks.idx, clock) && 0 < window
      modifies this`db
      ensures var cell := WindowCell(old(db), ks);
              db == PutWindow(old(db), ks, SX.Kept(cell.idx, cell.prev, newCurr, clock + 2000 * window))
    {
      Set(ks.curr, newCurr);
      Expire(ks.curr, window * 2);
      Expire(ks.prev, window * 2);
      Expire(ks.idx, window * 2);
    }

    /** sliding_window.lua */
    method EvalSlidingWindow(ks: WindowKeys, limit: int, window: int, now: int, cost: Cost) returns (reply: Reply)
      requires ks.Distinct() && WindowShape(db, ks)
      requires 0 < limit && 0 < window
      modifies this`db
      ensures var k := Check(now, clock, cost);
              var cell := WindowCell(old(db), ks);
              && reply == SX.CellAnswer(SW.Config(limit, window), cell, k)
              && db == PutWindow(old(db), ks, SX.NextCell(SW.Config(limit, window), cell, k))
      ensures WindowStep(old(db), db, ks, limit, window, now, clock, cost, reply)
    {
      hide WindowStep;
      WindowScript(db, ks, limit, window, Check(now, clock, cost));
      ghost var c := SW.Config(limit, window);
      ghost var s := SX.Visible(WindowCell(db, ks), clock);
      var currWindow := now / window;
      RotateKeys(ks, window, currWindow);
      ghost var r := SW.Rotate(s, currWindow);
      assert WindowShape(db, ks) && Live(db, ks.idx, clock);
      assert SX.Visible(WindowCell(db, ks), clock) == r;

      var prevCount := Get(ks.prev);
      var currCount := Get(ks.curr);
      var windowStart := currWindow * window;
      var elapsed := now - windowStart;
      // estimate * window, with weight == 1 - elapsed / window
      var estimate := OrZero(prevCount) * (window - elapsed) + OrZero(currCount) * window;
      assert estimate == SW.Scaled(c, r, now);

      if estimate + cost * window > limit * window {
        reply := Reply(false, Max(0, (limit * window - estimate) / window), windowStart + window, window - elapsed);
        assert db == PutWindow(old(db), ks, SX.NextCell(c, WindowCell(old(db), ks), Check(now, clock, cost)));
        return;
      }
      ChargeKeys(ks, window, OrZero(currCount) + cost);
      reply := Reply(true, Max(0, (limit * window - (estimate + cost * window)) / window), windowStart + window, 0);
    }

    /** token_bucket.lua, lines 15-27: what the bucket holds now. */
    method RefillBucket(key: string, capacity: int, rate: real, nowMs: int) returns (tokens: real)
      requires BucketShape(db, key)
      ensures tokens == TB.Pool(TB.Config(capacity, rate), Visible(BucketCell(db, key), clock), nowMs)
    {
      var stored, last := HMGet(key);
      if stored.None? {
        tokens := capacity as real;
      } else {
        var elapsedMs := Max(0, nowMs - last.value);
        var refill := (elapsedMs as real / 1000.0) * rate;
        tokens := MinReal(capacity as real, stored.value + refill);
      }
    }

    /** token_bucket.lua, lines 41-45: store what is left and renew the key. */
    method KeepBucket(key: string, capacity: int, rate: real, tokens: real, nowMs: int)
      requires BucketShape(db, key)
      modifies this`db
      ensures var b := Visible(BucketCell(old(db), key), clock);
              db == PutBucket(old(db), key, Kept(tokens, nowMs,
                if 0.0 < rate then At(clock + 1000 * Lifetime(TB.Config(capacity, rate)))
                else if b.Full? then Never else old(db)[key].deadline))
    {
      HSet(key, tokens, nowMs);
      if rate > 0.0 {
        Expire(key, Ceil(capacity as real / rate) + 60);
      }
    }

    /** token_bucket.lua */
    method EvalTokenBucket(key: string, capacity: int, rate: real, nowMs: int, cost: Cost) returns (reply: Reply)
      requires BucketShape(db, key)
      modifies this`db
      ensures var k := Check(nowMs, clock, cost);
              var cell := BucketCell(old(db), key);
              && reply == CellAnswer(TB.Config(capacity, rate), cell, k)
              && db == PutBucket(old(db), key, NextCell(TB.Config(capacity, rate), cell, k))
      ensures BucketStep(old(db), db, key, capacity, rate, nowMs, clock, cost, reply)
    {
      hide BucketStep, TB.Pool;
      BucketScript(db, key, capacity, rate, Check(nowMs, clock, cost));
      ghost var c := TB.Config(capacity, rate);
      ghost var b := Visible(BucketCell(db, key), clock);
      var tokens := RefillBucket(key, capacity, rate, nowMs);
      var allowed, retryAfter := false, 0;
      if tokens >= cost as real {
        allowed := true;
        tokens := tokens - cost as real;
      } else if rate > 0.0 {
        retryAfter := Ceil((cost as real - tokens) / rate);
      }
      assert tokens == TB.Left(c, b, nowMs, cost);

      KeepBucket(key, capacity, rate, tokens, nowMs);

      var resetAt := nowMs / 1000;
      if rate > 0.0 && tokens < capacity as real {
        resetAt := nowMs / 1000 + Ceil((capacity as real - tokens) / rate);
      }
      reply := Reply(allowed, tokens.Floor, resetAt, retryAfter);
    }
  }
}
