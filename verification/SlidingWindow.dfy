/** The sliding window script on its three counters, without expiry.

    The script compares `prev * (1 - elapsed / window) + curr + cost` with the
    limit.  Here both sides are multiplied by the window, so that everything
    stays an integer. */
module SlidingWindow {
  import opened Arith
  import opened Decisions

  datatype Config = Config(limit: int, window: int) {
    predicate Valid() {
      0 < limit && 0 < window
    }
  }

  /** `Fresh` is a missing (or expired) index key. */
  datatype Counters = Fresh | Held(idx: int, prev: int, curr: int)

  /** The first second of aligned window `w`. */
  function Start(c: Config, w: int): (first: int) {
    w * c.window
  }

  /** The aligned window a reading (in seconds) falls into. */
  function Index(c: Config, now: int): (w: int)
    requires c.Valid()
    ensures Start(c, w) <= now < Start(c, w) + c.window
  {
    DivBounds(now, c.window);
    now / c.window
  }

  function Elapsed(c: Config, now: int): (e: int)
    requires c.Valid()
    ensures 0 <= e < c.window
  {
    now - Start(c, Index(c, now))
  }

  function Rotate(s: Counters, w: int): (r: Counters)
    ensures r.Held? && w <= r.idx
  {
    if s.Fresh? || s.idx < w then
      Held(w, if s.Held? && s.idx == w - 1 then s.curr else 0, 0)
    else s
  }

  /** The weighted estimate, times the window. */
  function Scaled(c: Config, s: Counters, now: int): (estimate: int)
    requires c.Valid() && s.Held?
  {
    s.prev * (c.window - Elapsed(c, now)) + s.curr * c.window
  }

  predicate Admits(c: Config, s: Counters, now: int, cost: int)
    requires c.Valid()
  {
    Scaled(c, Rotate(s, Index(c, now)), now) + cost * c.window <= c.limit * c.window
  }

  /** floor(limit - estimate), never negative. */
  function Room(c: Config, scaled: int): (room: int)
    requires c.Valid()
  {
    Max(0, (c.limit * c.window - scaled) / c.window)
  }

  function Next(c: Config, s: Counters, now: int, cost: Cost): (n: Counters)
    requires c.Valid()
    ensures n.Held? && Index(c, now) <= n.idx
  {
    var r := Rotate(s, Index(c, now));
    if Admits(c, s, now, cost) then r.(curr := r.curr + cost) else r
  }

  function Answer(c: Config, s: Counters, now: int, cost: Cost): (reply: Reply)
    requires c.Valid()
  {
    var r := Rotate(s, Index(c, now));
    var end := Start(c, Index(c, now)) + c.window;
    if Admits(c, s, now, cost) then
      Reply(true, Room(c, Scaled(c, r, now) + cost * c.window), end, 0)
    else
      Reply(false, Room(c, Scaled(c, r, now)), end, c.window - Elapsed(c, now))
  }

  // ---- aligned windows

  lemma {:induction false} StartStep(c: Config, w: int)
    ensures Start(c, w + 1) == Start(c, w) + c.window
    ensures Start(c, w - 1) == Start(c, w) - c.window
  {
  }

  lemma {:induction false} StartMono(c: Config, w: int, w': int)
    requires c.Valid() && w <= w'
    ensures Start(c, w) <= Start(c, w')
    ensures w < w' ==> Start(c, w) + c.window <= Start(c, w')
  {
    MulMono(w, w', c.window);
    if w < w' {
      MulMono(w + 1, w', c.window);
    }
  }

  lemma {:induction false} IndexIs(c: Config, now: int, w: int)
    requires c.Valid() && Start(c, w) <= now < Start(c, w) + c.window
    ensures Index(c, now) == w
  {
    DivUnique(now, c.window, w);
  }

  lemma {:induction false} IndexMono(c: Config, t: int, u: int)
    requires c.Valid() && t <= u
    ensures Index(c, t) <= Index(c, u)
  {
    DivMono(t, u, c.window);
  }

  lemma {:induction false} IndexAtLeast(c: Config, now: int, w: int)
    requires c.Valid()
    ensures w <= Index(c, now) <==> Start(c, w) <= now
  {
    DivAtLeast(now, c.window, w);
  }

  lemma {:induction false} CancelWindow(a: int, b: int, window: int)
    requires 0 < window
    ensures a * window <= b * window <==> a <= b
  {
    if a <= b {
      MulMono(a, b, window);
    } else {
      MulMono(b + 1, a, window);
    }
  }

  // ---- runs over a key that starts out missing

  function After(c: Config, checks: seq<Check>): (s: Counters)
    requires c.Valid()
    ensures s.Fresh? <==> checks == []
  {
    if checks == [] then Fresh
    else
      var k := checks[|checks| - 1];
      Next(c, After(c, checks[..|checks| - 1]), k.read, k.cost)
  }

  function Run(c: Config, checks: seq<Check>): (replies: seq<Reply>)
    requires c.Valid()
    ensures |replies| == |checks|
  {
    if checks == [] then []
    else
      var k := checks[|checks| - 1];
      Run(c, checks[..|checks| - 1]) + [Answer(c, After(c, checks[..|checks| - 1]), k.read, k.cost)]
  }

  ghost predicate Sane(s: Counters) {
    s.Held? ==> 0 <= s.prev && 0 <= s.curr
  }

  lemma {:induction false} AfterSane(c: Config, checks: seq<Check>)
    requires c.Valid()
    ensures Sane(After(c, checks))
  {
    if checks != [] {
      AfterSane(c, checks[..|checks| - 1]);
    }
  }

  /** Checks reach the counters window by window: no check meets an index ahead
      of its own reading.  Inside a window readings may come in any order. */
  ghost predicate WindowOrdered(c: Config, checks: seq<Check>)
    requires c.Valid()
  {
    forall i, j :: 0 <= i <= j < |checks| ==> Index(c, checks[i].read) <= Index(c, checks[j].read)
  }

  lemma {:induction false} OrderedReadings(c: Config, checks: seq<Check>)
    requires c.Valid() && NonDecreasing(checks)
    ensures WindowOrdered(c, checks)
  {
    forall i, j | 0 <= i <= j < |checks| ensures Index(c, checks[i].read) <= Index(c, checks[j].read) {
      IndexMono(c, checks[i].read, checks[j].read);
    }
  }

  lemma {:induction false} KeepWindowOrdered(c: Config, checks: seq<Check>, mask: seq<bool>)
    requires c.Valid() && |checks| == |mask| && WindowOrdered(c, checks)
    ensures WindowOrdered(c, Keep(checks, mask))
  {
    hide Index;
    if checks != [] {
      var n := |checks| - 1;
      KeepWindowOrdered(c, checks[..n], mask[..n]);
      forall x | x in Keep(checks[..n], mask[..n]) ensures Index(c, x.read) <= Index(c, checks[n].read) {
        assert x in checks[..n];
      }
    }
  }

  /** In a window-ordered run the stored index is the last reading's window. */
  lemma {:induction false} IndexFollowsReadings(c: Config, checks: seq<Check>)
    requires c.Valid() && WindowOrdered(c, checks) && checks != []
    ensures After(c, checks).idx == Index(c, checks[|checks| - 1].read)
  {
    hide Admits, Index;
    if |checks| > 1 {
      IndexFollowsReadings(c, checks[..|checks| - 1]);
    }
  }

  /** Every index a window-ordered run has stored is at most the next reading's. */
  lemma {:induction false} NextIndex(c: Config, checks: seq<Check>)
    requires c.Valid() && WindowOrdered(c, checks) && checks != []
    ensures var s := After(c, checks[..|checks| - 1]);
            s.Held? ==> s.idx <= Index(c, checks[|checks| - 1].read)
  {
    hide Index, Admits;
    if |checks| > 1 {
      IndexFollowsReadings(c, checks[..|checks| - 1]);
    }
  }

  // ---- what the reply promises

  lemma {:induction false} RoomIsExact(c: Config, scaled: int, more: Cost)
    requires c.Valid()
    ensures scaled + more * c.window <= c.limit * c.window <==> more <= Room(c, scaled)
  {
    DivAtLeast(c.limit * c.window - scaled, c.window, more);
  }

  /** `remaining` is exact: a further check at the same reading is allowed
      if and only if its cost is at most `remaining`. */
  lemma {:induction false} RemainingIsExact(c: Config, s: Counters, now: int, cost: Cost, more: Cost)
    requires c.Valid()
    ensures Answer(c, Next(c, s, now, cost), now, more).allowed
       <==> more <= Answer(c, s, now, cost).remaining
  {
    hide Room, Index;
    var r := Rotate(s, Index(c, now));
    var n := Next(c, s, now, cost);
    assert Rotate(n, Index(c, now)) == n;
    assert n.curr * c.window == r.curr * c.window + (n.curr - r.curr) * c.window;
    RoomIsExact(c, Scaled(c, n, now), more);
  }

  /** `reset_at` is the first second outside the reading's aligned window; an
      allowed check has nothing to wait for, a denied one waits until then. */
  lemma {:induction false} ResetEndsWindow(c: Config, s: Counters, now: int, cost: Cost, u: int)
    requires c.Valid()
    ensures var a := Answer(c, s, now, cost);
            && now < a.resetAt <= now + c.window
            && (u < a.resetAt <==> Index(c, u) <= Index(c, now))
            && now + a.retryAfter == if a.allowed then now else a.resetAt
  {
    hide Index, Start, Admits, Scaled, Room;
    var w := Index(c, now);
    StartStep(c, w);
    IndexAtLeast(c, u, w + 1);
  }

  /** On the first second of the window after the held one, the held count
      has become the previous count and still weighs one. */
  lemma {:induction false} AdmitsAtStart(c: Config, s: Counters, w: int, cost: int)
    requires c.Valid() && s.Held? && s.idx == w - 1
    ensures Admits(c, s, Start(c, w), cost) <==> s.curr + cost <= c.limit
  {
    IndexIs(c, Start(c, w), w);
    assert Rotate(s, w) == Held(w, s.curr, 0);
    assert Scaled(c, Held(w, s.curr, 0), Start(c, w)) + cost * c.window == (s.curr + cost) * c.window;
    CancelWindow(s.curr + cost, c.limit, c.window);
  }

  /** `retry_after` reaches the start of the next aligned window, and what
      happens there is decided by the denied window's own count, which comes
      back with weight one: the retry succeeds if and only if that count left
      room for the cost. */
  lemma {:induction false} RetryReachesNextWindow(c: Config, s: Counters, now: int, cost: Cost)
    requires c.Valid() && (s.Held? ==> s.idx <= Index(c, now))
    requires !Answer(c, s, now, cost).allowed
    ensures var a := Answer(c, s, now, cost);
            && 1 <= a.retryAfter <= c.window
            && now + a.retryAfter == a.resetAt
            && Index(c, a.resetAt) == Index(c, now) + 1
            && (Answer(c, Next(c, s, now, cost), a.resetAt, cost).allowed
                <==> Next(c, s, now, cost).curr + cost <= c.limit)
  {
    var w := Index(c, now);
    StartStep(c, w);
    IndexIs(c, Start(c, w + 1), w + 1);
    AdmitsAtStart(c, Next(c, s, now, cost), w + 1, cost);
  }

  /** The loose reading of `retry_after` is false: a full window denies its
      own retry. */
  lemma {:induction false} RetryMayStillBeDenied(c: Config, now: int, cost: Cost)
    requires c.Valid()
    ensures var full := Next(c, Fresh, now, c.limit);
            var a := Answer(c, full, now, cost);
            !a.allowed && !Answer(c, Next(c, full, now, cost), now + a.retryAfter, cost).allowed
  {
    var w := Index(c, now);
    assert Scaled(c, Held(w, 0, 0), now) == 0;
    var full := Next(c, Fresh, now, c.limit);
    assert full == Held(w, 0, c.limit);
    CancelWindow(c.limit + cost, c.limit, c.window);
    assert Scaled(c, full, now) + cost * c.window == (c.limit + cost) * c.window;
    assert !Admits(c, full, now, cost);
    RetryReachesNextWindow(c, full, now, cost);
  }

  // ---- recovery

  lemma {:induction false} RotateAgain(s: Counters, w1: int, w2: int)
    requires w1 <= w2 && (s.Held? ==> s.idx <= w1)
    ensures Rotate(Rotate(s, w1), w2) == Rotate(s, w2)
  {
  }

  /** The rotated-in count never weighs more than it did as the current one. */
  lemma {:induction false} FadeAcross(prev: int, curr: int, rotated: int, window: int, e: int, e': int)
    requires 0 <= prev && 0 <= curr && (rotated == curr || rotated == 0)
    requires 0 <= e < window && 0 <= e' < window
    ensures rotated * (window - e') <= prev * (window - e) + curr * window
  {
    MulMono(window - e', window, rotated);
    MulMono(rotated, curr, window);
    MulMono(0, window - e, prev);
  }

  /** With no admission in between, the estimate never rises. */
  lemma {:induction false} EstimateFalls(c: Config, s: Counters, t: int, u: int)
    requires c.Valid() && Sane(s) && t <= u && (s.Held? ==> s.idx <= Index(c, t))
    ensures Scaled(c, Rotate(s, Index(c, u)), u) <= Scaled(c, Rotate(s, Index(c, t)), t)
  {
    IndexMono(c, t, u);
    var r, q := Rotate(s, Index(c, t)), Rotate(s, Index(c, u));
    if Index(c, u) == Index(c, t) {
      MulMono(c.window - Elapsed(c, u), c.window - Elapsed(c, t), r.prev);
    } else {
      FadeAcross(r.prev, r.curr, q.prev, c.window, Elapsed(c, t), Elapsed(c, u));
    }
  }

  /** A tail of denied checks changes nothing but how far the counters have
      been rotated. */
  lemma {:induction false} DeniedOnlyRotate(c: Config, checks: seq<Check>, n: nat, w: int)
    requires c.Valid() && WindowOrdered(c, checks) && n <= |checks|
    requires forall i :: n <= i < |checks| ==> !Run(c, checks)[i].allowed
    requires checks != [] ==> Index(c, checks[|checks| - 1].read) <= w
    ensures Rotate(After(c, checks), w) == Rotate(After(c, checks[..n]), w)
    decreases |checks|
  {
    hide Index, Scaled, Room;
    if n == |checks| {
      assert checks[..n] == checks;
    } else {
      var m := |checks| - 1;
      var init := checks[..m];
      assert init[..n] == checks[..n];
      assert Run(c, init) == Run(c, checks)[..m];
      NextIndex(c, checks);
      DeniedOnlyRotate(c, init, n, w);
      assert !Run(c, checks)[m].allowed;
      RotateAgain(After(c, init), Index(c, checks[m].read), w);
    }
  }

  /** So a check that would be allowed at `t` stays allowed at every later `u`
      while nothing is admitted, however many denied checks come between. */
  lemma {:induction false} AllowedStaysAllowed(c: Config, checks: seq<Check>, n: nat, t: int, u: int, cost: Cost)
    requires c.Valid() && WindowOrdered(c, checks) && n <= |checks|
    requires forall i :: 0 <= i < n ==> Index(c, checks[i].read) <= Index(c, t)
    requires forall i :: 0 <= i < |checks| ==> Index(c, checks[i].read) <= Index(c, u)
    requires forall i :: n <= i < |checks| ==> !Run(c, checks)[i].allowed
    requires t <= u && Answer(c, After(c, checks[..n]), t, cost).allowed
    ensures Answer(c, After(c, checks), u, cost).allowed
  {
    hide Index, Scaled, Room;
    var s := After(c, checks[..n]);
    AfterSane(c, checks[..n]);
    if n != 0 {
      IndexFollowsReadings(c, checks[..n]);
    }
    EstimateFalls(c, s, t, u);
    DeniedOnlyRotate(c, checks, n, Index(c, u));
  }

  /** A full limit is admitted exactly when nothing counts any more. */
  lemma {:induction false} FullLimitAdmittedIff(c: Config, s: Counters, now: int)
    requires c.Valid() && Sane(s)
    ensures Admits(c, s, now, c.limit)
       <==> Rotate(s, Index(c, now)).prev == 0 && Rotate(s, Index(c, now)).curr == 0
  {
    hide Index, Start;
    var r, e := Rotate(s, Index(c, now)), Elapsed(c, now);
    MulMono(0, r.curr, c.window);
    MulMono(1, c.window - e, r.prev);
    if 1 <= r.curr {
      MulMono(1, r.curr, c.window);
    }
  }

  /** EXACT RECOVERY: from `reset_at` on, a full limit is allowed exactly if the
      window that has ended admitted nothing, or one window more has passed. */
  lemma {:induction false} FullRecoveryIff(c: Config, s: Counters, now: int, cost: Cost, u: int)
    requires c.Valid() && Sane(s) && (s.Held? ==> s.idx <= Index(c, now))
    requires Answer(c, s, now, cost).resetAt <= u
    ensures Answer(c, Next(c, s, now, cost), u, c.limit).allowed
       <==> Next(c, s, now, cost).curr == 0 || Answer(c, s, now, cost).resetAt + c.window <= u
  {
    hide Index, Start, Admits, Scaled, Room;
    var w := Index(c, now);
    StartStep(c, w);
    StartStep(c, w + 1);
    IndexAtLeast(c, u, w + 1);
    IndexAtLeast(c, u, w + 2);
    FullLimitAdmittedIff(c, Next(c, s, now, cost), u);
  }

  /** One window after the last check's `reset_at` nothing counts any more:
      exactly the costs up to the limit are allowed. */
  lemma {:induction false} FullRecovery(c: Config, checks: seq<Check>, u: int, cost: Cost)
    requires c.Valid() && WindowOrdered(c, checks) && checks != []
    requires Run(c, checks)[|checks| - 1].resetAt + c.window <= u
    ensures Answer(c, After(c, checks), u, cost).allowed <==> cost <= c.limit
  {
    IndexFollowsReadings(c, checks);
    var w := Index(c, checks[|checks| - 1].read);
    StartStep(c, w + 1);
    IndexAtLeast(c, u, w + 2);
    assert Scaled(c, Held(Index(c, u), 0, 0), u) == 0;
    CancelWindow(cost, c.limit, c.window);
  }

  // ---- denied checks leave no trace

  /** Two states that rotate to the same counters for window `w` cannot be told
      apart by any check of that window or later. */
  lemma {:induction false} SameRotationSameFuture(c: Config, s: Counters, s': Counters, w: int, now: int, cost: Cost)
    requires c.Valid() && w <= Index(c, now)
    requires (s.Held? ==> s.idx <= w) && (s'.Held? ==> s'.idx <= w)
    requires Rotate(s, w) == Rotate(s', w)
    ensures Rotate(s, Index(c, now)) == Rotate(s', Index(c, now))
    ensures Answer(c, s, now, cost) == Answer(c, s', now, cost)
    ensures Next(c, s, now, cost) == Next(c, s', now, cost)
  {
    hide Index, Scaled, Room;
    RotateAgain(s, w, Index(c, now));
    RotateAgain(s', w, Index(c, now));
  }

  lemma {:induction false} TraceFree(c: Config, checks: seq<Check>, mask: seq<bool>)
    requires c.Valid() && WindowOrdered(c, checks) && |mask| == |checks|
    requires OnlyDeniedDropped(Run(c, checks), mask)
    ensures Run(c, Keep(checks, mask)) == Keep(Run(c, checks), mask)
    ensures checks != [] ==>
              var w := Index(c, checks[|checks| - 1].read);
              && (After(c, Keep(checks, mask)).Held? ==> After(c, Keep(checks, mask)).idx <= w)
              && Rotate(After(c, Keep(checks, mask)), w) == Rotate(After(c, checks), w)
  {
    hide Index, Scaled, Room;
    if checks == [] {
      return;
    }
    var n := |checks| - 1;
    var init, k := checks[..n], checks[n];
    assert Run(c, init) == Run(c, checks)[..n];
    TraceFree(c, init, mask[..n]);
    var s, s' := After(c, init), After(c, Keep(init, mask[..n]));
    if init != [] {
      IndexFollowsReadings(c, init);
      SameRotationSameFuture(c, s, s', Index(c, init[n - 1].read), k.read, k.cost);
    }
    if mask[n] {
      assert Keep(checks, mask)[..|Keep(checks, mask)| - 1] == Keep(init, mask[..n]);
    } else {
      assert !Run(c, checks)[n].allowed;
    }
  }
}
