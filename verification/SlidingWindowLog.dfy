/** The sliding window against the full, unbounded log of admitted checks. */
module SlidingWindowLog {
  import opened Arith
  import opened Decisions
  import opened SlidingWindow

  datatype Entry = Entry(time: int, cost: Cost)

  /** Oldest entry first. */
  type Log = seq<Entry>

  /** Total cost admitted at times in [lo, hi). */
  function SumIn(log: Log, lo: int, hi: int): (total: int)
    ensures 0 <= total
  {
    if log == [] then 0
    else
      var x := log[|log| - 1];
      SumIn(log[..|log| - 1], lo, hi) + if lo <= x.time < hi then x.cost else 0
  }

  /** Total cost admitted in aligned window `w`. */
  function WindowTotal(c: Config, log: Log, w: int): (total: int)
    ensures 0 <= total
  {
    SumIn(log, Start(c, w), Start(c, w + 1))
  }

  // ---- the reference limiter: it remembers everything

  /** The two sums the estimate is made of, read off the log. */
  function Counted(c: Config, log: Log, now: int): (s: Counters)
    requires c.Valid()
  {
    var w := Index(c, now);
    Held(w, WindowTotal(c, log, w - 1), WindowTotal(c, log, w))
  }

  function LogAfter(c: Config, checks: seq<Check>): (log: Log)
    requires c.Valid()
  {
    if checks == [] then []
    else
      var log := LogAfter(c, checks[..|checks| - 1]);
      var k := checks[|checks| - 1];
      if Admits(c, Counted(c, log, k.read), k.read, k.cost) then log + [Entry(k.read, k.cost)] else log
  }

  function LogRun(c: Config, checks: seq<Check>): (replies: seq<Reply>)
    requires c.Valid()
    ensures |replies| == |checks|
  {
    if checks == [] then []
    else
      var log := LogAfter(c, checks[..|checks| - 1]);
      var k := checks[|checks| - 1];
      LogRun(c, checks[..|checks| - 1]) + [Answer(c, Counted(c, log, k.read), k.read, k.cost)]
  }

  // ---- properties of the sums

  /** Entries are in the order of their windows. */
  ghost predicate Sorted(c: Config, log: Log)
    requires c.Valid()
  {
    forall i, j :: 0 <= i <= j < |log| ==> Index(c, log[i].time) <= Index(c, log[j].time)
  }

  lemma {:induction false} SumAppend(log: Log, x: Entry, lo: int, hi: int)
    ensures SumIn(log + [x], lo, hi) == SumIn(log, lo, hi) + if lo <= x.time < hi then x.cost else 0
  {
    assert (log + [x])[..|log|] == log;
  }

  lemma {:induction false} SumSplit(log: Log, lo: int, mid: int, hi: int)
    requires lo <= mid <= hi
    ensures SumIn(log, lo, hi) == SumIn(log, lo, mid) + SumIn(log, mid, hi)
  {
    if log != [] {
      SumSplit(log[..|log| - 1], lo, mid, hi);
    }
  }

  /** No entry inside, nothing to count. */
  lemma {:induction false} SumEmpty(log: Log, lo: int, hi: int)
    requires forall x :: x in log ==> x.time < lo || hi <= x.time
    ensures SumIn(log, lo, hi) == 0
  {
    if log != [] {
      SumEmpty(log[..|log| - 1], lo, hi);
    }
  }

  lemma {:induction false} SumMono(log: Log, lo: int, lo': int, hi': int, hi: int)
    requires lo <= lo' && hi' <= hi
    ensures SumIn(log, lo', hi') <= SumIn(log, lo, hi)
  {
    if lo' <= hi' {
      SumSplit(log, lo, lo', hi);
      SumSplit(log, lo', hi', hi);
    } else {
      SumEmpty(log, lo', hi');
    }
  }

  // ---- the counters refine the log

  ghost predicate Agrees(c: Config, s: Counters, log: Log)
    requires c.Valid()
  {
    match s
    case Fresh => log == []
    case Held(idx, prev, curr) =>
      && prev == WindowTotal(c, log, idx - 1)
      && curr == WindowTotal(c, log, idx)
      && forall x :: x in log ==> x.time < Start(c, idx + 1)
  }

  /** Rotating to the reading's window keeps exactly the two sums in use. */
  lemma {:induction false} RotationCounts(c: Config, s: Counters, log: Log, now: int)
    requires c.Valid() && Agrees(c, s, log)
    requires s.Held? ==> s.idx <= Index(c, now)
    ensures Rotate(s, Index(c, now)) == Counted(c, log, now)
    ensures forall x :: x in log ==> x.time < Start(c, Index(c, now) + 1)
  {
    hide Index, Start;
    var w := Index(c, now);
    if s.Fresh? {
      SumEmpty(log, Start(c, w - 1), Start(c, w));
    } else if s.idx < w {
      StartMono(c, s.idx + 1, w);
      StartMono(c, w, w + 1);
      SumEmpty(log, Start(c, w), Start(c, w + 1));
      if s.idx < w - 1 {
        StartMono(c, s.idx + 1, w - 1);
        SumEmpty(log, Start(c, w - 1), Start(c, w));
      }
    }
  }

  /** Charging an admission to the current counter is logging it. */
  lemma {:induction false} AgreesAppend(c: Config, log: Log, now: int, cost: Cost)
    requires c.Valid() && forall x :: x in log ==> x.time < Start(c, Index(c, now) + 1)
    ensures var r := Counted(c, log, now);
            Agrees(c, r.(curr := r.curr + cost), log + [Entry(now, cost)])
  {
    hide Index, Start;
    var w := Index(c, now);
    StartStep(c, w);
    SumAppend(log, Entry(now, cost), Start(c, w), Start(c, w + 1));
    SumAppend(log, Entry(now, cost), Start(c, w - 1), Start(c, w));
  }

  lemma {:induction false} CountersAgree(c: Config, checks: seq<Check>)
    requires c.Valid() && WindowOrdered(c, checks)
    ensures Agrees(c, After(c, checks), LogAfter(c, checks))
  {
    hide Index, Start, Scaled, WindowTotal;
    if checks != [] {
      var n := |checks| - 1;
      var k := checks[n];
      CountersAgree(c, checks[..n]);
      NextIndex(c, checks);
      RotationCounts(c, After(c, checks[..n]), LogAfter(c, checks[..n]), k.read);
      AgreesAppend(c, LogAfter(c, checks[..n]), k.read, k.cost);
    }
  }

  /** REFINEMENT: at every check of a window-ordered run the three counters
      give the answer of the limiter that keeps the whole log. */
  lemma {:induction false} CountersRefineLog(c: Config, checks: seq<Check>)
    requires c.Valid() && WindowOrdered(c, checks)
    ensures Run(c, checks) == LogRun(c, checks)
  {
    hide Index, Start, Scaled, Room;
    if checks != [] {
      var n := |checks| - 1;
      CountersRefineLog(c, checks[..n]);
      CountersAgree(c, checks[..n]);
      NextIndex(c, checks);
      RotationCounts(c, After(c, checks[..n]), LogAfter(c, checks[..n]), checks[n].read);
    }
  }

  // ---- every entry of the log passed the test against the log before it

  ghost predicate PassedTest(c: Config, log: Log, x: Entry)
    requires c.Valid()
  {
    Admits(c, Counted(c, log, x.time), x.time, x.cost)
  }

  ghost predicate Justified(c: Config, log: Log)
    requires c.Valid()
  {
    forall i :: 0 <= i < |log| ==> PassedTest(c, log[..i], log[i])
  }

  lemma {:induction false} LogIsJustified(c: Config, checks: seq<Check>)
    requires c.Valid() && WindowOrdered(c, checks)
    ensures Justified(c, LogAfter(c, checks)) && Sorted(c, LogAfter(c, checks))
    ensures forall x :: x in LogAfter(c, checks) ==> exists k :: k in checks && x == Entry(k.read, k.cost)
  {
    hide Admits, Counted, Index;
    if checks != [] {
      var n := |checks| - 1;
      var init, k := checks[..n], checks[n];
      LogIsJustified(c, init);
      var log, log' := LogAfter(c, init), LogAfter(c, checks);
      assert k in checks;
      assert log[..|log|] == log;
      forall x | x in log ensures Index(c, x.time) <= Index(c, k.read) {
        var j :| j in init && x == Entry(j.read, j.cost);
      }
      assert forall i :: 0 <= i <= |log| ==> log'[..i] == log[..i];
      forall x | x in log' ensures exists k :: k in checks && x == Entry(k.read, k.cost) {
        if x in log {
          var j :| j in init && x == Entry(j.read, j.cost);
          assert j in checks;
        }
      }
    }
  }

  /** The test an entry passed, in terms of the two window totals. */
  lemma {:induction false} JustifiedLast(c: Config, log: Log)
    requires c.Valid() && Justified(c, log) && log != []
    ensures var x := log[|log| - 1];
            var w := Index(c, x.time);
            WindowTotal(c, log[..|log| - 1], w - 1) * (c.window - Elapsed(c, x.time))
            + WindowTotal(c, log, w) * c.window <= c.limit * c.window
  {
    hide Index, Start, SumIn, Justified;
    var n := |log| - 1;
    LastPassed(c, log);
    PassedFits(c, log[..n], log[n]);
    assert log == log[..n] + [log[n]];
  }

  lemma {:induction false} LastPassed(c: Config, log: Log)
    requires c.Valid() && Justified(c, log) && log != []
    ensures PassedTest(c, log[..|log| - 1], log[|log| - 1])
  {
    hide PassedTest;
  }

  lemma {:induction false} PassedFits(c: Config, log: Log, x: Entry)
    requires c.Valid() && PassedTest(c, log, x)
    ensures var w := Index(c, x.time);
            WindowTotal(c, log, w - 1) * (c.window - Elapsed(c, x.time))
            + WindowTotal(c, log + [x], w) * c.window <= c.limit * c.window
  {
    hide Index, Start, SumIn;
    var w := Index(c, x.time);
    StartStep(c, w);
    SumAppend(log, x, Start(c, w), Start(c, w + 1));
    var curr := WindowTotal(c, log, w);
    assert WindowTotal(c, log + [x], w) == curr + x.cost;
    assert (curr + x.cost) * c.window == curr * c.window + x.cost * c.window;
  }

  lemma {:induction false} JustifiedInit(c: Config, log: Log)
    requires c.Valid() && Justified(c, log) && Sorted(c, log) && log != []
    ensures Justified(c, log[..|log| - 1]) && Sorted(c, log[..|log| - 1])
  {
    hide PassedTest;
    var init := log[..|log| - 1];
    assert forall i :: 0 <= i < |init| ==> init[..i] == log[..i];
  }

  // ---- the admission bounds

  lemma {:induction false} AloneWithinLimit(limit: int, window: int, prev: int, weight: int, curr: int)
    requires 0 <= prev && 0 <= weight && 0 < window
    requires prev * weight + curr * window <= limit * window
    ensures curr <= limit
  {
    MulMono(0, weight, prev);
    CancelWindow(curr, limit, window);
  }

  /** Every aligned window admits at most the limit. */
  lemma {:induction false} AlignedBound(c: Config, log: Log, w: int)
    requires c.Valid() && Justified(c, log) && Sorted(c, log)
    ensures WindowTotal(c, log, w) <= c.limit
  {
    hide Index, Start, PassedTest;
    if log != [] {
      var n := |log| - 1;
      var x := log[n];
      JustifiedInit(c, log);
      AlignedBound(c, log[..n], w);
      StartStep(c, w);
      if Start(c, w) <= x.time < Start(c, w + 1) {
        IndexIs(c, x.time, w);
        JustifiedLast(c, log);
        AloneWithinLimit(c.limit, c.window, WindowTotal(c, log[..n], w - 1),
                         c.window - Elapsed(c, x.time), WindowTotal(c, log, w));
      }
    }
  }

  /** The arithmetic of the boundary: `p` charged to the window before, `tail`
      of it after offset s, `q` charged by offset e of this one. */
  lemma {:induction false} BoundaryArithmetic(limit: int, window: int, p: int, tail: int, q: int, e: int, s: int)
    requires 0 <= tail <= p <= limit && 0 <= e <= s - 1 && s < window
    requires p * (window - e) + q * window <= limit * window
    ensures window * (tail + q) <= window * limit + limit * (s - 1)
  {
    MulMono(tail, p, window);
    MulMono(p, limit, s - 1);
    MulMono(e, s - 1, p);
    assert p * (window - e) == p * window - p * e;
  }

  /** When the last entry lies before window `w`, all do. */
  lemma {:induction false} AllBefore(c: Config, log: Log, w: int)
    requires c.Valid() && Sorted(c, log) && (log != [] ==> log[|log| - 1].time < Start(c, w))
    ensures forall x :: x in log ==> x.time < Start(c, w)
  {
    hide Index, Start;
    forall x | x in log ensures x.time < Start(c, w) {
      IndexAtLeast(c, log[|log| - 1].time, w);
      IndexAtLeast(c, x.time, w);
    }
  }

  /** A span that ends before the next window is covered by one window total. */
  lemma {:induction false} WithinOneWindow(c: Config, log: Log, w: int, lo: int, hi: int)
    requires c.Valid() && Justified(c, log) && Sorted(c, log)
    requires Start(c, w) <= lo
    requires log != [] ==> log[|log| - 1].time < Start(c, w + 1)
    ensures SumIn(log, lo, hi) <= c.limit
  {
    hide PassedTest, Start, Justified, Sorted, Index;
    AllBefore(c, log, w + 1);
    if lo <= Start(c, w + 1) <= hi {
      SumSplit(log, lo, Start(c, w + 1), hi);
      SumEmpty(log, Start(c, w + 1), hi);
      SumMono(log, Start(c, w), lo, Start(c, w + 1), Start(c, w + 1));
    } else if hi < Start(c, w + 1) {
      SumMono(log, Start(c, w), lo, hi, Start(c, w + 1));
    } else {
      SumEmpty(log, lo, hi);
    }
    AlignedBound(c, log, w);
  }

  lemma {:induction false} LastElsewhere(c: Config, log: Log, w: int)
    requires log != [] && Start(c, w + 1) <= log[|log| - 1].time
    ensures WindowTotal(c, log, w) == WindowTotal(c, log[..|log| - 1], w)
  {
  }

  /** The straddling bound when the last entry lies in the second window. */
  lemma {:induction false} StraddlingLast(c: Config, log: Log, w: int, s: int)
    requires c.Valid() && Justified(c, log) && Sorted(c, log) && log != [] && 0 < s < c.window
    requires Start(c, w + 1) <= log[|log| - 1].time < Start(c, w + 1) + s
    ensures c.window * SumIn(log, Start(c, w) + s, Start(c, w + 1) + s)
         <= c.window * c.limit + c.limit * (s - 1)
  {
    hide Index, Start, PassedTest, Justified, Sorted, SumIn;
    var x := log[|log| - 1];
    var lo, mid, hi := Start(c, w) + s, Start(c, w + 1), Start(c, w + 1) + s;
    StartStep(c, w);
    StartStep(c, w + 1);
    IndexIs(c, x.time, w + 1);
    JustifiedLast(c, log);
    AlignedBound(c, log, w);
    SumSplit(log, lo, mid, hi);
    SumMono(log, Start(c, w), lo, mid, mid);
    SumMono(log, mid, mid, hi, Start(c, w + 2));
    var p, tail, q := WindowTotal(c, log, w), SumIn(log, lo, mid), WindowTotal(c, log, w + 1);
    LastElsewhere(c, log, w);
    BoundaryArithmetic(c.limit, c.window, p, tail, q, Elapsed(c, x.time), s);
    MulMono(tail + SumIn(log, mid, hi), tail + q, c.window);
  }

  /** A span of one window's length that starts at offset s > 0 admits at most
      limit + limit * (s - 1) / window. */
  lemma {:induction false} StraddlingBound(c: Config, log: Log, w: int, s: int)
    requires c.Valid() && Justified(c, log) && Sorted(c, log) && 0 < s < c.window
    ensures c.window * SumIn(log, Start(c, w) + s, Start(c, w + 1) + s)
         <= c.window * c.limit + c.limit * (s - 1)
  {
    hide Index, Start, PassedTest, Justified;
    MulMono(0, s - 1, c.limit);
    if log != [] && Start(c, w + 1) + s <= log[|log| - 1].time {
      JustifiedInit(c, log);
      StraddlingBound(c, log[..|log| - 1], w, s);
    } else if log != [] && Start(c, w + 1) <= log[|log| - 1].time {
      StraddlingLast(c, log, w, s);
    } else {
      WithinOneWindow(c, log, w, Start(c, w) + s, Start(c, w + 1) + s);
      MulMono(SumIn(log, Start(c, w) + s, Start(c, w + 1) + s), c.limit, c.window);
    }
  }

  lemma {:induction false} BelowTwice(limit: int, window: int, span: int, s: int)
    requires 0 < limit && 0 < s < window
    requires window * span <= window * limit + limit * (s - 1)
    ensures span < 2 * limit
  {
    if 2 * limit <= span {
      MulMono(2 * limit, span, window);
      MulMono(s - 1, window - 2, limit);
    }
  }

  /** SAFETY: what a window-ordered run of the three counters admits in any
      span of one window's length, aligned (s == 0) or not. */
  lemma {:induction false} AdmissionBounds(c: Config, checks: seq<Check>, w: int, s: int)
    requires c.Valid() && WindowOrdered(c, checks) && 0 <= s < c.window
    ensures var span := SumIn(LogAfter(c, checks), Start(c, w) + s, Start(c, w + 1) + s);
            && (s == 0 ==> span <= c.limit)
            && (0 < s ==> c.window * span <= c.window * c.limit + c.limit * (s - 1))
            && span < 2 * c.limit
  {
    hide Index, Start, PassedTest, Justified, LogAfter;
    var log := LogAfter(c, checks);
    LogIsJustified(c, checks);
    if s == 0 {
      AlignedBound(c, log, w);
    } else {
      StraddlingBound(c, log, w, s);
      BelowTwice(c.limit, c.window, SumIn(log, Start(c, w) + s, Start(c, w + 1) + s), s);
    }
  }

  lemma {:induction false} LogAfterStep(c: Config, checks: seq<Check>, k: Check)
    requires c.Valid()
    ensures var log := LogAfter(c, checks);
            LogAfter(c, checks + [k])
              == if PassedTest(c, log, Entry(k.read, k.cost)) then log + [Entry(k.read, k.cost)] else log
  {
    assert (checks + [k])[..|checks|] == checks;
  }

  /** A second check at offset s - 1 of window w + 1, after a full window w. */
  lemma {:induction false} ExcessAdmitted(c: Config, w: int, s: int, t: int, extra: Cost)
    requires c.Valid() && 0 < s < c.window && t == Start(c, w) + s
    requires extra * c.window <= c.limit * (s - 1)
    ensures PassedTest(c, [Entry(t, c.limit)], Entry(Start(c, w + 1) + s - 1, extra))
  {
    var u := Start(c, w + 1) + s - 1;
    var log := [Entry(t, c.limit)];
    StartStep(c, w);
    StartStep(c, w + 1);
    IndexIs(c, u, w + 1);
    assert [] + log == log;
    SumAppend([], log[0], Start(c, w), Start(c, w + 1));
    SumAppend([], log[0], Start(c, w + 1), Start(c, w + 2));
    assert WindowTotal(c, log, w) == c.limit && WindowTotal(c, log, w + 1) == 0;
    assert Scaled(c, Held(w + 1, c.limit, 0), u) == c.limit * (c.window - (s - 1));
    assert c.limit * (c.window - (s - 1)) == c.limit * c.window - c.limit * (s - 1);
  }

  lemma {:induction false} FirstAdmission(c: Config, k: Check)
    requires c.Valid() && k.cost == c.limit
    ensures LogAfter(c, [k]) == [Entry(k.read, c.limit)]
  {
    LogAfterStep(c, [], k);
    assert [] + [k] == [k];
    assert Scaled(c, Counted(c, [], k.read), k.read) == 0;
  }

  /** A check whose script runs on the very clock it reads. */
  function Prompt(read: int, cost: Cost): (k: Check) {
    Check(read, 1000 * read, cost)
  }

  /** What the straddling bound adds to the limit, rounded down. */
  function Excess(c: Config, s: int): (extra: int)
    requires c.Valid()
  {
    c.limit * (s - 1) / c.window
  }

  lemma {:induction false} ExcessFits(c: Config, s: int)
    requires c.Valid() && 0 < s
    ensures 0 <= Excess(c, s) && Excess(c, s) * c.window <= c.limit * (s - 1)
  {
    MulMono(0, s - 1, c.limit);
    DivAtLeast(c.limit * (s - 1), c.window, 0);
    DivBounds(c.limit * (s - 1), c.window);
  }

  /** A run that reaches the straddling bound: a full window from offset s on,
      then the rounded-down excess on the last second of the span. */
  lemma {:induction false} ReachingRun(c: Config, w: int, s: int) returns (checks: seq<Check>)
    requires c.Valid() && 0 < s < c.window
    ensures NonDecreasing(checks) && forall k :: k in checks ==> k == Prompt(k.read, k.cost)
    ensures SumIn(LogAfter(c, checks), Start(c, w) + s, Start(c, w + 1) + s) == c.limit + Excess(c, s)
  {
    hide Index, Start, PassedTest, LogAfter, Excess;
    var t, u := Start(c, w) + s, Start(c, w + 1) + s - 1;
    StartStep(c, w);
    var extra := Excess(c, s);
    ExcessFits(c, s);
    checks := [Prompt(t, c.limit)];
    var log := [Entry(t, c.limit)];
    FirstAdmission(c, checks[0]);
    SumAppend([], log[0], t, u + 1);
    assert [] + log == log;
    if extra != 0 {
      LogAfterStep(c, checks, Prompt(u, extra));
      ExcessAdmitted(c, w, s, t, extra);
      SumAppend(log, Entry(u, extra), t, u + 1);
      checks := checks + [Prompt(u, extra)];
    }
  }

  // ---- accuracy

  /** At most the proportional share of window `w` was admitted after offset `e`. */
  ghost predicate TailFair(c: Config, log: Log, w: int, e: int)
    requires c.Valid()
  {
    SumIn(log, Start(c, w) + e + 1, Start(c, w + 1)) * c.window <= WindowTotal(c, log, w) * (c.window - e)
  }

  /** No tail of window `w` carried more than its proportional share. */
  ghost predicate EvenlySpread(c: Config, log: Log, w: int)
    requires c.Valid()
  {
    forall e :: 0 <= e < c.window ==> TailFair(c, log, w, e)
  }

  lemma {:induction false} SpreadInit(c: Config, log: Log, w: int)
    requires c.Valid() && log != [] && Start(c, w + 1) <= log[|log| - 1].time
    requires EvenlySpread(c, log, w)
    ensures EvenlySpread(c, log[..|log| - 1], w)
  {
    hide Start;
    var init := log[..|log| - 1];
    forall e | 0 <= e < c.window ensures TailFair(c, init, w, e) {
      assert TailFair(c, log, w, e);
    }
  }

  lemma {:induction false} TrailingArithmetic(limit: int, window: int, p: int, tail: int, q: int, e': int, e: int)
    requires 0 <= p && 0 < window && 0 <= e' <= e < window
    requires tail * window <= p * (window - e)
    requires p * (window - e') + q * window <= limit * window
    ensures tail + q <= limit
  {
    MulMono(window - e, window - e', p);
    CancelWindow(tail + q, limit, window);
  }

  /** ACCURACY: when the previous window was evenly spread, the cost truly
      admitted in the trailing window's length never exceeds the limit, at any
      moment of the current window. */
  lemma {:induction false} TrailingBound(c: Config, log: Log, now: int)
    requires c.Valid() && Justified(c, log) && Sorted(c, log)
    requires EvenlySpread(c, log, Index(c, now) - 1)
    ensures SumIn(log, now - c.window + 1, now + 1) <= c.limit
  {
    hide Index, Start, PassedTest, Justified;
    var w, e := Index(c, now), Elapsed(c, now);
    var lo, mid := now - c.window + 1, Start(c, w);
    StartStep(c, w);
    if log != [] && now < log[|log| - 1].time {
      JustifiedInit(c, log);
      SpreadInit(c, log, w - 1);
      TrailingBound(c, log[..|log| - 1], now);
    } else if log != [] && mid <= log[|log| - 1].time {
      var x := log[|log| - 1];
      IndexIs(c, x.time, w);
      JustifiedLast(c, log);
      SumSplit(log, lo, mid, now + 1);
      SumMono(log, mid, mid, now + 1, Start(c, w + 1));
      assert WindowTotal(c, log, w - 1) == WindowTotal(c, log[..|log| - 1], w - 1);
      assert TailFair(c, log, w - 1, e);
      TrailingArithmetic(c.limit, c.window, WindowTotal(c, log, w - 1), SumIn(log, lo, mid),
                         WindowTotal(c, log, w), Elapsed(c, x.time), e);
    } else {
      WithinOneWindow(c, log, w - 1, lo, now + 1);
    }
  }
}
