/** Several replicas share one key.  Each reads its own clock and only later
    runs one atomic script, so readings reach the store in any order. */
module Replicas {
  import opened Arith
  import opened Decisions
  import opened SlidingWindow
  import opened SlidingWindowLog
  import opened SlidingWindowExpiry

  datatype Step =
    | ReadClock(client: nat, now: int)
    | ExecScript(client: nat, at: int, cost: Cost)

  /** Readings taken but not yet used, and the checks executed so far in the
      order the store saw them. */
  datatype State = State(pending: map<nat, int>, executed: seq<Check>)

  const Init := State(map[], [])

  /** A script runs with the reading its client took last; a client that has
      taken none has no script to run. */
  function Apply(s: State, step: Step): (next: State) {
    match step
    case ReadClock(client, now) => s.(pending := s.pending[client := now])
    case ExecScript(client, at, cost) =>
      if client !in s.pending then s
      else State(s.pending - {client}, s.executed + [Check(s.pending[client], at, cost)])
  }

  function Reached(steps: seq<Step>): (s: State) {
    if steps == [] then Init
    else Apply(Reached(steps[..|steps| - 1]), steps[|steps| - 1])
  }

  /** The readings taken along the way, in order. */
  function Readings(steps: seq<Step>): (times: seq<int>) {
    if steps == [] then []
    else
      Readings(steps[..|steps| - 1])
      + if steps[|steps| - 1].ReadClock? then [steps[|steps| - 1].now] else []
  }

  // ---- what every interleaving and every clock keeps

  /** Cost admitted while index `i` was the stored one. */
  function Charged(c: Config, checks: seq<Check>, i: int): (total: int)
    requires c.Valid()
    ensures 0 <= total
  {
    if checks == [] then 0
    else
      var n := |checks| - 1;
      var s := After(c, checks[..n]);
      Charged(c, checks[..n], i)
      + if Admits(c, s, checks[n].read, checks[n].cost) && After(c, checks).idx == i then checks[n].cost else 0
  }

  lemma {:induction false} AdmissionFits(c: Config, s: Counters, now: int, cost: Cost)
    requires c.Valid() && Sane(s) && Admits(c, s, now, cost)
    ensures Rotate(s, Index(c, now)).curr + cost <= c.limit
  {
    hide Index, Start;
    var r := Rotate(s, Index(c, now));
    assert (r.curr + cost) * c.window == r.curr * c.window + cost * c.window;
    AloneWithinLimit(c.limit, c.window, r.prev, c.window - Elapsed(c, now), r.curr + cost);
  }

  /** The current counter is exactly what the stored index was charged, later
      indices have nothing yet, and no index is ever over the limit. */
  lemma {:induction false} ChargesBounded(c: Config, checks: seq<Check>, i: int)
    requires c.Valid()
    ensures Charged(c, checks, i) <= c.limit
    ensures After(c, checks).Held? && After(c, checks).idx == i ==> Charged(c, checks, i) == After(c, checks).curr
    ensures After(c, checks).Held? && After(c, checks).idx < i ==> Charged(c, checks, i) == 0
    ensures After(c, checks).Fresh? ==> Charged(c, checks, i) == 0
  {
    hide Index, Start, Scaled, Admits;
    if checks != [] {
      var n := |checks| - 1;
      var k := checks[n];
      ChargesBounded(c, checks[..n], i);
      AfterSane(c, checks[..n]);
      if Admits(c, After(c, checks[..n]), k.read, k.cost) {
        AdmissionFits(c, After(c, checks[..n]), k.read, k.cost);
      }
    }
  }

  lemma {:induction false} IndexNeverFalls(c: Config, checks: seq<Check>, n: nat)
    requires c.Valid() && 0 < n <= |checks|
    ensures After(c, checks[..n]).idx <= After(c, checks).idx
    decreases |checks|
  {
    hide Index, Start, Admits;
    if n == |checks| {
      assert checks[..n] == checks;
    } else {
      var init := checks[..|checks| - 1];
      assert init[..n] == checks[..n];
      IndexNeverFalls(c, init, n);
    }
  }

  /** Cost the stored keys admitted while index `i` was the stored one. */
  function StoredCharged(c: Config, checks: seq<Check>, i: int): (total: int)
    requires c.Valid()
  {
    if checks == [] then 0
    else
      var n := |checks| - 1;
      var cell, cell' := CellAfter(c, checks[..n]), CellAfter(c, checks);
      StoredCharged(c, checks[..n], i)
      + if CellAnswer(c, cell, checks[n]).allowed && cell'.Kept? && cell'.idx == i then checks[n].cost else 0
  }

  lemma {:induction false} StoredChargedIs(c: Config, checks: seq<Check>, i: int)
    requires c.Valid() && NeverDropsEarly(c, checks)
    ensures StoredCharged(c, checks, i) == Charged(c, checks, i)
  {
    hide Index, Start, Admits, Answer, CellAnswer, NextCell, Next, NeverDropsEarly;
    if checks != [] {
      var n := |checks| - 1;
      NeverDropsEarlyPrefix(c, checks, n);
      StoredChargedIs(c, checks[..n], i);
      StoredRunAgrees(c, checks[..n]);
      StoredRunAgrees(c, checks);
      assert CellRun(c, checks)[n] == Run(c, checks)[n];
      AnswerIs(c, After(c, checks[..n]), checks[n].read, checks[n].cost);
    }
  }

  /** CONSERVATION in the stored keys, for any order of readings: the current
      count is exactly what the stored index was charged, later indices have
      nothing yet, and no index is ever over the limit. */
  lemma {:induction false} StoredChargesBounded(c: Config, checks: seq<Check>, i: int)
    requires c.Valid() && NeverDropsEarly(c, checks)
    ensures var cell, total := CellAfter(c, checks), StoredCharged(c, checks, i);
            && 0 <= total <= c.limit
            && (cell.Missing? ==> total == 0)
            && (cell.Kept? && cell.idx == i ==> total == cell.curr)
            && (cell.Kept? && cell.idx < i ==> total == 0)
  {
    hide Index, Start, Admits, NeverDropsEarly, NextCell, Next;
    StoredChargedIs(c, checks, i);
    ChargesBounded(c, checks, i);
    StoredRunAgrees(c, checks);
  }

  /** SAFETY of the replica protocol: under every interleaving of clock
      readings and scripts, with every clock running as it likes, as long as no
      script meets keys dropped early each index is charged at most the limit and the
      stored index never falls. */
  lemma {:induction false} AnyInterleavingIsSafe(c: Config, steps: seq<Step>, n: nat, i: int)
    requires c.Valid() && n <= |steps| && NeverDropsEarly(c, Reached(steps).executed)
    ensures StoredCharged(c, Reached(steps).executed, i) <= c.limit
    ensures Reached(steps[..n]).executed <= Reached(steps).executed
    ensures var early, now := CellAfter(c, Reached(steps[..n]).executed), CellAfter(c, Reached(steps).executed);
            early.Kept? ==> now.Kept? && early.idx <= now.idx
  {
    hide Index, Start, Admits, NeverDropsEarly, NextCell, Next;
    ExecutedGrows(steps, n);
    var early, all := Reached(steps[..n]).executed, Reached(steps).executed;
    StoredChargesBounded(c, all, i);
    StoredRunAgrees(c, all);
    assert all[..|early|] == early;
    NeverDropsEarlyPrefix(c, all, |early|);
    StoredRunAgrees(c, early);
    if early != [] {
      IndexNeverFalls(c, all, |early|);
    }
  }

  lemma {:induction false} ExecutedGrows(steps: seq<Step>, n: nat)
    requires n <= |steps|
    ensures Reached(steps[..n]).executed <= Reached(steps).executed
    decreases |steps|
  {
    if n == |steps| {
      assert steps[..n] == steps;
    } else {
      var init := steps[..|steps| - 1];
      assert init[..n] == steps[..n];
      ExecutedGrows(init, n);
    }
  }

  // ---- unit costs within one window

  function Allowed(replies: seq<Reply>): (count: nat)
    ensures count <= |replies|
  {
    if replies == [] then 0
    else Allowed(replies[..|replies| - 1]) + if replies[|replies| - 1].allowed then 1 else 0
  }

  ghost predicate UnitChecksIn(c: Config, checks: seq<Check>, w: int)
    requires c.Valid()
  {
    forall k :: k in checks ==> k.cost == 1 && Index(c, k.read) == w
  }

  lemma {:induction false} UnitAdmission(c: Config, w: int, count: int, now: int)
    requires c.Valid() && Index(c, now) == w
    ensures Admits(c, Held(w, 0, count), now, 1) <==> count < c.limit
    ensures Admits(c, Fresh, now, 1)
  {
    hide Index, Start;
    assert Scaled(c, Held(w, 0, count), now) + 1 * c.window == (count + 1) * c.window;
    CancelWindow(count + 1, c.limit, c.window);
    assert Scaled(c, Held(w, 0, 0), now) == 0;
    CancelWindow(1, c.limit, c.window);
  }

  /** N unit checks on a missing key, all read in one window, in any order:
      exactly min(N, limit) are allowed. */
  lemma {:induction false} ExactlyTheLimit(c: Config, checks: seq<Check>, w: int)
    requires c.Valid() && UnitChecksIn(c, checks, w)
    ensures Allowed(Run(c, checks)) == if |checks| < c.limit then |checks| else c.limit
    ensures checks != [] ==> After(c, checks) == Held(w, 0, Allowed(Run(c, checks)))
  {
    hide Index, Start, Admits, Room, Scaled;
    if checks != [] {
      var n := |checks| - 1;
      var init, k := checks[..n], checks[n];
      assert k in checks;
      ExactlyTheLimit(c, init, w);
      UnitAdmission(c, w, Allowed(Run(c, init)), k.read);
      assert Run(c, checks)[..n] == Run(c, init);
    }
  }

  /** However N concurrent unit checks on a missing key interleave, if their
      clocks were read in one window and no script meets keys dropped early, exactly
      min(N, limit) are allowed. */
  lemma {:induction false} ConcurrentUnitChecks(c: Config, steps: seq<Step>, w: int)
    requires c.Valid() && NeverDropsEarly(c, Reached(steps).executed)
    requires forall x :: x in Readings(steps) ==> Index(c, x) == w
    requires forall step :: step in steps && step.ExecScript? ==> step.cost == 1
    ensures var checks := Reached(steps).executed;
            Allowed(CellRun(c, checks)) == if |checks| < c.limit then |checks| else c.limit
  {
    hide Index, Start, Admits, NeverDropsEarly;
    OriginOfChecks(steps);
    ExactlyTheLimit(c, Reached(steps).executed, w);
    StoredRunAgrees(c, Reached(steps).executed);
  }

  // ---- how long the keys must live

  /** A script that runs more than two windows' length after the first admits a
      full limit again under the same reading. */
  function SecondGrant(c: Config): (checks: seq<Check>)
    requires c.Valid()
  {
    [Check(0, 0, c.limit)] + [Check(0, 2000 * c.window + 1, c.limit)]
  }

  lemma {:induction false} ExpiredKeysAdmitAgain(c: Config)
    requires c.Valid()
    ensures var checks := SecondGrant(c);
            && Within(checks, 2000 * c.window + 1)
            && CellRun(c, checks)[0].allowed && CellRun(c, checks)[1].allowed
            && StoredCharged(c, checks, 0) == 2 * c.limit
  {
    hide Index, Start;
    var checks := SecondGrant(c);
    var first, second := checks[0], checks[1];
    FirstWindows(c);
    assert checks[..1] == [first] && [first][..0] == [] && checks[..0] == [];
    assert Scaled(c, Held(0, 0, 0), 0) == 0;
    assert CellAfter(c, [first]) == Kept(0, 0, c.limit, 2000 * c.window);
    assert CellRun(c, [first]) == [CellAnswer(c, Missing, first)];
    assert CellRun(c, checks) == CellRun(c, [first]) + [CellAnswer(c, CellAfter(c, [first]), second)];
    assert CellAfter(c, checks) == Kept(0, 0, c.limit, second.at + 2000 * c.window);
    assert StoredCharged(c, [first], 0) == c.limit;
  }

  /** No index is ever charged more than the limit while all the scripts run
      within `ms` milliseconds, whatever the readings. */
  ghost predicate SpreadIsSafe(c: Config, ms: int)
    requires c.Valid()
  {
    forall checks, i :: Within(checks, ms) ==> StoredCharged(c, checks, i) <= c.limit
  }

  /** EXACT SPREAD: readings in any order are safe for two windows' length of
      store time and no longer. */
  lemma {:induction false} SafeSpread(c: Config, ms: int)
    requires c.Valid()
    ensures SpreadIsSafe(c, ms) <==> ms <= 2000 * c.window
  {
    hide Index, StoredCharged, CellRun, NeverDropsEarly;
    if ms <= 2000 * c.window {
      forall checks, i | Within(checks, ms) ensures StoredCharged(c, checks, i) <= c.limit {
        WithinLifetimeLives(c, checks);
        StoredChargesBounded(c, checks, i);
      }
    } else {
      ExpiredKeysAdmitAgain(c);
      assert Within(SecondGrant(c), ms);
    }
  }

  /** Every executed check carries a reading some client took and the cost of
      some script step. */
  lemma {:induction false} OriginOfChecks(steps: seq<Step>)
    ensures forall p :: p in Reached(steps).pending ==> Reached(steps).pending[p] in Readings(steps)
    ensures forall k :: k in Reached(steps).executed ==>
              k.read in Readings(steps) && exists e :: e in steps && e.ExecScript? && e.cost == k.cost
  {
    if steps != [] {
      var n := |steps| - 1;
      OriginOfChecks(steps[..n]);
      assert steps[n] in steps;
      forall k | k in Reached(steps).executed
        ensures k.read in Readings(steps) && exists e :: e in steps && e.ExecScript? && e.cost == k.cost
      {
        if k in Reached(steps[..n]).executed {
          var e :| e in steps[..n] && e.ExecScript? && e.cost == k.cost;
          assert e in steps;
        }
      }
    }
  }

  lemma {:induction false} SizeWith(m: map<nat, int>, k: nat, v: int)
    ensures |m[k := v]| <= |m| + 1
    ensures |m - {k}| == if k in m then |m| - 1 else |m|
  {
    assert m[k := v].Keys == m.Keys + {k} && (m - {k}).Keys == m.Keys - {k};
    assert |m[k := v]| == |m[k := v].Keys| && |m| == |m.Keys| && |m - {k}| == |(m - {k}).Keys|;
  }

  /** No reading serves two scripts: those used and those still pending are no more
      than those taken. */
  lemma {:induction false} EachReadingOnce(steps: seq<Step>)
    ensures |Reached(steps).executed| + |Reached(steps).pending| <= |Readings(steps)|
  {
    if steps != [] {
      var n := |steps| - 1;
      EachReadingOnce(steps[..n]);
      SizeWith(Reached(steps[..n]).pending, steps[n].client, if steps[n].ReadClock? then steps[n].now else 0);
    }
  }

  // ---- what needs checks to arrive window by window

  /** As long as no script meets an index ahead of its own reading, the replicas
      together obey the bounds of a single limiter, whatever the order inside a
      window and however many calls overlap. */
  lemma {:induction false} WindowOrderedReplicasObeyBounds(c: Config, steps: seq<Step>, w: int, s: int)
    requires c.Valid() && 0 <= s < c.window
    requires WindowOrdered(c, Reached(steps).executed)
    requires NeverDropsEarly(c, Reached(steps).executed)
    ensures var checks := Reached(steps).executed;
            var span := SumIn(Admitted(checks, CellRun(c, checks)), Start(c, w) + s, Start(c, w + 1) + s);
            && (s == 0 ==> span <= c.limit)
            && (0 < s ==> c.window * span <= c.window * c.limit + c.limit * (s - 1))
            && span < 2 * c.limit
  {
    hide Start, Index, WindowOrdered, NeverDropsEarly;
    NoBoundaryBurst(c, Reached(steps).executed, w, s);
  }

  /** No check meets an index more than `depth` ahead of its own reading. */
  ghost predicate OvertakenBy(c: Config, checks: seq<Check>, depth: int)
    requires c.Valid()
  {
    forall i, j :: 0 <= i <= j < |checks| ==> Index(c, checks[i].read) - depth <= Index(c, checks[j].read)
  }

  /** What the run's replies admitted in aligned window `w`. */
  function AlignedTotal(c: Config, checks: seq<Check>, w: int): (total: int)
    requires c.Valid()
  {
    WindowTotal(c, Admitted(checks, Run(c, checks)), w)
  }

  lemma {:induction false} OneMoreCheck(c: Config, checks: seq<Check>, k: Check)
    requires c.Valid()
    ensures After(c, checks + [k]) == Next(c, After(c, checks), k.read, k.cost)
    ensures Run(c, checks + [k]) == Run(c, checks) + [Answer(c, After(c, checks), k.read, k.cost)]
    ensures var log := Admitted(checks, Run(c, checks));
            Admitted(checks + [k], Run(c, checks + [k]))
              == if Admits(c, After(c, checks), k.read, k.cost) then log + [Entry(k.read, k.cost)] else log
  {
    hide Index, Scaled, Room, Next;
    assert (checks + [k])[..|checks|] == checks;
    var replies := Run(c, checks) + [Answer(c, After(c, checks), k.read, k.cost)];
    assert replies[..|checks|] == Run(c, checks);
  }

  lemma {:induction false} AnswerIs(c: Config, s: Counters, now: int, cost: Cost)
    requires c.Valid()
    ensures Answer(c, s, now, cost).allowed <==> Admits(c, s, now, cost)
  {
    hide Admits, Scaled, Room, Index;
  }

  // ---- one window behind

  /** With a limit or a window of one, a check one window behind is admitted
      only if the previous count leaves room for it too. */
  lemma {:induction false} LateFits(c: Config, s: Counters, now: int, cost: Cost)
    requires c.Valid() && Sane(s) && s.Held? && Index(c, now) <= s.idx
    requires Admits(c, s, now, cost) && (c.limit == 1 || c.window == 1)
    ensures s.prev + s.curr + cost <= c.limit
  {
    hide Index, Start;
    LateFitsArithmetic(c.limit, c.window, s.prev, s.curr, cost, Elapsed(c, now));
  }

  lemma {:induction false} LateFitsArithmetic(limit: int, window: int, prev: int, curr: int, cost: int, e: int)
    requires 0 <= prev && 0 <= curr && 1 <= cost && 0 <= e < window && (limit == 1 || window == 1)
    requires prev * (window - e) + curr * window + cost * window <= limit * window
    ensures prev + curr + cost <= limit
  {
    if limit == 1 && window != 1 {
      MulMono(1, cost, window);
      MulMono(0, curr, window);
      MulMono(1, window - e, prev);
      if 1 <= curr {
        MulMono(1, curr, window);
      }
      if 2 <= cost {
        MulMono(2, cost, window);
      }
    }
  }

  /** The log of a run whose checks are at most one window behind, against the
      counters: late admissions sit in the current count. */
  ghost predicate OneBehind(c: Config, s: Counters, log: Log)
    requires c.Valid()
  {
    && (s.Fresh? ==> log == [])
    && (s.Held? ==>
          && Sane(s)
          && WindowTotal(c, log, s.idx) <= s.curr
          && WindowTotal(c, log, s.idx - 1) + WindowTotal(c, log, s.idx) <= s.prev + s.curr
          && forall x :: x in log ==> x.time < Start(c, s.idx + 1))
    && forall w :: WindowTotal(c, log, w) <= c.limit
  }

  lemma {:induction false} OneBehindRotates(c: Config, s: Counters, log: Log, w: int)
    requires c.Valid() && OneBehind(c, s, log)
    ensures OneBehind(c, Rotate(s, w), log)
  {
    hide Index, Start, SumIn;
    if s.Fresh? {
      EmptyTotals(c, w);
    } else if s.idx < w {
      StartMono(c, s.idx + 1, w);
      StartMono(c, w, w + 1);
      SumEmpty(log, Start(c, w), Start(c, w + 1));
      if s.idx < w - 1 {
        StartMono(c, s.idx + 1, w - 1);
        SumEmpty(log, Start(c, w - 1), Start(c, w));
      }
    }
  }

  lemma {:induction false} EmptyTotals(c: Config, w: int)
    ensures WindowTotal(c, [], w) == 0 && WindowTotal(c, [], w - 1) == 0
  {
  }

  /** An admission raises the total of its own window and of no other. */
  lemma {:induction false} TotalGrows(c: Config, log: Log, x: Entry, w: int)
    requires c.Valid()
    ensures WindowTotal(c, log + [x], w)
         == WindowTotal(c, log, w) + if w == Index(c, x.time) then x.cost else 0
  {
    hide Index, Start;
    StartStep(c, w);
    SumAppend(log, x, Start(c, w), Start(c, w + 1));
    if Start(c, w) <= x.time < Start(c, w + 1) {
      IndexIs(c, x.time, w);
    }
  }

  lemma {:induction false} OneBehindAdmits(c: Config, s: Counters, log: Log, now: int, cost: Cost)
    requires c.Valid() && s.Held? && OneBehind(c, s, log) && (c.limit == 1 || c.window == 1)
    requires s.idx - 1 <= Index(c, now) <= s.idx && Admits(c, s, now, cost)
    ensures OneBehind(c, s.(curr := s.curr + cost), log + [Entry(now, cost)])
  {
    hide Index, Start, SumIn, Admits, WindowTotal;
    var log' := log + [Entry(now, cost)];
    LateFits(c, s, now, cost);
    TotalGrows(c, log, Entry(now, cost), s.idx);
    TotalGrows(c, log, Entry(now, cost), s.idx - 1);
    forall w ensures WindowTotal(c, log', w) <= c.limit {
      TotalGrows(c, log, Entry(now, cost), w);
      assert WindowTotal(c, log, w) <= c.limit;
    }
    StartStep(c, Index(c, now));
    StartMono(c, Index(c, now) + 1, s.idx + 1);
  }

  /** The stored index is the furthest window read so far. */
  lemma {:induction false} IndexOrigin(c: Config, checks: seq<Check>)
    requires c.Valid() && checks != []
    ensures exists i :: 0 <= i < |checks| && Index(c, checks[i].read) == After(c, checks).idx
  {
    hide Index, Admits;
    var n := |checks| - 1;
    if n > 0 {
      IndexOrigin(c, checks[..n]);
      var i :| 0 <= i < n && Index(c, checks[..n][i].read) == After(c, checks[..n]).idx;
      assert Index(c, checks[i].read) == After(c, checks[..n]).idx;
    }
    assert After(c, checks).idx == Index(c, checks[n].read) || n > 0;
  }

  lemma {:induction false} OneBehindRun(c: Config, checks: seq<Check>)
    requires c.Valid() && OvertakenBy(c, checks, 1) && (c.limit == 1 || c.window == 1)
    ensures OneBehind(c, After(c, checks), Admitted(checks, Run(c, checks)))
  {
    hide Index, Start, Admits, OneBehind, Run, Admitted;
    if checks == [] {
      OneBehindStarts(c);
    } else {
      var n := |checks| - 1;
      var init, k := checks[..n], checks[n];
      assert checks == init + [k];
      OneBehindRun(c, init);
      OneMoreCheck(c, init, k);
      var s, log := After(c, init), Admitted(init, Run(c, init));
      var r := Rotate(s, Index(c, k.read));
      OneBehindRotates(c, s, log, Index(c, k.read));
      if n > 0 {
        IndexOrigin(c, init);
        var i :| 0 <= i < n && Index(c, init[i].read) == s.idx;
        assert Index(c, checks[i].read) - 1 <= Index(c, k.read);
      }
      if Admits(c, s, k.read, k.cost) {
        RotatedAdmits(c, s, k.read, k.cost);
        OneBehindAdmits(c, r, log, k.read, k.cost);
      }
    }
  }

  lemma {:induction false} OneBehindStarts(c: Config)
    requires c.Valid()
    ensures OneBehind(c, Fresh, Admitted([], Run(c, [])))
  {
  }

  lemma {:induction false} RotatedAdmits(c: Config, s: Counters, now: int, cost: int)
    requires c.Valid()
    ensures Admits(c, s, now, cost) <==> Admits(c, Rotate(s, Index(c, now)), now, cost)
  {
    hide Index, Scaled;
  }

  // ---- overtaken checks

  lemma {:induction false} FirstWindows(c: Config)
    requires c.Valid()
    ensures Start(c, 0) == 0 && Start(c, 1) == c.window && Start(c, 2) == 2 * c.window
    ensures Index(c, 0) == 0 && Index(c, c.window - 1) == 0 && Index(c, c.window) == 1
  {
    hide Index;
    IndexIs(c, 0, 0);
    IndexIs(c, c.window - 1, 0);
    IndexIs(c, c.window, 1);
  }

  /** Over a full window that has just become the previous one, a check whose
      reading at offset `e` of it has been overtaken is admitted if and only if
      its cost is within what the estimate has already forgotten. */
  lemma {:induction false} OvertakenAdmittedIff(c: Config, w: int, e: int, cost: Cost)
    requires c.Valid() && 0 <= e < c.window
    ensures Admits(c, Held(w + 1, c.limit, 0), Start(c, w) + e, cost) <==> cost * c.window <= c.limit * e
  {
    hide Index, Start;
    IndexIs(c, Start(c, w) + e, w);
    assert Scaled(c, Held(w + 1, c.limit, 0), Start(c, w) + e) == c.limit * (c.window - e);
    assert c.limit * (c.window - e) == c.limit * c.window - c.limit * e;
  }

  /** A full window 0, a denied check of window 1, and a check of cost one read
      on the last second of window 0; all three scripts run at once. */
  function OneOvertaken(c: Config, at: int): (checks: seq<Check>)
    requires c.Valid()
  {
    [Check(0, at, c.limit)] + [Check(c.window, at, c.limit + 1)] + [Check(c.window - 1, at, 1)]
  }

  /** Full again and again: after each round the index is two further on, both
      counts are zero, and a check still carrying a reading of window 0 is
      admitted with cost limit. */
  function Rounds(c: Config, m: nat, at: int): (checks: seq<Check>)
    requires c.Valid()
  {
    if m == 0 then [Check(0, at, c.limit)]
    else Rounds(c, m - 1, at) + [Check(Start(c, 2 * m), at, c.limit + 1)] + [Check(0, at, c.limit)]
  }

  lemma {:induction false} FullFirst(c: Config, at: int)
    requires c.Valid()
    ensures After(c, [Check(0, at, c.limit)]) == Held(0, 0, c.limit)
    ensures AlignedTotal(c, [Check(0, at, c.limit)], 0) == c.limit
  {
    hide Index, Start, Next, SumIn, Run, After, Admitted;
    var k := Check(0, at, c.limit);
    FirstWindows(c);
    NothingYet(c);
    OneMoreCheck(c, [], k);
    assert [] + [k] == [k];
    FreshAdmits(c, 0);
    TotalGrows(c, [], Entry(0, c.limit), 0);
    EmptyTotals(c, 0);
  }

  /** The counters and the log before any check. */
  lemma {:induction false} NothingYet(c: Config)
    requires c.Valid()
    ensures After(c, []) == Fresh && Admitted([], Run(c, [])) == []
  {
  }

  lemma {:induction false} FreshAdmits(c: Config, now: int)
    requires c.Valid()
    ensures Admits(c, Fresh, now, c.limit) && Next(c, Fresh, now, c.limit) == Held(Index(c, now), 0, c.limit)
  {
    hide Index, Start;
    assert Scaled(c, Held(Index(c, now), 0, 0), now) == 0;
  }

  /** A cost above the limit is denied in every state. */
  lemma {:induction false} TooLargeIsDenied(c: Config, s: Counters, now: int, cost: Cost)
    requires c.Valid() && Sane(s) && c.limit < cost
    ensures !Admits(c, s, now, cost) && Next(c, s, now, cost) == Rotate(s, Index(c, now))
  {
    hide Index, Start, Scaled;
    if Admits(c, s, now, cost) {
      AdmissionFits(c, s, now, cost);
    }
  }

  /** Empty counters at least as far on admit a full limit under any reading. */
  lemma {:induction false} EmptyAdmits(c: Config, idx: int, now: int)
    requires c.Valid() && Index(c, now) <= idx
    ensures Admits(c, Held(idx, 0, 0), now, c.limit)
    ensures Next(c, Held(idx, 0, 0), now, c.limit) == Held(idx, 0, c.limit)
  {
    hide Index, Start;
    assert Scaled(c, Held(idx, 0, 0), now) == 0;
  }

  /** Window 0 is granted the limit once more in every round. */
  lemma {:induction false} RoundsAddUp(c: Config, m: nat, at: int)
    requires c.Valid()
    ensures After(c, Rounds(c, m, at)) == Held(2 * m, 0, c.limit)
    ensures AlignedTotal(c, Rounds(c, m, at), 0) == (m + 1) * c.limit
  {
    hide Index, Start, Next, Admits, SumIn, WindowTotal, Run, After, Admitted, Scaled;
    FirstWindows(c);
    if m == 0 {
      FullFirst(c, at);
    } else {
      var before := Rounds(c, m - 1, at);
      var push, late := Check(Start(c, 2 * m), at, c.limit + 1), Check(0, at, c.limit);
      RoundsAddUp(c, m - 1, at);
      OneMoreCheck(c, before, push);
      OneMoreCheck(c, before + [push], late);
      IndexIs(c, Start(c, 2 * m), 2 * m);
      TooLargeIsDenied(c, After(c, before), push.read, push.cost);
      EmptyAdmits(c, 2 * m, 0);
      TotalGrows(c, Admitted(before, Run(c, before)), Entry(0, c.limit), 0);
      assert (m + 1) * c.limit == m * c.limit + c.limit;
    }
  }

  lemma {:induction false} RoundsRange(c: Config, m: nat, at: int)
    requires c.Valid()
    ensures forall k :: k in Rounds(c, m, at) ==>
              0 <= Index(c, k.read) <= 2 * m && k.read <= Start(c, 2 * m) && k.at == at
  {
    hide Index, Start;
    FirstWindows(c);
    StartMono(c, 0, 2 * m);
    if m > 0 {
      StartMono(c, 2 * m - 2, 2 * m);
      RoundsRange(c, m - 1, at);
      IndexIs(c, Start(c, 2 * m), 2 * m);
    }
  }

  lemma {:induction false} RoundsOvertakeBy(c: Config, m: nat, at: int)
    requires c.Valid()
    ensures OvertakenBy(c, Rounds(c, m, at), 2 * m)
  {
    hide Index, Rounds;
    RoundsRange(c, m, at);
    var checks := Rounds(c, m, at);
    forall i, j | 0 <= i <= j < |checks| ensures Index(c, checks[i].read) - 2 * m <= Index(c, checks[j].read) {
      assert checks[i] in checks && checks[j] in checks;
    }
  }

  lemma {:induction false} RoomForOneMore(limit: int, window: int)
    requires 2 <= limit && 2 <= window
    ensures 1 * window <= limit * (window - 1)
  {
    MulMono(2, limit, window - 1);
  }

  /** One overtaken check is enough when limit and window have room for two. */
  lemma {:induction false} OneOvertakenOverAdmits(c: Config, at: int)
    requires c.Valid() && 2 <= c.limit && 2 <= c.window
    ensures OvertakenBy(c, OneOvertaken(c, at), 1)
    ensures forall k :: k in OneOvertaken(c, at) ==> k.read <= c.window && k.at == at
    ensures AlignedTotal(c, OneOvertaken(c, at), 0) == c.limit + 1
  {
    hide Index, Start, Next, Admits, SumIn, WindowTotal, Run, After, Admitted, Scaled;
    var first, push, late :=
      Check(0, at, c.limit), Check(c.window, at, c.limit + 1), Check(c.window - 1, at, 1);
    FirstWindows(c);
    FullFirst(c, at);
    OneMoreCheck(c, [first], push);
    OneMoreCheck(c, [first] + [push], late);
    TooLargeIsDenied(c, Held(0, 0, c.limit), push.read, push.cost);
    OvertakenAdmittedIff(c, 0, c.window - 1, 1);
    RoomForOneMore(c.limit, c.window);
    TotalGrows(c, Admitted([first], Run(c, [first])), Entry(c.window - 1, 1), 0);
  }

  // ---- one perfect clock

  /** What a step shows of the clock at millisecond `t`: a reading is floored to
      seconds, a script runs on the clock itself. */
  predicate ShownAt(step: Step, t: int) {
    match step
    case ReadClock(_, now) => now == t / 1000
    case ExecScript(_, at, _) => at == t
  }

  ghost predicate Ascending(ts: seq<int>) {
    forall i, j :: 0 <= i <= j < |ts| ==> ts[i] <= ts[j]
  }

  /** The steps happened at these instants of one clock. */
  ghost predicate Follows(steps: seq<Step>, ts: seq<int>) {
    |ts| == |steps| && Ascending(ts) && forall i :: 0 <= i < |steps| ==> ShownAt(steps[i], ts[i])
  }

  ghost predicate OnOneClock(steps: seq<Step>) {
    exists ts :: Follows(steps, ts)
  }

  /** Scripts run in order, and each one after its own reading. */
  ghost predicate Causal(checks: seq<Check>) {
    && (forall i, j :: 0 <= i <= j < |checks| ==> checks[i].at <= checks[j].at)
    && (forall i :: 0 <= i < |checks| ==> 1000 * checks[i].read <= checks[i].at)
  }

  lemma {:induction false} OneMoreStep(steps: seq<Step>, step: Step)
    ensures Reached(steps + [step]) == Apply(Reached(steps), step)
  {
    assert (steps + [step])[..|steps|] == steps;
  }

  /** Whatever happens on one clock is causal. */
  lemma {:induction false} OneClockIsCausal(steps: seq<Step>, ts: seq<int>, now: int)
    requires Follows(steps, ts) && forall t :: t in ts ==> t <= now
    ensures Causal(Reached(steps).executed)
    ensures forall k :: k in Reached(steps).executed ==> k.at <= now
    ensures forall p :: p in Reached(steps).pending ==> 1000 * Reached(steps).pending[p] <= now
  {
    if steps != [] {
      var n := |steps| - 1;
      assert ts[n] in ts && ShownAt(steps[n], ts[n]);
      forall t | t in ts[..n] ensures t <= ts[n] {
        var i :| 0 <= i < n && ts[i] == t;
      }
      OneClockIsCausal(steps[..n], ts[..n], ts[n]);
    }
  }

  /** Steps of clients below `n` only. */
  ghost predicate ClientsBelow(steps: seq<Step>, n: nat) {
    forall i :: 0 <= i < |steps| ==> steps[i].client < n
  }

  /** A reading of a client that does nothing else only adds that reading. */
  lemma {:induction false} OneMoreReading(before: seq<Step>, rest: seq<Step>, client: nat, now: int)
    requires ClientsBelow(before + rest, client)
    ensures var s := Reached(before + rest);
            Reached(before + [ReadClock(client, now)] + rest) == s.(pending := s.pending[client := now])
  {
    var here := before + [ReadClock(client, now)];
    if rest == [] {
      assert before + rest == before && here + rest == here;
      OneMoreStep(before, ReadClock(client, now));
    } else {
      var m := |rest| - 1;
      var step := rest[m];
      assert (before + rest)[|before| + m] == step && step.client != client;
      assert before + rest == (before + rest[..m]) + [step];
      assert here + rest == (here + rest[..m]) + [step];
      FewerClientsBelow(before + rest[..m], step, client);
      OneMoreReading(before, rest[..m], client, now);
      OneMoreStep(before + rest[..m], step);
      OneMoreStep(here + rest[..m], step);
    }
  }

  lemma {:induction false} FewerClientsBelow(steps: seq<Step>, step: Step, n: nat)
    requires ClientsBelow(steps + [step], n)
    ensures ClientsBelow(steps, n)
  {
    assert forall i :: 0 <= i < |steps| ==> (steps + [step])[i] == steps[i];
  }

  /** Where an instant belongs among ascending ones. */
  lemma {:induction false} Position(ts: seq<int>, t: int) returns (p: nat)
    requires Ascending(ts)
    ensures p <= |ts| && (forall i :: 0 <= i < p ==> ts[i] <= t) && (forall i :: p <= i < |ts| ==> t < ts[i])
  {
    if ts == [] || ts[|ts| - 1] <= t {
      p := |ts|;
    } else {
      p := Position(ts[..|ts| - 1], t);
    }
  }

  ghost predicate UpTo(ts: seq<int>, now: int) {
    forall i :: 0 <= i < |ts| ==> ts[i] <= now
  }

  /** A new client's reading goes to its place in time. */
  lemma {:induction false} AddReading(steps: seq<Step>, ts: seq<int>, client: nat, now: int, end: int)
    returns (steps': seq<Step>, ts': seq<int>)
    requires Follows(steps, ts) && ClientsBelow(steps, client) && UpTo(ts, end) && 1000 * now <= end
    ensures Follows(steps', ts') && ClientsBelow(steps', client + 1) && UpTo(ts', end)
    ensures Reached(steps') == Reached(steps).(pending := Reached(steps).pending[client := now])
  {
    hide Reached;
    var p := Position(ts, 1000 * now);
    var step := ReadClock(client, now);
    assert steps == steps[..p] + steps[p..];
    OneMoreReading(steps[..p], steps[p..], client, now);
    steps', ts' := steps[..p] + [step] + steps[p..], ts[..p] + [1000 * now] + ts[p..];
    assert ShownAt(step, 1000 * now);
    forall i | 0 <= i < |steps'| ensures ShownAt(steps'[i], ts'[i]) && steps'[i].client < client + 1 && ts'[i] <= end {
      if p < i {
        assert steps'[i] == steps[i - 1] && ts'[i] == ts[i - 1];
      }
    }
  }

  lemma {:induction false} AddScript(steps: seq<Step>, ts: seq<int>, client: nat, at: int, cost: Cost)
    requires Follows(steps, ts) && ClientsBelow(steps, client + 1) && UpTo(ts, at)
    ensures Follows(steps + [ExecScript(client, at, cost)], ts + [at])
    ensures ClientsBelow(steps + [ExecScript(client, at, cost)], client + 1) && UpTo(ts + [at], at)
  {
  }

  /** Every causal sequence of checks happens on one clock: overlapping calls can
      reach the store in any order that lets each script follow its reading. */
  lemma {:induction false} CausalIsOnOneClock(checks: seq<Check>) returns (steps: seq<Step>, ts: seq<int>)
    requires Causal(checks)
    ensures Follows(steps, ts) && Reached(steps).executed == checks && ClientsBelow(steps, |checks|)
    ensures if checks == [] then ts == [] else UpTo(ts, checks[|checks| - 1].at)
  {
    hide Follows, ClientsBelow;
    if checks == [] {
      steps, ts := [], [];
      NothingFollows();
    } else {
      var n := |checks| - 1;
      var k := checks[n];
      steps, ts := CausalIsOnOneClock(checks[..n]);
      steps, ts := AddReading(steps, ts, n, k.read, k.at);
      AddScript(steps, ts, n, k.at, k.cost);
      OneMoreStep(steps, ExecScript(n, k.at, k.cost));
      steps, ts := steps + [ExecScript(n, k.at, k.cost)], ts + [k.at];
      assert checks == checks[..n] + [k];
    }
  }

  lemma {:induction false} NothingFollows()
    ensures Follows([], []) && ClientsBelow([], 0)
  {
  }

  /** EXACT ORDERS: on one perfect clock the store can see a sequence of checks if
      and only if its scripts run in order and each after its own reading. */
  lemma {:induction false} OneClockIff(checks: seq<Check>)
    ensures (exists steps :: OnOneClock(steps) && Reached(steps).executed == checks) <==> Causal(checks)
  {
    hide Reached, Causal;
    if Causal(checks) {
      var steps, ts := CausalIsOnOneClock(checks);
      assert OnOneClock(steps);
    }
    if steps :| OnOneClock(steps) && Reached(steps).executed == checks {
      var ts :| Follows(steps, ts);
      OneClockIsCausal(steps, ts, if ts == [] then 0 else ts[|ts| - 1]);
    }
  }

  // ---- the exact condition

  /** On one perfect clock, with no keys dropped early and no check overtaken by more than
      `depth` windows, no aligned window is ever granted more than the limit. */
  ghost predicate DepthIsSafe(c: Config, depth: int)
    requires c.Valid()
  {
    forall steps, w ::
      var checks := Reached(steps).executed;
      OnOneClock(steps) && NeverDropsEarly(c, checks) && OvertakenBy(c, checks, depth) ==>
        WindowTotal(c, Admitted(checks, CellRun(c, checks)), w) <= c.limit
  }

  lemma {:induction false} SafeRun(c: Config, checks: seq<Check>, depth: int, w: int)
    requires c.Valid() && OvertakenBy(c, checks, depth)
    requires depth <= 0 || (depth == 1 && (c.limit == 1 || c.window == 1))
    ensures AlignedTotal(c, checks, w) <= c.limit
  {
    hide Index, Start, SumIn;
    if depth <= 0 {
      assert WindowOrdered(c, checks);
      CountersRefineLog(c, checks);
      AdmittedIsLog(c, checks);
      LogIsJustified(c, checks);
      AlignedBound(c, LogAfter(c, checks), w);
    } else {
      OneBehindRun(c, checks);
    }
  }

  lemma {:induction false} UnsafeRun(c: Config, depth: int) returns (checks: seq<Check>)
    requires c.Valid() && 1 <= depth && (depth == 1 ==> 2 <= c.limit && 2 <= c.window)
    ensures OvertakenBy(c, checks, depth) && Causal(checks) && NeverDropsEarly(c, checks)
    ensures c.limit < AlignedTotal(c, checks, 0)
  {
    hide Index, Start, AlignedTotal, OneOvertaken, Rounds, Causal, NeverDropsEarly;
    if depth == 1 {
      var at := 1000 * c.window;
      checks := OneOvertaken(c, at);
      OneOvertakenOverAdmits(c, at);
      AllAtOnce(c, checks, at);
    } else {
      var at := 1000 * Start(c, 2);
      checks := Rounds(c, 1, at);
      RoundsRange(c, 1, at);
      RoundsOvertakeBy(c, 1, at);
      RoundsAddUp(c, 1, at);
      AllAtOnce(c, checks, at);
    }
  }

  /** EXACT CONDITION: atomic scripts on one perfect clock keep every aligned
      window within its limit if and only if no check is overtaken by a script
      of a later window; only a limit or a window of one tolerates a check one
      window behind. */
  lemma {:induction false} SafeDepths(c: Config, depth: nat)
    requires c.Valid()
    ensures DepthIsSafe(c, depth) <==> depth == 0 || (depth == 1 && (c.limit == 1 || c.window == 1))
  {
    hide Index, OvertakenBy, NeverDropsEarly, AlignedTotal, WindowTotal, CellRun, Run, Admitted;
    if depth == 0 || (depth == 1 && (c.limit == 1 || c.window == 1)) {
      forall steps, w
        | OnOneClock(steps) && NeverDropsEarly(c, Reached(steps).executed)
          && OvertakenBy(c, Reached(steps).executed, depth)
        ensures var checks := Reached(steps).executed;
                WindowTotal(c, Admitted(checks, CellRun(c, checks)), w) <= c.limit
      {
        StoredTotal(c, Reached(steps).executed, w);
        SafeRun(c, Reached(steps).executed, depth, w);
      }
    } else {
      var checks := UnsafeRun(c, depth);
      var steps, ts := CausalIsOnOneClock(checks);
      assert OnOneClock(steps);
      StoredTotal(c, checks, 0);
      assert c.limit < WindowTotal(c, Admitted(checks, CellRun(c, checks)), 0);
    }
  }

  /** UNBOUNDED: for every configuration, overlapping calls on one perfect clock
      can make keys that are never dropped early grant one window any multiple of its
      limit. */
  lemma {:induction false} AnyMultipleGranted(c: Config, m: nat) returns (steps: seq<Step>)
    requires c.Valid()
    ensures OnOneClock(steps) && NeverDropsEarly(c, Reached(steps).executed)
    ensures var checks := Reached(steps).executed;
            WindowTotal(c, Admitted(checks, CellRun(c, checks)), 0) == (m + 1) * c.limit
  {
    hide Index, Rounds, NeverDropsEarly, AlignedTotal, WindowTotal, CellRun, Admitted;
    var at := 1000 * Start(c, 2 * m);
    RoundsAddUp(c, m, at);
    RoundsRange(c, m, at);
    AllAtOnce(c, Rounds(c, m, at), at);
    var ts;
    steps, ts := CausalIsOnOneClock(Rounds(c, m, at));
    assert OnOneClock(steps);
    StoredTotal(c, Rounds(c, m, at), 0);
  }

  /** What such keys granted is what the counters would have. */
  lemma {:induction false} StoredTotal(c: Config, checks: seq<Check>, w: int)
    requires c.Valid() && NeverDropsEarly(c, checks)
    ensures WindowTotal(c, Admitted(checks, CellRun(c, checks)), w) == AlignedTotal(c, checks, w)
  {
    hide NeverDropsEarly, Run, CellRun;
    StoredRunAgrees(c, checks);
  }

  /** Scripts that all run at one instant, after every reading. */
  lemma {:induction false} AllAtOnce(c: Config, checks: seq<Check>, at: int)
    requires c.Valid() && forall k :: k in checks ==> 1000 * k.read <= k.at == at
    ensures Causal(checks) && NeverDropsEarly(c, checks)
  {
    hide NeverDropsEarly;
    forall i | 0 <= i < |checks| ensures checks[i].at == at && 1000 * checks[i].read <= at {
      assert checks[i] in checks;
    }
    WithinLifetimeLives(c, checks);
  }
}
