/** The sliding window counters as they sit in the store: three keys that are
    always written together and so share one deadline. */
module SlidingWindowExpiry {
  import opened Arith
  import opened Decisions
  import opened SlidingWindow
  import opened SlidingWindowLog

  /** `deadline` is on the store's clock, in milliseconds. */
  datatype Cell = Missing | Kept(idx: int, prev: int, curr: int, deadline: int)

  /** What GET sees at store time `at`. */
  function Visible(cell: Cell, at: int): (seen: Counters) {
    if cell.Missing? || cell.deadline < at then Fresh else Held(cell.idx, cell.prev, cell.curr)
  }

  /** Whether the script writes: on rotation and on admission. */
  predicate Writes(c: Config, s: Counters, k: Check)
    requires c.Valid()
  {
    s.Fresh? || s.idx < Index(c, k.read) || Admits(c, s, k.read, k.cost)
  }

  function NextCell(c: Config, cell: Cell, k: Check): (next: Cell)
    requires c.Valid()
  {
    var s := Visible(cell, k.at);
    var n := Next(c, s, k.read, k.cost);
    if Writes(c, s, k) then Kept(n.idx, n.prev, n.curr, k.at + 2000 * c.window) else cell
  }

  function CellAfter(c: Config, checks: seq<Check>): (cell: Cell)
    requires c.Valid()
  {
    if checks == [] then Missing
    else NextCell(c, CellAfter(c, checks[..|checks| - 1]), checks[|checks| - 1])
  }

  function CellAnswer(c: Config, cell: Cell, k: Check): (reply: Reply)
    requires c.Valid()
  {
    Answer(c, Visible(cell, k.at), k.read, k.cost)
  }

  function CellRun(c: Config, checks: seq<Check>): (replies: seq<Reply>)
    requires c.Valid()
    ensures |replies| == |checks|
  {
    if checks == [] then []
    else
      CellRun(c, checks[..|checks| - 1])
      + [CellAnswer(c, CellAfter(c, checks[..|checks| - 1]), checks[|checks| - 1])]
  }

  // ---- what a script meets

  /** The keys this script meets are alive, or of a window at least two behind
      its reading: those rotate to the same zeros a missing key starts with. */
  predicate DropUnseen(c: Config, cell: Cell, k: Check)
    requires c.Valid()
  {
    cell.Kept? && cell.deadline < k.at ==> cell.idx + 2 <= Index(c, k.read)
  }

  /** No script of the run meets keys that were dropped while they still counted. */
  ghost predicate NeverDropsEarly(c: Config, checks: seq<Check>)
    requires c.Valid()
  {
    forall n :: 0 <= n < |checks| ==> DropUnseen(c, CellAfter(c, checks[..n]), checks[n])
  }

  lemma {:induction false} NeverDropsEarlyPrefix(c: Config, checks: seq<Check>, n: nat)
    requires c.Valid() && NeverDropsEarly(c, checks) && n <= |checks|
    ensures NeverDropsEarly(c, checks[..n])
    ensures n < |checks| ==> DropUnseen(c, CellAfter(c, checks[..n]), checks[n])
  {
    hide DropUnseen, CellAfter;
    assert forall m :: 0 <= m < n ==> checks[..n][..m] == checks[..m];
  }

  /** The cell carries these counters, alive or not. */
  ghost predicate Carries(cell: Cell, s: Counters) {
    if s.Fresh? then cell == Missing else cell.Kept? && Held(cell.idx, cell.prev, cell.curr) == s
  }

  /** What only depends on the counters the reading rotates to. */
  lemma {:induction false} SameRotationSameStep(c: Config, s: Counters, s': Counters, now: int, cost: Cost)
    requires c.Valid() && Rotate(s, Index(c, now)) == Rotate(s', Index(c, now))
    ensures Answer(c, s, now, cost) == Answer(c, s', now, cost) && Next(c, s, now, cost) == Next(c, s', now, cost)
  {
    hide Index, Start, Scaled, Room;
  }

  lemma {:induction false} CarriesStep(c: Config, cell: Cell, s: Counters, k: Check)
    requires c.Valid() && Carries(cell, s) && DropUnseen(c, cell, k)
    ensures CellAnswer(c, cell, k) == Answer(c, s, k.read, k.cost)
    ensures Carries(NextCell(c, cell, k), Next(c, s, k.read, k.cost))
  {
    hide Index, Start, Admits, Answer;
    SameRotationSameStep(c, Visible(cell, k.at), s, k.read, k.cost);
  }

  /** In whatever order the readings reach the store, keys that are never dropped
      early give the replies of counters that never expire. */
  lemma {:induction false} StoredRunAgrees(c: Config, checks: seq<Check>)
    requires c.Valid() && NeverDropsEarly(c, checks)
    ensures CellRun(c, checks) == Run(c, checks)
    ensures Carries(CellAfter(c, checks), After(c, checks))
  {
    hide Index, Start, Admits, Carries, DropUnseen, NeverDropsEarly, Answer, CellAnswer, Next, NextCell;
    if checks == [] {
      NothingCarried();
    } else {
      var n := |checks| - 1;
      NeverDropsEarlyPrefix(c, checks, n);
      StoredRunAgrees(c, checks[..n]);
      CarriesStep(c, CellAfter(c, checks[..n]), After(c, checks[..n]), checks[n]);
    }
  }

  lemma {:induction false} NothingCarried()
    ensures Carries(Missing, Fresh)
  {
  }

  /** REFINEMENT with expiry: as long as no script meets keys dropped early, the
      expiring keys answer every check of a window-ordered run as the limiter
      with the full log does. */
  lemma {:induction false} ExpiryIsUnobservable(c: Config, checks: seq<Check>)
    requires c.Valid() && WindowOrdered(c, checks) && NeverDropsEarly(c, checks)
    ensures CellRun(c, checks) == LogRun(c, checks)
  {
    hide Index, Start, Admits, NeverDropsEarly;
    StoredRunAgrees(c, checks);
    CountersRefineLog(c, checks);
  }

  // ---- the whole reply, in plain sums

  /** The four numbers for a cost read at `now`, when `before` was admitted in the
      previous aligned window and `sofar` in this one: the previous window fades
      linearly with the offset, `remaining` rounds down what is left of the limit,
      and the next window ends the wait. */
  ghost predicate ReplyFor(limit: int, window: int, before: int, sofar: int, now: int, cost: int, reply: Reply)
    requires 0 < window
  {
    var end := (now / window + 1) * window;
    var used := before * (window - now % window) + sofar * window;
    var left := limit * window - used - if reply.allowed then cost * window else 0;
    && (reply.allowed <==> used + cost * window <= limit * window)
    && reply.remaining == (if left < 0 then 0 else left / window)
    && reply.resetAt == end
    && reply.retryAfter == if reply.allowed then 0 else end - now
  }

  lemma {:induction false} AnswerIsReplyFor(c: Config, s: Counters, k: Check)
    requires c.Valid()
    ensures var r := Rotate(s, k.read / c.window);
            ReplyFor(c.limit, c.window, r.prev, r.curr, k.read, k.cost, Answer(c, s, k.read, k.cost))
  {
    hide Start, Index, Scaled, Room;
    var w, r := k.read / c.window, Rotate(s, k.read / c.window);
    ReadingParts(c, k.read);
    ScaledIs(c, r, k.read);
    StartIs(c, w);
    StartIs(c, w + 1);
    StartStep(c, w);
    RoomIs(c, Scaled(c, r, k.read));
    RoomIs(c, Scaled(c, r, k.read) + k.cost * c.window);
  }

  /** Window and offset of a reading. */
  lemma {:induction false} ReadingParts(c: Config, now: int)
    requires c.Valid()
    ensures Index(c, now) == now / c.window && Elapsed(c, now) == now % c.window
  {
  }

  lemma {:induction false} StartIs(c: Config, w: int)
    ensures Start(c, w) == w * c.window
  {
  }

  lemma {:induction false} ScaledIs(c: Config, r: Counters, now: int)
    requires c.Valid() && r.Held?
    ensures Scaled(c, r, now) == r.prev * (c.window - now % c.window) + r.curr * c.window
  {
    ReadingParts(c, now);
  }

  /** ONE SCRIPT, from any stored keys: what it answers and what it leaves, read
      off the keys' own fields.  A denied check of the stored window or an earlier
      one writes nothing; anything else renews the deadline. */
  lemma {:induction false} ScriptIs(c: Config, cell: Cell, k: Check)
    requires c.Valid()
    ensures var w, reply := k.read / c.window, CellAnswer(c, cell, k);
            var alive := cell.Kept? && k.at <= cell.deadline;
            var held := alive && w <= cell.idx;
            var before := if held then cell.prev else if alive && cell.idx == w - 1 then cell.curr else 0;
            var sofar := if held then cell.curr else 0;
            && ReplyFor(c.limit, c.window, before, sofar, k.read, k.cost, reply)
            && NextCell(c, cell, k)
               == if held && !reply.allowed then cell
                  else Kept(if held then cell.idx else w, before, if reply.allowed then sofar + k.cost else sofar,
                            k.at + 2000 * c.window)
  {
    hide Start, Index, Scaled, Room, ReplyFor;
    ReadingParts(c, k.read);
    AnswerIsReplyFor(c, Visible(cell, k.at), k);
  }

  lemma {:induction false} RoomIs(c: Config, scaled: int)
    requires c.Valid()
    ensures var left := c.limit * c.window - scaled;
            Room(c, scaled) == if left < 0 then 0 else left / c.window
  {
    DivAtLeast(c.limit * c.window - scaled, c.window, 0);
  }

  /** EVERY FIELD OF EVERY REPLY, from the cost the earlier replies granted in the
      two aligned windows that count. */
  lemma {:induction false} StoredReplyIs(c: Config, checks: seq<Check>, n: nat)
    requires c.Valid() && WindowOrdered(c, checks) && NeverDropsEarly(c, checks) && n < |checks|
    ensures var k, reply := checks[n], CellRun(c, checks)[n];
            var log := Admitted(checks[..n], CellRun(c, checks)[..n]);
            var w := k.read / c.window;
            var before := SumIn(log, (w - 1) * c.window, w * c.window);
            var sofar := SumIn(log, w * c.window, (w + 1) * c.window);
            && (reply.allowed <==>
                  before * (c.window - k.read % c.window) + (sofar + k.cost) * c.window <= c.limit * c.window)
            && ReplyFor(c.limit, c.window, before, sofar, k.read, k.cost, reply)
  {
    hide Index, Start, Admits, Answer, SumIn, WindowOrdered, NeverDropsEarly, CellAnswer, NextCell, CellRun, LogRun;
    hide Admitted, LogAfter, ReplyFor, Counted;
    var k, init, w := checks[n], checks[..n], checks[n].read / c.window;
    ExpiryIsUnobservable(c, checks);
    NeverDropsEarlyPrefix(c, checks, n);
    WindowOrderedPrefix(c, checks, n);
    ExpiryIsUnobservable(c, init);
    CellRunPrefix(c, checks, n);
    AdmittedIsLog(c, init);
    LogRunAt(c, checks, n);
    CountedIs(c, LogAfter(c, init), k.read);
    AnswerIsReplyFor(c, Counted(c, LogAfter(c, init), k.read), k);
    ReplyForAllows(c.limit, c.window, Counted(c, LogAfter(c, init), k.read).prev,
                   Counted(c, LogAfter(c, init), k.read).curr, k.read, k.cost, CellRun(c, checks)[n]);
  }

  lemma {:induction false} ReplyForAllows(
    limit: int, window: int, before: int, sofar: int, now: int, cost: int, reply: Reply)
    requires 0 < window && ReplyFor(limit, window, before, sofar, now, cost, reply)
    ensures reply.allowed <==> before * (window - now % window) + (sofar + cost) * window <= limit * window
  {
    assert (sofar + cost) * window == sofar * window + cost * window;
  }

  lemma {:induction false} WindowOrderedPrefix(c: Config, checks: seq<Check>, n: nat)
    requires c.Valid() && WindowOrdered(c, checks) && n <= |checks|
    ensures WindowOrdered(c, checks[..n])
  {
    hide Index;
  }

  lemma {:induction false} CellRunPrefix(c: Config, checks: seq<Check>, n: nat)
    requires c.Valid() && n <= |checks|
    ensures CellRun(c, checks)[..n] == CellRun(c, checks[..n])
    decreases |checks|
  {
    hide CellAnswer, CellAfter;
    if n == |checks| {
      assert checks[..n] == checks;
    } else {
      var init := checks[..|checks| - 1];
      assert init[..n] == checks[..n];
      CellRunPrefix(c, init, n);
    }
  }

  lemma {:induction false} LogRunAt(c: Config, checks: seq<Check>, n: nat)
    requires c.Valid() && n < |checks|
    ensures LogRun(c, checks)[n]
         == Answer(c, Counted(c, LogAfter(c, checks[..n]), checks[n].read), checks[n].read, checks[n].cost)
    decreases |checks|
  {
    hide Answer, Counted, LogAfter;
    var m := |checks| - 1;
    if n < m {
      assert checks[..m][..n] == checks[..n];
      LogRunAt(c, checks[..m], n);
    }
  }

  lemma {:induction false} CountedIs(c: Config, log: Log, now: int)
    requires c.Valid()
    ensures var w := now / c.window;
            && Rotate(Counted(c, log, now), w) == Counted(c, log, now)
            && Counted(c, log, now).prev == SumIn(log, (w - 1) * c.window, w * c.window)
            && Counted(c, log, now).curr == SumIn(log, w * c.window, (w + 1) * c.window)
  {
    hide SumIn;
    ReadingParts(c, now);
  }

  // ---- when keys are not dropped early, in terms of the checks alone

  /** From `x` to `y` the store measures at most a lifetime of the keys, or the
      readings are two windows apart. */
  predicate PairSpaced(c: Config, x: Check, y: Check)
    requires c.Valid()
  {
    y.at - x.at <= 2000 * c.window || Index(c, x.read) + 2 <= Index(c, y.read)
  }

  ghost predicate Spaced(c: Config, checks: seq<Check>)
    requires c.Valid()
  {
    forall i, j :: 0 <= i < j < |checks| ==> PairSpaced(c, checks[i], checks[j])
  }

  /** In a window-ordered run one check has set both the index and the deadline. */
  lemma {:induction false} LastWriter(c: Config, checks: seq<Check>)
    requires c.Valid() && WindowOrdered(c, checks) && checks != []
    ensures CellAfter(c, checks).Kept?
    ensures exists x :: x in checks && CellAfter(c, checks).idx == Index(c, x.read)
              && CellAfter(c, checks).deadline == x.at + 2000 * c.window
  {
    hide Index, Start, Admits;
    var n := |checks| - 1;
    var k := checks[n];
    assert k in checks;
    if n > 0 {
      LastWriter(c, checks[..n]);
      var cell := CellAfter(c, checks[..n]);
      var x :| x in checks[..n] && cell.idx == Index(c, x.read) && cell.deadline == x.at + 2000 * c.window;
      assert x in checks && cell.idx <= Index(c, k.read);
      if !Writes(c, Visible(cell, k.at), k) {
        assert CellAfter(c, checks) == cell;
      } else {
        assert CellAfter(c, checks).idx == Index(c, k.read);
      }
    }
  }

  lemma {:induction false} SpacedNeverDropsEarly(c: Config, checks: seq<Check>)
    requires c.Valid() && WindowOrdered(c, checks) && Spaced(c, checks)
    ensures NeverDropsEarly(c, checks)
  {
    hide Index, CellAfter;
    forall n | 0 <= n < |checks| ensures DropUnseen(c, CellAfter(c, checks[..n]), checks[n]) {
      if n == 0 {
        NoCell(c);
        assert checks[..0] == [];
      } else {
        var cell := CellAfter(c, checks[..n]);
        LastWriter(c, checks[..n]);
        var x :| x in checks[..n] && cell.idx == Index(c, x.read) && cell.deadline == x.at + 2000 * c.window;
        var i :| 0 <= i < n && checks[i] == x;
        assert PairSpaced(c, checks[i], checks[n]);
      }
    }
  }

  lemma {:induction false} KeepSpaced(c: Config, checks: seq<Check>, mask: seq<bool>)
    requires c.Valid() && |checks| == |mask| && Spaced(c, checks)
    ensures Spaced(c, Keep(checks, mask))
  {
    hide PairSpaced;
    if checks != [] {
      var n := |checks| - 1;
      KeepSpaced(c, checks[..n], mask[..n]);
      forall x | x in Keep(checks[..n], mask[..n]) ensures PairSpaced(c, x, checks[n]) {
        assert x in checks[..n];
      }
    }
  }

  /** Between two checks the store gains at most a second on the readings, which
      are whole seconds.  Flooring one clock loses less than a second, so this
      leaves a millisecond between a reading and its script. */
  ghost predicate Synchronous(checks: seq<Check>) {
    SkewAtMost(checks, 1000, 1000)
  }

  lemma {:induction false} SynchronousIsSpaced(c: Config, checks: seq<Check>)
    requires c.Valid() && Synchronous(checks)
    ensures Spaced(c, checks)
  {
    hide Index;
    forall i, j | 0 <= i < j < |checks| ensures PairSpaced(c, checks[i], checks[j]) {
      assert SkewBetween(checks[i], checks[j], 1000, 1000);
      SynchronousPair(c, checks[i], checks[j]);
    }
  }

  lemma {:induction false} SynchronousPair(c: Config, x: Check, y: Check)
    requires c.Valid() && SkewBetween(x, y, 1000, 1000)
    ensures PairSpaced(c, x, y)
  {
    hide Index, Start;
    var w := Index(c, x.read);
    StartStep(c, w);
    StartStep(c, w + 1);
    IndexAtLeast(c, y.read, w + 2);
  }

  /** A full window, and a check two windows' length later on the store's clock
      whose reading still falls into the next window. */
  function LateScript(c: Config): (checks: seq<Check>)
    requires c.Valid()
  {
    [Check(0, 0, c.limit), Check(2 * c.window - 1, 2000 * c.window + 1, c.limit)]
  }

  /** The late script finds the keys gone and admits what the log denies. */
  lemma {:induction false} LateScriptSeesExpiry(c: Config)
    requires c.Valid()
    ensures WindowOrdered(c, LateScript(c)) && SkewAtMost(LateScript(c), 1000, 1001)
    ensures CellRun(c, LateScript(c))[1].allowed && !LogRun(c, LateScript(c))[1].allowed
  {
    hide Index, Start;
    var W := c.window;
    var checks := LateScript(c);
    var k := checks[1];
    TwoWindows(c);
    assert checks[..1] == [checks[0]] && [checks[0]][..0] == [];
    assert Scaled(c, Held(0, 0, 0), 0) == 0;
    assert CellAfter(c, checks[..1]) == Kept(0, 0, c.limit, 2000 * W);
    assert Scaled(c, Held(1, 0, 0), 2 * W - 1) == 0;
    FirstAdmission(c, checks[0]);
    LogOfOne(c);
    assert Scaled(c, Held(1, c.limit, 0), 2 * W - 1) == c.limit;
    assert CellRun(c, checks)[1] == CellAnswer(c, CellAfter(c, checks[..1]), k);
    assert Counted(c, [Entry(0, c.limit)], k.read) == Held(1, c.limit, 0);
  }

  lemma {:induction false} MoreSlack(checks: seq<Check>, unit: int, slack: int, more: int)
    requires SkewAtMost(checks, unit, slack) && slack <= more
    ensures SkewAtMost(checks, unit, more)
  {
    hide SkewBetween;
    forall i, j | 0 <= i < j < |checks| ensures SkewBetween(checks[i], checks[j], unit, more) {
      MorePairSlack(checks[i], checks[j], unit, slack, more);
    }
  }

  lemma {:induction false} MorePairSlack(x: Check, y: Check, unit: int, slack: int, more: int)
    requires SkewBetween(x, y, unit, slack) && slack <= more
    ensures SkewBetween(x, y, unit, more)
  {
  }

  /** Every window-ordered run with at most this skew gets the log's replies. */
  ghost predicate SlackIsSafe(c: Config, slack: int)
    requires c.Valid()
  {
    forall checks :: WindowOrdered(c, checks) && SkewAtMost(checks, 1000, slack) ==>
      CellRun(c, checks) == LogRun(c, checks)
  }

  /** EXACT SLACK: for every configuration, expiry goes unnoticed in every run
      if and only if the store's clock is never more than one second ahead. */
  lemma {:induction false} SlackIsOneSecond(c: Config, slack: int)
    requires c.Valid()
    ensures SlackIsSafe(c, slack) <==> slack <= 1000
  {
    hide WindowOrdered, CellRun, LogRun, SkewAtMost, LateScript, Spaced, NeverDropsEarly;
    if slack <= 1000 {
      forall checks | WindowOrdered(c, checks) && SkewAtMost(checks, 1000, slack)
        ensures CellRun(c, checks) == LogRun(c, checks)
      {
        MoreSlack(checks, 1000, slack, 1000);
        SynchronousIsSpaced(c, checks);
        SpacedNeverDropsEarly(c, checks);
        ExpiryIsUnobservable(c, checks);
      }
    } else {
      LateScriptSeesExpiry(c);
      MoreSlack(LateScript(c), 1000, 1001, slack);
    }
  }

  lemma {:induction false} TwoWindows(c: Config)
    requires c.Valid()
    ensures Start(c, 0) == 0 && Start(c, 1) == c.window
    ensures Index(c, 0) == 0 && Index(c, 2 * c.window - 1) == 1
  {
    IndexIs(c, 0, 0);
    IndexIs(c, 2 * c.window - 1, 1);
  }

  lemma {:induction false} LogOfOne(c: Config)
    requires c.Valid()
    ensures WindowTotal(c, [Entry(0, c.limit)], 0) == c.limit
    ensures WindowTotal(c, [Entry(0, c.limit)], 1) == 0
  {
    StartStep(c, 0);
    assert [] + [Entry(0, c.limit)] == [Entry(0, c.limit)];
    SumAppend([], Entry(0, c.limit), Start(c, 0), Start(c, 1));
    SumAppend([], Entry(0, c.limit), Start(c, 1), Start(c, 2));
  }

  /** Deleting any set of denied checks leaves every field of every other
      reply unchanged, as long as neither run has keys dropped early: a denied
      check may have renewed the keys. */
  lemma {:induction false} DeniedLeaveNoTrace(c: Config, checks: seq<Check>, mask: seq<bool>)
    requires c.Valid() && WindowOrdered(c, checks) && |mask| == |checks|
    requires NeverDropsEarly(c, checks) && NeverDropsEarly(c, Keep(checks, mask))
    requires OnlyDeniedDropped(CellRun(c, checks), mask)
    ensures CellRun(c, Keep(checks, mask)) == Keep(CellRun(c, checks), mask)
  {
    hide Index, Start, Admits, NeverDropsEarly;
    StoredRunAgrees(c, checks);
    TraceFree(c, checks, mask);
    StoredRunAgrees(c, Keep(checks, mask));
  }

  /** Spacing is enough for both runs. */
  lemma {:induction false} SpacedDeniedLeaveNoTrace(c: Config, checks: seq<Check>, mask: seq<bool>)
    requires c.Valid() && WindowOrdered(c, checks) && Spaced(c, checks)
    requires |mask| == |checks| && OnlyDeniedDropped(CellRun(c, checks), mask)
    ensures CellRun(c, Keep(checks, mask)) == Keep(CellRun(c, checks), mask)
  {
    hide Index, Spaced, NeverDropsEarly, CellRun, WindowOrdered;
    SpacedNeverDropsEarly(c, checks);
    KeepWindowOrdered(c, checks, mask);
    KeepSpaced(c, checks, mask);
    SpacedNeverDropsEarly(c, Keep(checks, mask));
    DeniedLeaveNoTrace(c, checks, mask);
  }

  /** One more check on the stored cell is one more check on the counters. */
  lemma {:induction false} ProbeAgrees(c: Config, checks: seq<Check>, k: Check)
    requires c.Valid() && WindowOrdered(c, checks + [k]) && NeverDropsEarly(c, checks + [k])
    ensures WindowOrdered(c, checks) && NeverDropsEarly(c, checks)
    ensures forall x :: x in checks ==> Index(c, x.read) <= Index(c, k.read)
    ensures CellAnswer(c, CellAfter(c, checks), k) == Answer(c, After(c, checks), k.read, k.cost)
  {
    hide Answer, CellAnswer, Next, NextCell, Index, NeverDropsEarly;
    PrefixOrder(c, checks, k);
    assert (checks + [k])[..|checks|] == checks;
    NeverDropsEarlyPrefix(c, checks + [k], |checks|);
    StoredRunAgrees(c, checks + [k]);
    assert CellRun(c, checks + [k])[|checks|] == Run(c, checks + [k])[|checks|];
  }

  lemma {:induction false} PrefixOrder(c: Config, checks: seq<Check>, k: Check)
    requires c.Valid() && WindowOrdered(c, checks + [k])
    ensures WindowOrdered(c, checks)
    ensures forall x :: x in checks ==> Index(c, x.read) <= Index(c, k.read)
  {
    hide Index;
    var all := checks + [k];
    forall i, j | 0 <= i <= j < |checks| ensures Index(c, checks[i].read) <= Index(c, checks[j].read) {
      assert all[i] == checks[i] && all[j] == checks[j];
    }
    forall x | x in checks ensures Index(c, x.read) <= Index(c, k.read) {
      var i :| 0 <= i < |checks| && checks[i] == x;
      assert all[i] == x && all[|checks|] == k;
    }
  }

  /** RECOVERY of the stored counters: once a check would be allowed it stays
      allowed until something is admitted, whatever denied checks come between,
      across rotation and expiry. */
  lemma {:induction false} StoredAllowedStaysAllowed(c: Config, checks: seq<Check>, n: nat, early: Check, late: Check)
    requires c.Valid() && n <= |checks|
    requires WindowOrdered(c, checks[..n] + [early]) && NeverDropsEarly(c, checks[..n] + [early])
    requires WindowOrdered(c, checks + [late]) && NeverDropsEarly(c, checks + [late])
    requires forall i :: n <= i < |checks| ==> !CellRun(c, checks)[i].allowed
    requires early.read <= late.read && early.cost == late.cost
    requires CellAnswer(c, CellAfter(c, checks[..n]), early).allowed
    ensures CellAnswer(c, CellAfter(c, checks), late).allowed
  {
    hide Index, Start, Admits, CellAnswer, NextCell;
    ProbeAgrees(c, checks[..n], early);
    ProbeAgrees(c, checks, late);
    StoredRunAgrees(c, checks);
    assert forall i :: 0 <= i < n ==> checks[..n][i] in checks[..n];
    AllowedStaysAllowed(c, checks, n, early.read, late.read, late.cost);
  }

  /** One window after the last `reset_at` exactly the costs up to the limit
      are allowed again. */
  lemma {:induction false} StoredFullRecovery(c: Config, checks: seq<Check>, late: Check)
    requires c.Valid() && checks != []
    requires WindowOrdered(c, checks + [late]) && NeverDropsEarly(c, checks + [late])
    requires CellRun(c, checks)[|checks| - 1].resetAt + c.window <= late.read
    ensures CellAnswer(c, CellAfter(c, checks), late).allowed <==> late.cost <= c.limit
  {
    hide Index, Start, Admits, CellAnswer, NextCell, Answer;
    ProbeAgrees(c, checks, late);
    StoredRunAgrees(c, checks);
    FullRecovery(c, checks, late.read, late.cost);
  }

  /** EXACT RECOVERY of the stored counters: from the last `reset_at` on, a full
      limit is allowed exactly if the last window was granted nothing, or one
      window more has passed. */
  lemma {:induction false} StoredFullRecoveryIff(c: Config, checks: seq<Check>, late: Check)
    requires c.Valid() && checks != [] && late.cost == c.limit
    requires WindowOrdered(c, checks + [late]) && NeverDropsEarly(c, checks + [late])
    requires CellRun(c, checks)[|checks| - 1].resetAt <= late.read
    ensures CellAnswer(c, CellAfter(c, checks), late).allowed
       <==> WindowTotal(c, Admitted(checks, CellRun(c, checks)), Index(c, checks[|checks| - 1].read)) == 0
            || CellRun(c, checks)[|checks| - 1].resetAt + c.window <= late.read
  {
    hide Index, Start, Admits, CellAnswer, NextCell, Answer, NeverDropsEarly, SumIn, Next;
    var n := |checks| - 1;
    var k, s := checks[n], After(c, checks[..n]);
    ProbeAgrees(c, checks, late);
    StoredRunAgrees(c, checks);
    CountersRefineLog(c, checks);
    AdmittedIsLog(c, checks);
    CountersAgree(c, checks);
    IndexFollowsReadings(c, checks);
    NextIndex(c, checks);
    AfterSane(c, checks[..n]);
    FullRecoveryIff(c, s, k.read, k.cost, late.read);
  }

  /** An early drop is seen: a full limit is granted that the counters would
      have granted only if none of them counted. */
  lemma {:induction false} EarlyDropIsSeen(c: Config, cell: Cell, k: Check)
    requires c.Valid() && cell.Kept? && 0 <= cell.prev && 0 <= cell.curr
    requires !DropUnseen(c, cell, k) && k.cost == c.limit
    ensures CellAnswer(c, cell, k).allowed
    ensures var r := Rotate(Held(cell.idx, cell.prev, cell.curr), Index(c, k.read));
            Answer(c, Held(cell.idx, cell.prev, cell.curr), k.read, k.cost).allowed <==> r.prev == 0 && r.curr == 0
  {
    hide Index, Admits, Scaled, Room;
    FullLimitAdmittedIff(c, Fresh, k.read);
    FullLimitAdmittedIff(c, Held(cell.idx, cell.prev, cell.curr), k.read);
  }

  // ---- any order of readings

  /** All the scripts run within `ms` milliseconds of each other. */
  ghost predicate Within(checks: seq<Check>, ms: int) {
    forall i, j :: 0 <= i < j < |checks| ==> checks[j].at - checks[i].at <= ms
  }

  /** The deadline was set by some check of the run. */
  lemma {:induction false} DeadlineOrigin(c: Config, checks: seq<Check>)
    requires c.Valid() && checks != []
    ensures exists x :: x in checks && CellAfter(c, checks).Kept?
              && CellAfter(c, checks).deadline == x.at + 2000 * c.window
  {
    hide Index, Start, Admits, Next;
    var n := |checks| - 1;
    assert checks[n] in checks;
    if n > 0 {
      DeadlineOrigin(c, checks[..n]);
      var x :| x in checks[..n] && CellAfter(c, checks[..n]).deadline == x.at + 2000 * c.window;
      assert x in checks;
    }
  }

  /** Scripts that all run within two windows' length find the keys alive. */
  lemma {:induction false} WithinLifetimeLives(c: Config, checks: seq<Check>)
    requires c.Valid() && Within(checks, 2000 * c.window)
    ensures NeverDropsEarly(c, checks)
  {
    hide CellAfter, Index;
    forall n | 0 <= n < |checks| ensures DropUnseen(c, CellAfter(c, checks[..n]), checks[n]) {
      if n == 0 {
        NoCell(c);
        assert checks[..0] == [];
      } else {
        DeadlineOrigin(c, checks[..n]);
        var x :| x in checks[..n] && CellAfter(c, checks[..n]).deadline == x.at + 2000 * c.window;
        var i :| 0 <= i < n && checks[i] == x;
      }
    }
  }

  lemma {:induction false} NoCell(c: Config)
    requires c.Valid()
    ensures CellAfter(c, []) == Missing
  {
  }

  // ---- safety, in terms of the replies alone

  /** What the replies of a run admitted, and when. */
  function Admitted(checks: seq<Check>, replies: seq<Reply>): (log: Log)
    requires |checks| == |replies|
  {
    if checks == [] then []
    else
      var n := |checks| - 1;
      Admitted(checks[..n], replies[..n])
      + if replies[n].allowed then [Entry(checks[n].read, checks[n].cost)] else []
  }

  lemma {:induction false} AdmittedIsLog(c: Config, checks: seq<Check>)
    requires c.Valid()
    ensures Admitted(checks, LogRun(c, checks)) == LogAfter(c, checks)
  {
    hide Index, Start, Scaled;
    if checks != [] {
      var n := |checks| - 1;
      AdmittedIsLog(c, checks[..n]);
      assert LogRun(c, checks)[..n] == LogRun(c, checks[..n]);
      var log := LogAfter(c, checks[..n]);
      assert Counted(c, log, checks[n].read) == Rotate(Counted(c, log, checks[n].read), Index(c, checks[n].read));
    }
  }

  /** SAFETY: the cost admitted by the script's replies in the span of one
      window's length that starts at offset `s` of window `w` is at most the
      limit when aligned, at most limit + limit * (s - 1) / window otherwise,
      and always less than twice the limit. */
  lemma {:induction false} NoBoundaryBurst(c: Config, checks: seq<Check>, w: int, s: int)
    requires c.Valid() && WindowOrdered(c, checks) && NeverDropsEarly(c, checks) && 0 <= s < c.window
    ensures var span := SumIn(Admitted(checks, CellRun(c, checks)), Start(c, w) + s, Start(c, w + 1) + s);
            && (s == 0 ==> span <= c.limit)
            && (0 < s ==> c.window * span <= c.window * c.limit + c.limit * (s - 1))
            && span < 2 * c.limit
  {
    hide Start;
    ExpiryIsUnobservable(c, checks);
    AdmittedIsLog(c, checks);
    AdmissionBounds(c, checks, w, s);
  }

  /** The bound is reached: for every configuration, window and offset some run
      whose scripts run on the clock they read is granted exactly that much. */
  lemma {:induction false} BoundIsReached(c: Config, w: int, s: int) returns (checks: seq<Check>)
    requires c.Valid() && 0 < s < c.window
    ensures WindowOrdered(c, checks) && Synchronous(checks) && NeverDropsEarly(c, checks)
    ensures SumIn(Admitted(checks, CellRun(c, checks)), Start(c, w) + s, Start(c, w + 1) + s)
         == c.limit + c.limit * (s - 1) / c.window
  {
    hide Start, Index, SumIn, Admitted, CellRun, LogAfter;
    checks := ReachingRun(c, w, s);
    OrderedReadings(c, checks);
    forall i, j | 0 <= i < j < |checks| ensures SkewBetween(checks[i], checks[j], 1000, 1000) {
      assert checks[i] in checks && checks[j] in checks;
    }
    SynchronousIsSpaced(c, checks);
    SpacedNeverDropsEarly(c, checks);
    ExpiryIsUnobservable(c, checks);
    AdmittedIsLog(c, checks);
  }

  /** ACCURACY: at any moment whose previous aligned window was evenly spread,
      the trailing window's length holds at most the limit. */
  lemma {:induction false} EvenTrafficStaysWithinLimit(c: Config, checks: seq<Check>, now: int)
    requires c.Valid() && WindowOrdered(c, checks) && NeverDropsEarly(c, checks)
    requires EvenlySpread(c, Admitted(checks, CellRun(c, checks)), Index(c, now) - 1)
    ensures SumIn(Admitted(checks, CellRun(c, checks)), now - c.window + 1, now + 1) <= c.limit
  {
    hide Index, Start, EvenlySpread;
    ExpiryIsUnobservable(c, checks);
    AdmittedIsLog(c, checks);
    LogIsJustified(c, checks);
    TrailingBound(c, LogAfter(c, checks), now);
  }
}
