/** The signup limiter on values: what it remembers per client, and the exact
    sliding log it must agree with. */
module SignupLog {

  /** One signup attempt: the client's address and the time in nanoseconds. */
  datatype Call = Call(client: string, now: int)

  /** Admission times remembered per client, oldest first. */
  type Seen = map<string, seq<int>>

  /** The times strictly after the cutoff, in order. */
  function Since(times: seq<int>, cutoff: int): (kept: seq<int>)
    ensures |kept| <= |times|
    ensures forall t :: t in kept ==> t in times && cutoff < t
  {
    if times == [] then []
    else
      var rest := Since(times[..|times| - 1], cutoff);
      if cutoff < times[|times| - 1] then rest + [times[|times| - 1]] else rest
  }

  function TimesOf(v: Seen, client: string): (times: seq<int>) {
    if client in v then v[client] else []
  }

  /** Nothing remembered, or nothing at or after the cutoff if sorted. */
  predicate Stale(times: seq<int>, cutoff: int) {
    times == [] || times[|times| - 1] < cutoff
  }

  function Swept(v: Seen, cutoff: int): (swept: Seen) {
    map k | k in v && !Stale(v[k], cutoff) :: v[k]
  }

  datatype Settings = Settings(limit: int, window: int, sweepAbove: nat)

  predicate Admits(c: Settings, v: Seen, call: Call) {
    |Since(TimesOf(v, call.client), call.now - c.window)| < c.limit
  }

  /** What is remembered after a call. */
  function Next(c: Settings, v: Seen, call: Call): (next: Seen) {
    var cutoff := call.now - c.window;
    var kept := Since(TimesOf(v, call.client), cutoff);
    if !Admits(c, v, call) then v[call.client := kept]
    else
      var v' := v[call.client := kept + [call.now]];
      if |v'| > c.sweepAbove then Swept(v', cutoff) else v'
  }

  function After(c: Settings, calls: seq<Call>): (v: Seen) {
    if calls == [] then map[] else Next(c, After(c, calls[..|calls| - 1]), calls[|calls| - 1])
  }

  function Answers(c: Settings, calls: seq<Call>): (answers: seq<bool>)
    ensures |answers| == |calls|
  {
    if calls == [] then []
    else Answers(c, calls[..|calls| - 1]) + [Admits(c, After(c, calls[..|calls| - 1]), calls[|calls| - 1])]
  }

  // ---- the reference: every admission ever made

  function Admitted(c: Settings, calls: seq<Call>): (log: seq<Call>)
    ensures forall x :: x in log ==> x in calls
  {
    if calls == [] then []
    else
      var n := |calls| - 1;
      var log := Admitted(c, calls[..n]);
      if Answers(c, calls)[n] then log + [calls[n]] else log
  }

  /** Admissions of one client in (after, upTo]. */
  function CountIn(log: seq<Call>, client: string, after: int, upTo: int): (n: nat)
    ensures n <= |log|
  {
    if log == [] then 0
    else
      var x := log[|log| - 1];
      CountIn(log[..|log| - 1], client, after, upTo)
      + if x.client == client && after < x.now <= upTo then 1 else 0
  }

  function ClientTimes(log: seq<Call>, client: string): (times: seq<int>)
    ensures forall t :: t in times ==> Call(client, t) in log
  {
    if log == [] then []
    else
      var x := log[|log| - 1];
      ClientTimes(log[..|log| - 1], client) + if x.client == client then [x.now] else []
  }

  ghost predicate NonDecreasing(calls: seq<Call>) {
    forall i, j :: 0 <= i <= j < |calls| ==> calls[i].now <= calls[j].now
  }

  ghost predicate Sorted(times: seq<int>) {
    forall i, j :: 0 <= i <= j < |times| ==> times[i] <= times[j]
  }

  // ---- filtering

  lemma {:induction false} SinceAppend(times: seq<int>, t: int, cutoff: int)
    ensures Since(times + [t], cutoff) == Since(times, cutoff) + if cutoff < t then [t] else []
  {
    assert (times + [t])[..|times|] == times;
  }

  /** Filtering by an earlier cutoff first changes nothing. */
  lemma {:induction false} SinceTwice(times: seq<int>, early: int, late: int)
    requires early <= late
    ensures Since(Since(times, early), late) == Since(times, late)
  {
    if times != [] {
      var init, t := times[..|times| - 1], times[|times| - 1];
      SinceTwice(init, early, late);
      SinceAppend(Since(init, early), t, late);
    }
  }

  lemma {:induction false} SinceNothing(times: seq<int>, cutoff: int)
    requires forall i :: 0 <= i < |times| ==> times[i] <= cutoff
    ensures Since(times, cutoff) == []
  {
    if times != [] {
      SinceNothing(times[..|times| - 1], cutoff);
    }
  }

  lemma {:induction false} SinceSorted(times: seq<int>, cutoff: int)
    requires Sorted(times)
    ensures Sorted(Since(times, cutoff))
  {
    if times != [] {
      var init, last := times[..|times| - 1], times[|times| - 1];
      SinceSorted(init, cutoff);
      var rest := Since(init, cutoff);
      forall i | 0 <= i < |rest| ensures rest[i] <= last {
        assert rest[i] in rest;
        var j :| 0 <= j < |init| && init[j] == rest[i];
        assert times[j] == rest[i];
      }
    }
  }

  lemma {:induction false} CountIsSince(log: seq<Call>, client: string, after: int, upTo: int)
    requires forall x :: x in log ==> x.now <= upTo
    ensures |Since(ClientTimes(log, client), after)| == CountIn(log, client, after, upTo)
  {
    if log != [] {
      var init, x := log[..|log| - 1], log[|log| - 1];
      CountIsSince(init, client, after, upTo);
      if x.client == client {
        SinceAppend(ClientTimes(init, client), x.now, after);
      } else {
        assert ClientTimes(init, client) + [] == ClientTimes(init, client);
      }
    }
  }

  // ---- what is remembered is the log, as far as any later call can tell

  ghost predicate AgreesFor(v: Seen, log: seq<Call>, client: string, cutoff: int) {
    forall c :: cutoff <= c ==> Since(TimesOf(v, client), c) == Since(ClientTimes(log, client), c)
  }

  ghost predicate AgreesForAll(v: Seen, log: seq<Call>, cutoff: int) {
    forall client :: AgreesFor(v, log, client, cutoff)
  }

  /** Sorted, and nothing later than `now`. */
  ghost predicate SortedUpTo(times: seq<int>, now: int) {
    Sorted(times) && forall i :: 0 <= i < |times| ==> times[i] <= now
  }

  ghost predicate AllSortedUpTo(v: Seen, now: int) {
    forall k :: k in v ==> SortedUpTo(v[k], now)
  }

  /** Every client's remembered list is sorted and, for every cutoff a later
      call may use, equivalent to the log. */
  ghost predicate Remembers(v: Seen, log: seq<Call>, now: int, window: int) {
    AllSortedUpTo(v, now) && AgreesForAll(v, log, now - window)
  }

  /** Compacting or extending one client's list. */
  lemma {:induction false} UpdateAgrees(
    v: Seen, log: seq<Call>, call: Call, cutoff: int, client: string, admit: bool)
    requires AgreesFor(v, log, client, cutoff)
    ensures var kept := Since(TimesOf(v, call.client), cutoff);
            var v' := v[call.client := if admit then kept + [call.now] else kept];
            AgreesFor(v', if admit then log + [call] else log, client, cutoff)
  {
    var kept := Since(TimesOf(v, call.client), cutoff);
    var times := if admit then kept + [call.now] else kept;
    var v', log' := v[call.client := times], if admit then log + [call] else log;
    assert (log + [call])[..|log|] == log;
    forall c | cutoff <= c ensures Since(TimesOf(v', client), c) == Since(ClientTimes(log', client), c) {
      if client == call.client {
        SinceTwice(TimesOf(v, client), cutoff, c);
        SinceAppend(kept, call.now, c);
        SinceAppend(ClientTimes(log, client), call.now, c);
      } else {
        assert ClientTimes(log, client) + [] == ClientTimes(log, client);
      }
    }
  }

  /** The sweep forgets only lists no later cutoff would keep anything of. */
  lemma {:induction false} SweepAgrees(v: Seen, log: seq<Call>, client: string, cutoff: int)
    requires AgreesFor(v, log, client, cutoff) && (client in v ==> Sorted(v[client]))
    ensures AgreesFor(Swept(v, cutoff), log, client, cutoff)
  {
    if client in v && Stale(v[client], cutoff) {
      forall c | cutoff <= c ensures Since([], c) == Since(v[client], c) {
        SinceNothing(v[client], c);
      }
    }
  }

  /** One client's list after the call, before any sweep. */
  function Updated(c: Settings, v: Seen, call: Call): (times: seq<int>) {
    var kept := Since(TimesOf(v, call.client), call.now - c.window);
    if Admits(c, v, call) then kept + [call.now] else kept
  }

  lemma {:induction false} NextIs(c: Settings, v: Seen, call: Call)
    ensures var v' := v[call.client := Updated(c, v, call)];
            Next(c, v, call) == v' || Next(c, v, call) == Swept(v', call.now - c.window)
  {
    hide Since, Swept;
  }

  lemma {:induction false} UpdatedSorted(c: Settings, v: Seen, now: int, call: Call)
    requires AllSortedUpTo(v, now) && now <= call.now
    ensures AllSortedUpTo(v[call.client := Updated(c, v, call)], call.now)
  {
    hide Admits;
    SinceSorted(TimesOf(v, call.client), call.now - c.window);
    var kept := Since(TimesOf(v, call.client), call.now - c.window);
    forall i | 0 <= i < |kept| ensures kept[i] <= call.now {
      assert kept[i] in kept;
      var times := TimesOf(v, call.client);
      var j :| 0 <= j < |times| && times[j] == kept[i];
      assert SortedUpTo(v[call.client], now);
    }
    assert SortedUpTo(kept, call.now);
    assert SortedUpTo(kept + [call.now], call.now);
    assert forall k :: k in v ==> SortedUpTo(v[k], now);
  }

  lemma {:induction false} StepRemembers(c: Settings, v: Seen, log: seq<Call>, now: int, call: Call)
    requires Remembers(v, log, now, c.window) && now <= call.now
    ensures Remembers(Next(c, v, call), if Admits(c, v, call) then log + [call] else log, call.now, c.window)
  {
    hide Since, Admits, Next, SortedUpTo, AgreesFor;
    var cutoff := call.now - c.window;
    var log' := if Admits(c, v, call) then log + [call] else log;
    var v' := v[call.client := Updated(c, v, call)];
    NextIs(c, v, call);
    UpdatedSorted(c, v, now, call);
    forall client ensures AgreesFor(Next(c, v, call), log', client, cutoff) {
      LaterAgrees(v, log, client, now - c.window, cutoff);
      UpdateAgrees(v, log, call, cutoff, client, Admits(c, v, call));
      if client in v' {
        SortedPart(v'[client], call.now);
      }
      SweepAgrees(v', log', client, cutoff);
    }
  }

  lemma {:induction false} LaterAgrees(v: Seen, log: seq<Call>, client: string, early: int, late: int)
    requires AgreesFor(v, log, client, early) && early <= late
    ensures AgreesFor(v, log, client, late)
  {
  }

  lemma {:induction false} SortedPart(times: seq<int>, now: int)
    requires SortedUpTo(times, now)
    ensures Sorted(times)
  {
  }

  lemma {:induction false} RunRemembers(c: Settings, calls: seq<Call>)
    requires NonDecreasing(calls) && calls != []
    ensures Remembers(After(c, calls), Admitted(c, calls), calls[|calls| - 1].now, c.window)
  {
    hide Remembers, Next, Admits;
    var n := |calls| - 1;
    if n == 0 {
      NothingRemembered(calls[0].now, c.window);
      StepRemembers(c, map[], [], calls[0].now, calls[0]);
      assert calls[..0] == [];
    } else {
      RunRemembers(c, calls[..n]);
      StepRemembers(c, After(c, calls[..n]), Admitted(c, calls[..n]), calls[n - 1].now, calls[n]);
    }
  }

  lemma {:induction false} NothingRemembered(now: int, window: int)
    ensures Remembers(map[], [], now, window)
  {
  }

  lemma {:induction false} AdmitsByCount(c: Settings, calls: seq<Call>)
    requires NonDecreasing(calls) && calls != []
    ensures var n := |calls| - 1;
            Admits(c, After(c, calls[..n]), calls[n]) <==>
              CountIn(Admitted(c, calls[..n]), calls[n].client, calls[n].now - c.window, calls[n].now) < c.limit
  {
    hide Remembers, Next, Admitted, Answers, After, Since;
    var n := |calls| - 1;
    var call := calls[n];
    var log := Admitted(c, calls[..n]);
    if n > 0 {
      RunRemembers(c, calls[..n]);
      SameKept(After(c, calls[..n]), log, calls[n - 1].now, c.window, call);
    } else {
      FirstKept(c, calls);
    }
    forall x | x in log ensures x.now <= call.now {
      assert x in calls[..n];
    }
    CountIsSince(log, call.client, call.now - c.window, call.now);
  }

  lemma {:induction false} FirstKept(c: Settings, calls: seq<Call>)
    requires |calls| == 1
    ensures var call := calls[0];
            && Admitted(c, calls[..0]) == []
            && Since(TimesOf(After(c, calls[..0]), call.client), call.now - c.window)
               == Since(ClientTimes([], call.client), call.now - c.window)
  {
  }

  lemma {:induction false} SameKept(v: Seen, log: seq<Call>, now: int, window: int, call: Call)
    requires Remembers(v, log, now, window) && now <= call.now
    ensures Since(TimesOf(v, call.client), call.now - window) == Since(ClientTimes(log, call.client), call.now - window)
  {
    assert AgreesFor(v, log, call.client, now - window);
  }

  /** EXACT SLIDING LOG: an attempt is allowed if and only if fewer than
      `limit` admissions of that client lie in (now - window, now]. */
  lemma {:induction false} AllowsExactly(c: Settings, calls: seq<Call>)
    requires NonDecreasing(calls) && calls != []
    ensures var n := |calls| - 1;
            Answers(c, calls)[n] <==>
              CountIn(Admitted(c, calls[..n]), calls[n].client, calls[n].now - c.window, calls[n].now) < c.limit
  {
    hide Admits, After, Admitted, CountIn;
    AdmitsByCount(c, calls);
  }

  lemma {:induction false} CountNarrow(log: seq<Call>, client: string, after: int, after': int, upTo: int, upTo': int)
    requires after' <= after
    requires forall x :: x in log ==> x.now <= upTo'
    ensures CountIn(log, client, after, upTo) <= CountIn(log, client, after', upTo')
  {
    if log != [] {
      CountNarrow(log[..|log| - 1], client, after, after', upTo, upTo');
    }
  }

  /** SAFETY: no interval of the window's length ever holds more than `limit`
      admissions of one client. */
  lemma {:induction false} NeverMoreThanLimit(c: Settings, calls: seq<Call>, client: string, u: int)
    requires NonDecreasing(calls) && 0 <= c.limit
    ensures CountIn(Admitted(c, calls), client, u - c.window, u) <= c.limit
  {
    hide Answers, Admits, After, CountIn;
    if calls == [] {
      EmptyInterval([], client, u - c.window, u);
    } else {
      var n := |calls| - 1;
      var call, log := calls[n], Admitted(c, calls[..n]);
      NeverMoreThanLimit(c, calls[..n], client, u);
      CountAppend(log, call, client, u - c.window, u);
      if Answers(c, calls)[n] && call.client == client && u - c.window < call.now <= u {
        AllowsExactly(c, calls);
        forall x | x in log ensures x.now <= call.now {
          assert x in calls[..n];
        }
        CountNarrow(log, client, u - c.window, call.now - c.window, u, call.now);
      }
    }
  }

  /** The sweep is unobservable: answers do not depend on when it runs. */
  lemma {:induction false} SweepNeverMatters(limit: int, window: int, above: nat, above': nat, calls: seq<Call>)
    requires NonDecreasing(calls)
    ensures Answers(Settings(limit, window, above), calls) == Answers(Settings(limit, window, above'), calls)
    ensures Admitted(Settings(limit, window, above), calls) == Admitted(Settings(limit, window, above'), calls)
  {
    hide Admits, Next, After;
    if calls != [] {
      var c, c' := Settings(limit, window, above), Settings(limit, window, above');
      SweepNeverMatters(limit, window, above, above', calls[..|calls| - 1]);
      AllowsExactly(c, calls);
      AllowsExactly(c', calls);
      assert Answers(c, calls)[..|calls| - 1] == Answers(c, calls[..|calls| - 1]);
      assert Answers(c', calls)[..|calls| - 1] == Answers(c', calls[..|calls| - 1]);
    }
  }

  // ---- times that reach the lock out of order

  /** No call's time is more than `late` behind one that took the lock before. */
  ghost predicate AtMostLate(calls: seq<Call>, late: int) {
    forall i, j :: 0 <= i <= j < |calls| ==> calls[i].now - late <= calls[j].now
  }

  /** A client's admissions in the window's length that ends at `u`. */
  function EndingAt(c: Settings, calls: seq<Call>, client: string, u: int): (count: nat) {
    CountIn(Admitted(c, calls), client, u - c.window, u)
  }

  /** With calls at most so late, the limit still holds in every interval. */
  ghost predicate LatenessIsSafe(c: Settings, late: int) {
    forall calls, client, u :: AtMostLate(calls, late) ==> EndingAt(c, calls, client, u) <= c.limit
  }

  function Zeros(n: nat): (times: seq<int>)
    ensures |times| == n
  {
    if n == 0 then [] else Zeros(n - 1) + [0]
  }

  lemma {:induction false} ZerosSince(n: nat, cutoff: int)
    ensures Since(Zeros(n), cutoff) == if cutoff < 0 then Zeros(n) else []
  {
    if n > 0 {
      ZerosSince(n - 1, cutoff);
      SinceAppend(Zeros(n - 1), 0, cutoff);
    }
  }

  /** That many attempts at once. */
  function Burst(n: nat): (calls: seq<Call>)
    ensures |calls| == n && forall x :: x in calls ==> x == Call("a", 0)
  {
    if n == 0 then [] else Burst(n - 1) + [Call("a", 0)]
  }

  lemma {:induction false} OneMoreCall(c: Settings, calls: seq<Call>, call: Call)
    ensures After(c, calls + [call]) == Next(c, After(c, calls), call)
    ensures Admitted(c, calls + [call])
         == if Admits(c, After(c, calls), call) then Admitted(c, calls) + [call] else Admitted(c, calls)
  {
    hide Next, Admits;
    assert (calls + [call])[..|calls|] == calls;
  }

  /** One client's fresh time is never swept. */
  lemma {:induction false} LoneAdmission(c: Settings, v: Seen, times: seq<int>, now: int)
    requires 1 <= c.window && v.Keys <= {"a"} && TimesOf(v, "a") == times
    requires |Since(times, now - c.window)| < c.limit
    ensures Admits(c, v, Call("a", now))
    ensures Next(c, v, Call("a", now)) == map["a" := Since(times, now - c.window) + [now]]
  {
    hide Since;
    var kept := Since(times, now - c.window);
    assert v["a" := kept + [now]] == map["a" := kept + [now]];
  }

  lemma {:induction false} BurstFits(c: Settings, n: nat)
    requires 1 <= c.window && n <= c.limit
    ensures Admitted(c, Burst(n)) == Burst(n)
    ensures After(c, Burst(n)).Keys <= {"a"} && TimesOf(After(c, Burst(n)), "a") == Zeros(n)
  {
    hide Since, Next, Admits, After, Admitted;
    if n == 0 {
      NoCalls(c);
    } else {
      BurstFits(c, n - 1);
      OneMoreCall(c, Burst(n - 1), Call("a", 0));
      ZerosSince(n - 1, -c.window);
      LoneAdmission(c, After(c, Burst(n - 1)), Zeros(n - 1), 0);
    }
  }

  lemma {:induction false} NoCalls(c: Settings)
    ensures After(c, []) == map[] && Admitted(c, []) == []
  {
  }

  lemma {:induction false} CountAppend(log: seq<Call>, x: Call, client: string, after: int, upTo: int)
    ensures CountIn(log + [x], client, after, upTo)
         == CountIn(log, client, after, upTo) + if x.client == client && after < x.now <= upTo then 1 else 0
  {
    assert (log + [x])[..|log|] == log;
  }

  lemma {:induction false} BurstCount(n: nat, upTo: int)
    requires 0 <= upTo
    ensures CountIn(Burst(n), "a", -1, upTo) == n
  {
    if n > 0 {
      BurstCount(n - 1, upTo);
      CountAppend(Burst(n - 1), Call("a", 0), "a", -1, upTo);
    }
  }

  /** A full burst, the first attempt that finds it outside its own window, and
      one that is one unit late. */
  function LateCall(c: Settings): (calls: seq<Call>)
    requires 0 <= c.limit
  {
    Burst(c.limit) + [Call("a", c.window)] + [Call("a", c.window - 1)]
  }

  lemma {:induction false} LateCallIsLate(c: Settings, late: int)
    requires 0 <= c.limit && 1 <= c.window && 1 <= late
    ensures AtMostLate(LateCall(c), late)
  {
    var burst, calls := Burst(c.limit), LateCall(c);
    forall i, j | 0 <= i <= j < |calls| ensures calls[i].now - late <= calls[j].now {
      assert i < c.limit ==> calls[i] == burst[i] && burst[i] in burst;
      assert j < c.limit ==> calls[j] == burst[j] && burst[j] in burst;
    }
  }

  lemma {:induction false} LateCallOverAdmits(c: Settings)
    requires 2 <= c.limit && 1 <= c.window
    ensures EndingAt(c, LateCall(c), "a", c.window - 1) == c.limit + 1
  {
    hide Since, Next, Admits, After, Admitted, Burst, TimesOf;
    var burst, next, late := Burst(c.limit), Call("a", c.window), Call("a", c.window - 1);
    BurstFits(c, c.limit);
    OneMoreCall(c, burst, next);
    OneMoreCall(c, burst + [next], late);
    ZerosSince(c.limit, 0);
    LoneAdmission(c, After(c, burst), Zeros(c.limit), c.window);
    assert c.window - c.window == 0 && [] + [c.window] == [c.window];
    assert After(c, burst + [next]) == map["a" := [c.window]];
    assert TimesOf(map["a" := [c.window]], "a") == [c.window] by { Lone([c.window]); }
    assert |Since([c.window], -1)| <= 1;
    LoneAdmission(c, map["a" := [c.window]], [c.window], c.window - 1);
    BurstCount(c.limit, c.window - 1);
    CountAppend(burst, next, "a", -1, c.window - 1);
    CountAppend(burst + [next], late, "a", -1, c.window - 1);
  }

  lemma {:induction false} Lone(times: seq<int>)
    ensures TimesOf(map["a" := times], "a") == times
  {
  }

  // ---- a limit of one tolerates one unit of lateness, and no more

  /** Times in order, each at least a window after the one before. */
  ghost predicate Apart(times: seq<int>, window: int) {
    forall i, j :: 0 <= i < j < |times| ==> times[i] + window <= times[j]
  }

  ghost predicate ReachedBy(calls: seq<Call>, t: int) {
    exists i :: 0 <= i < |calls| && t <= calls[i].now
  }

  /** A client's admissions are apart, and the last of them is remembered unless
      some call has been late enough for a sweep to drop it. */
  ghost predicate HoldsLast(times: seq<int>, kept: seq<int>, calls: seq<Call>, window: int) {
    && Apart(times, window)
    && (times == [] ==> kept == [])
    && (times != [] ==>
          kept == [times[|times| - 1]] || (kept == [] && ReachedBy(calls, times[|times| - 1] + window + 1)))
  }

  lemma {:induction false} SinceOfOne(t: int, cutoff: int)
    ensures Since([t], cutoff) == if cutoff < t then [t] else []
    ensures Since([], cutoff) == []
  {
    assert [] + [t] == [t];
    SinceAppend([], t, cutoff);
  }

  lemma {:induction false} OneMoreTime(log: seq<Call>, call: Call, client: string)
    ensures ClientTimes(log + [call], client)
         == ClientTimes(log, client) + if call.client == client then [call.now] else []
  {
    assert (log + [call])[..|log|] == log;
  }

  lemma {:induction false} StillReached(calls: seq<Call>, call: Call, t: int)
    ensures ReachedBy(calls + [call], t) <==> ReachedBy(calls, t) || t <= call.now
  {
    assert (calls + [call])[|calls|] == call;
    assert forall i :: 0 <= i < |calls| ==> (calls + [call])[i] == calls[i];
  }

  /** What a call leaves of any client's list. */
  lemma {:induction false} NextTimes(c: Settings, v: Seen, call: Call, client: string)
    requires 1 <= c.window
    ensures var after := TimesOf(Next(c, v, call), client);
            && (client == call.client ==> after == Updated(c, v, call))
            && (client != call.client ==>
                  after == TimesOf(v, client) || (after == [] && Stale(TimesOf(v, client), call.now - c.window)))
  {
    hide Since;
  }

  /** One call, seen from one client. */
  lemma {:induction false} HoldsLastStep(
    c: Settings, times: seq<int>, kept: seq<int>, before: seq<Call>, call: Call, own: bool, after: seq<int>)
    requires 1 <= c.window && HoldsLast(times, kept, before, c.window)
    requires forall i :: 0 <= i < |before| ==> before[i].now - 1 <= call.now
    requires own ==> after == if Since(kept, call.now - c.window) == [] then [call.now]
                              else Since(kept, call.now - c.window)
    requires !own ==> after == kept || (after == [] && Stale(kept, call.now - c.window))
    ensures var admitted := own && Since(kept, call.now - c.window) == [];
            HoldsLast(if admitted then times + [call.now] else times, after, before + [call], c.window)
  {
    hide Since;
    var last := if times == [] then 0 else times[|times| - 1];
    SinceOfOne(last, call.now - c.window);
    StillReached(before, call, last + c.window + 1);
    if own && Since(kept, call.now - c.window) == [] {
      assert times != [] ==> last + c.window <= call.now;
      assert Apart(times + [call.now], c.window);
    }
  }

  lemma {:induction false} RunHoldsLast(c: Settings, calls: seq<Call>, client: string)
    requires c.limit == 1 && 1 <= c.window && AtMostLate(calls, 1)
    ensures HoldsLast(ClientTimes(Admitted(c, calls), client), TimesOf(After(c, calls), client), calls, c.window)
  {
    hide HoldsLast, Next, After, Admitted, Since, ClientTimes, TimesOf;
    if calls == [] {
      NoCalls(c);
      NothingHeld(client, c.window);
    } else {
      var n := |calls| - 1;
      var init, call := calls[..n], calls[n];
      assert calls == init + [call];
      RunHoldsLast(c, init, client);
      OneMoreCall(c, init, call);
      var v, log := After(c, init), Admitted(c, init);
      OneMoreTime(log, call, client);
      NextTimes(c, v, call, client);
      assert ClientTimes(log, client) + [] == ClientTimes(log, client) && [] + [call.now] == [call.now];
      HoldsLastStep(c, ClientTimes(log, client), TimesOf(v, client), init, call, client == call.client,
                    TimesOf(Next(c, v, call), client));
    }
  }

  lemma {:induction false} NothingHeld(client: string, window: int)
    ensures HoldsLast(ClientTimes([], client), TimesOf(map[], client), [], window)
  {
  }

  /** At most one of several times that are apart lies in one window's length. */
  lemma {:induction false} ApartCount(log: seq<Call>, client: string, window: int, u: int)
    requires Apart(ClientTimes(log, client), window)
    ensures CountIn(log, client, u - window, u) <= 1
    ensures CountIn(log, client, u - window, u) == 1 ==>
              exists t :: t in ClientTimes(log, client) && u - window < t <= u
  {
    if log != [] {
      var x := log[|log| - 1];
      var init := log[..|log| - 1];
      assert log == init + [x];
      var times := ClientTimes(init, client);
      OneMoreTime(init, x, client);
      assert forall i :: 0 <= i < |times| ==> ClientTimes(log, client)[i] == times[i];
      ApartCount(init, client, window, u);
      if CountIn(init, client, u - window, u) == 1 {
        var t :| t in times && u - window < t <= u;
        var i :| 0 <= i < |times| && times[i] == t;
        assert t in ClientTimes(log, client);
        assert x.client == client ==> t + window <= ClientTimes(log, client)[|times|];
      } else if x.client == client {
        assert x.now in ClientTimes(log, client);
      }
    }
  }

  /** The i-th client that is not "a". */
  function Name(i: nat): (name: string)
    ensures |name| == i + 2
  {
    seq(i + 2, j => 'b')
  }

  /** That many other clients at one instant. */
  function Crowd(n: nat, now: int): (calls: seq<Call>)
    ensures |calls| == n && forall x :: x in calls ==> x.now == now && x.client != "a"
  {
    if n == 0 then [] else Crowd(n - 1, now) + [Call(Name(n - 1), now)]
  }

  function Names(n: nat): (names: set<string>)
    ensures |names| == n && forall s :: s in names ==> |s| <= n + 1
  {
    if n == 0 then {} else Names(n - 1) + {Name(n - 1)}
  }

  /** One client at 0, enough others to start a sweep just when that is stale, and
      the first client again, two units late. */
  function TwoLate(c: Settings): (calls: seq<Call>) {
    [Call("a", 0)] + Crowd(c.sweepAbove + 1, c.window + 1) + [Call("a", c.window - 1)]
  }

  /** What the crowd leaves: all of it, and the first client unless swept. */
  lemma {:induction false} CrowdFits(c: Settings, n: nat)
    requires 1 <= c.limit && 1 <= c.window
    ensures var v := After(c, [Call("a", 0)] + Crowd(n, c.window + 1));
            Crowded(v, n, c.window + 1) && (c.sweepAbove < n ==> TimesOf(v, "a") == [])
    ensures Admitted(c, [Call("a", 0)] + Crowd(n, c.window + 1)) == [Call("a", 0)] + Crowd(n, c.window + 1)
  {
    hide Since, Next, Admits, After, Admitted, Crowded;
    var first := Call("a", 0);
    if n == 0 {
      FirstOfTwo(c);
      assert [first] + Crowd(0, c.window + 1) == [first];
    } else {
      var before := [first] + Crowd(n - 1, c.window + 1);
      var call := Call(Name(n - 1), c.window + 1);
      CrowdFits(c, n - 1);
      OneMoreCall(c, before, call);
      assert before + [call] == [first] + Crowd(n, c.window + 1);
      CrowdStep(c, After(c, before), n);
    }
  }

  lemma {:induction false} FirstOfTwo(c: Settings)
    requires 1 <= c.limit && 1 <= c.window
    ensures Crowded(After(c, [Call("a", 0)]), 0, c.window + 1) && Admitted(c, [Call("a", 0)]) == [Call("a", 0)]
  {
    hide Since, Next, Admits, After, Admitted;
    NoCalls(c);
    assert [] + [Call("a", 0)] == [Call("a", 0)];
    OneMoreCall(c, [], Call("a", 0));
    SinceOfOne(0, 0 - c.window);
    LoneAdmission(c, map[], [], 0);
    assert [] + [0] == [0];
  }

  lemma {:induction false} NewClient(c: Settings, v: Seen, call: Call)
    requires 1 <= c.limit && call.client !in v
    ensures Admits(c, v, call)
    ensures var w := v[call.client := [call.now]];
            Next(c, v, call) == if |w| > c.sweepAbove then Swept(w, call.now - c.window) else w
  {
    assert [] + [call.now] == [call.now];
  }

  /** The first n others are remembered at `now`, and the first client perhaps. */
  ghost predicate Crowded(v: Seen, n: nat, now: int) {
    && (forall s :: s in Names(n) ==> s in v && v[s] == [now])
    && (forall s :: s in v ==> |s| <= n + 1)
    && (TimesOf(v, "a") == [] || TimesOf(v, "a") == [0])
  }

  lemma {:induction false} CrowdGrows(v: Seen, n: nat, now: int)
    requires 1 <= n && Crowded(v, n - 1, now)
    ensures Name(n - 1) !in v && Crowded(v[Name(n - 1) := [now]], n, now)
  {
    hide Name;
    var w := v[Name(n - 1) := [now]];
    assert Name(n - 1) !in v && "a" != Name(n - 1);
    assert TimesOf(w, "a") == TimesOf(v, "a");
    forall s | s in Names(n) ensures s in w && w[s] == [now] {
      if s != Name(n - 1) {
        assert s in Names(n - 1);
      }
    }
  }

  lemma {:induction false} CrowdStays(w: Seen, n: nat, now: int)
    requires 1 <= now && Crowded(w, n, now)
    ensures Crowded(Swept(w, 1), n, now) && TimesOf(Swept(w, 1), "a") == []
  {
    hide Names;
  }

  lemma {:induction false} CrowdSize(w: Seen, n: nat, now: int)
    requires Crowded(w, n, now)
    ensures n <= |w|
  {
    hide Names;
    assert Names(n) <= w.Keys;
    Bigger(Names(n), w.Keys);
    assert |w| == |w.Keys|;
  }

  lemma {:induction false} CrowdStep(c: Settings, v: Seen, n: nat)
    requires 1 <= c.limit && 1 <= c.window && 1 <= n && Crowded(v, n - 1, c.window + 1)
    ensures var call := Call(Name(n - 1), c.window + 1);
            var v' := Next(c, v, call);
            Admits(c, v, call) && Crowded(v', n, c.window + 1) && (c.sweepAbove < n ==> TimesOf(v', "a") == [])
  {
    hide Since, Next, Admits, Crowded, Swept, Name, TimesOf;
    CrowdGrows(v, n, c.window + 1);
    NewClient(c, v, Call(Name(n - 1), c.window + 1));
    var w := v[Name(n - 1) := [c.window + 1]];
    CrowdSize(w, n, c.window + 1);
    CrowdStays(w, n, c.window + 1);
    assert c.window + 1 - c.window == 1;
  }

  lemma {:induction false} Bigger(some: set<string>, all: set<string>)
    requires some <= all
    ensures |some| <= |all|
  {
    assert all == some + (all - some);
  }

  lemma {:induction false} TwoLateOverAdmits(c: Settings)
    requires c.limit == 1 && 1 <= c.window
    ensures EndingAt(c, TwoLate(c), "a", c.window - 1) == 2
  {
    hide Since, Next, Admits, After, Admitted, TimesOf, Crowd, Crowded, CountIn;
    var first, late := Call("a", 0), Call("a", c.window - 1);
    var before := [first] + Crowd(c.sweepAbove + 1, c.window + 1);
    CrowdFits(c, c.sweepAbove + 1);
    OneMoreCall(c, before, late);
    EmptyAdmits(c, After(c, before), late);
    CrowdCount(c.sweepAbove + 1, c.window + 1, c.window - 1);
    CountAppend(before, late, "a", -1, c.window - 1);
  }

  lemma {:induction false} TwoLateIsLate(c: Settings)
    requires 1 <= c.window
    ensures AtMostLate(TwoLate(c), 2)
  {
    hide Crowd;
    var crowd, calls := Crowd(c.sweepAbove + 1, c.window + 1), TwoLate(c);
    assert calls[0].now == 0 && calls[|calls| - 1].now == c.window - 1;
    forall i | 0 < i < |calls| - 1 ensures calls[i].now == c.window + 1 {
      assert calls[i] == crowd[i - 1] && crowd[i - 1] in crowd;
    }
  }

  lemma {:induction false} EmptyAdmits(c: Settings, v: Seen, call: Call)
    requires 1 <= c.limit && TimesOf(v, call.client) == []
    ensures Admits(c, v, call)
  {
  }

  lemma {:induction false} CrowdCount(n: nat, now: int, upTo: int)
    requires 0 <= upTo
    ensures CountIn([Call("a", 0)] + Crowd(n, now), "a", -1, upTo) == 1
  {
    hide CountIn, Name;
    var first := Call("a", 0);
    if n == 0 {
      assert [first] + Crowd(0, now) == [] + [first];
      CountAppend([], first, "a", -1, upTo);
      EmptyInterval([], "a", -1, upTo);
    } else {
      var last := Call(Name(n - 1), now);
      assert [first] + Crowd(n, now) == ([first] + Crowd(n - 1, now)) + [last];
      assert last in Crowd(n, now);
      CrowdCount(n - 1, now, upTo);
      CountAppend([first] + Crowd(n - 1, now), last, "a", -1, upTo);
    }
  }

  // ---- how late a call may be

  lemma {:induction false} MoreLate(calls: seq<Call>, late: int, more: int)
    requires AtMostLate(calls, late) && late <= more
    ensures AtMostLate(calls, more)
  {
  }

  lemma {:induction false} InOrder(calls: seq<Call>, late: int)
    requires AtMostLate(calls, late) && late <= 0
    ensures NonDecreasing(calls)
  {
  }

  lemma {:induction false} NothingEverAdmitted(c: Settings, calls: seq<Call>)
    requires c.limit <= 0
    ensures Admitted(c, calls) == []
  {
    hide After;
    if calls != [] {
      NothingEverAdmitted(c, calls[..|calls| - 1]);
    }
  }

  lemma {:induction false} EmptyInterval(log: seq<Call>, client: string, after: int, upTo: int)
    requires upTo <= after || log == []
    ensures CountIn(log, client, after, upTo) == 0
  {
    if log != [] {
      EmptyInterval(log[..|log| - 1], client, after, upTo);
    }
  }

  lemma {:induction false} LateEnough(c: Settings, calls: seq<Call>, late: int, client: string, u: int)
    requires 0 <= c.limit && AtMostLate(calls, late)
    requires late <= 0 || c.limit == 0 || c.window <= 0 || (c.limit == 1 && late == 1)
    ensures EndingAt(c, calls, client, u) <= c.limit
  {
    hide Admitted, After, CountIn, ClientTimes, AtMostLate;
    if late <= 0 {
      InOrder(calls, late);
      NeverMoreThanLimit(c, calls, client, u);
    } else if c.limit == 0 {
      NothingEverAdmitted(c, calls);
      EmptyInterval([], client, u - c.window, u);
    } else if c.window <= 0 {
      EmptyInterval(Admitted(c, calls), client, u - c.window, u);
    } else {
      MoreLate(calls, late, 1);
      RunHoldsLast(c, calls, client);
      ApartCount(Admitted(c, calls), client, c.window, u);
    }
  }

  /** EXACT LATENESS, for every limit, window and sweep: the limit holds in every
      interval of every run if and only if times reach the lock in order, or one
      unit late under a limit of one. */
  lemma {:induction false} SafeLateness(c: Settings, late: int)
    requires 0 <= c.limit
    ensures LatenessIsSafe(c, late)
       <==> late <= 0 || c.limit == 0 || c.window <= 0 || (c.limit == 1 && late == 1)
  {
    hide EndingAt, LateCall, TwoLate, AtMostLate;
    if late <= 0 || c.limit == 0 || c.window <= 0 || (c.limit == 1 && late == 1) {
      forall calls, client, u | AtMostLate(calls, late) ensures EndingAt(c, calls, client, u) <= c.limit {
        LateEnough(c, calls, late, client, u);
      }
    } else if c.limit == 1 {
      TwoLateOverAdmits(c);
      TwoLateIsLate(c);
      MoreLate(TwoLate(c), 2, late);
    } else {
      LateCallOverAdmits(c);
      LateCallIsLate(c, late);
    }
  }
}
