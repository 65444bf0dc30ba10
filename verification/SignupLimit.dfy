/** The signup limiter as it runs: slices over shared backing arrays, compacted
    in place, in a map that is swept when it grows. */
module SignupLimit {
  import opened SignupLog

  const SWEEP_ABOVE: nat := 10_000

  /** A slice: a backing array and the length in use. */
  datatype Slice = Slice(data: array<int>, len: nat)

  /** Filters the slice into its own backing array; the write position never
      overtakes the read position. */
  method Compact(data: array<int>, len: nat, cutoff: int) returns (kept: nat)
    requires len <= data.Length
    modifies data
    ensures kept <= len && data[..kept] == Since(old(data[..len]), cutoff)
  {
    ghost var times := data[..len];
    kept := 0;
    for i := 0 to len
      invariant kept <= i
      invariant data[..kept] == Since(times[..i], cutoff)
      invariant forall j :: i <= j < len ==> data[j] == times[j]
    {
      var t := data[i];
      assert t == times[i];
      assert times[..i + 1] == times[..i] + [t];
      SinceAppend(times[..i], t, cutoff);
      if cutoff < t {
        data[kept] := t;
        kept := kept + 1;
      }
    }
    assert times[..len] == times;
  }

  /** append: in place while there is capacity, otherwise into a larger copy. */
  method Append(data: array<int>, len: nat, t: int) returns (s: Slice)
    requires len <= data.Length
    modifies data
    ensures s.len == len + 1 <= s.data.Length
    ensures s.data == data || fresh(s.data)
    ensures s.data[..s.len] == old(data[..len]) + [t]
  {
    if len < data.Length {
      data[len] := t;
      return Slice(data, len + 1);
    }
    var larger := new int[2 * data.Length + 1];
    for i := 0 to len
      invariant larger[..i] == old(data[..len])[..i]
      invariant data[..] == old(data[..])
    {
      larger[i] := data[i];
    }
    larger[len] := t;
    return Slice(larger, len + 1);
  }

  class SignupLimiter {
    var seen: map<string, Slice>
    const limit: int
    const window: int
    /** The remembered times as values. */
    ghost var view: Seen
    /** Every call made so far, and those that were allowed. */
    ghost var history: seq<Call>
    ghost var granted: seq<Call>

    ghost function Arrays(): (arrays: set<array<int>>)
      reads this
    {
      set k | k in seen :: seen[k].data
    }

    /** Slices are within capacity, no two clients share a backing array, and
        each slice holds the client's remembered times. */
    ghost predicate Represented()
      reads this, Arrays()
    {
      && seen.Keys == view.Keys
      && (forall k :: k in seen ==> seen[k].len <= seen[k].data.Length && seen[k].data[..seen[k].len] == view[k])
      && (forall k, j :: k in seen && j in seen && k != j ==> seen[k].data != seen[j].data)
    }

    ghost function Config(): (c: Settings) {
      Settings(limit, window, SWEEP_ABOVE)
    }

    /** What is remembered is what the whole history leaves. */
    ghost predicate Valid()
      reads this, Arrays()
    {
      && Represented()
      && view == SignupLog.After(Config(), history) && granted == Admitted(Config(), history)
    }

    constructor (limit: int, window: int)
      ensures Valid() && history == [] && granted == [] && this.limit == limit && this.window == window
    {
      seen, view, history, granted := map[], map[], [], [];
      this.limit, this.window := limit, window;
    }

    /** Every other client's slice is as `view` says, and none of them shares
        `data`, which may be rewritten for `client`. */
    ghost predicate OthersIntact(client: string, data: array<int>)
      reads this, Arrays()
    {
      && seen.Keys == view.Keys
      && (forall k :: k in seen && k != client ==>
            && seen[k].len <= seen[k].data.Length && seen[k].data[..seen[k].len] == view[k]
            && seen[k].data != data)
      && (forall k, j :: k in seen && j in seen && k != j ==> seen[k].data != seen[j].data)
    }

    /** As long as the clock never ran backwards, allowed exactly while fewer
        than `limit` of this client's admissions lie in the window. */
    method Allow(client: string, now: int) returns (ok: bool)
      requires Valid()
      modifies this, Arrays()
      ensures Valid() && fresh(Arrays() - old(Arrays()))
      ensures history == old(history) + [Call(client, now)]
      ensures granted == old(granted) + if ok then [Call(client, now)] else []
      ensures SignupLog.NonDecreasing(history) ==> (ok <==> CountIn(old(granted), client, now - window, now) < limit)
      ensures ok && 10_000 < |view| ==> forall k :: k in view ==> RecentEnough(view[k], now - window)
      ensures client in view ==> forall t :: t in view[client] ==> now - window < t || t == now
      ensures ok == Admits(Config(), old(view), Call(client, now))
      ensures view == SignupLog.Next(Config(), old(view), Call(client, now))
    {
      hide Since, Represented, SignupLog.After, SignupLog.NonDecreasing, SignupLog.Next, Admits, CountIn, Admitted;
      OneMoreInHistory(Config(), history, Call(client, now));
      OnlyRecentWhenMany(Config(), view, Call(client, now));
      OwnTimesRecent(Config(), view, Call(client, now));
      ok := Decide(client, now);
      Record(Call(client, now), ok);
    }

    method Decide(client: string, now: int) returns (ok: bool)
      requires Represented()
      modifies this`seen, this`view, Arrays()
      ensures Represented() && fresh(Arrays() - old(Arrays()))
      ensures ok == Admits(Config(), old(view), Call(client, now))
      ensures view == SignupLog.Next(Config(), old(view), Call(client, now))
    {
      hide Since, Swept, Represented, OthersIntact, TimesOf;
      var cutoff := now - window;
      var kept := CompactClient(client, cutoff);
      if kept.len >= limit {
        Remember(client, kept);
        return false;
      }
      var extended := Extend(client, kept, now);
      Remember(client, extended);
      assert |seen| == |view| by { SameSize(); }
      if |seen| > SWEEP_ABOVE {
        Sweep(cutoff);
      }
      return true;
    }

    ghost method Record(call: Call, ok: bool)
      requires Represented()
      modifies this`history, this`granted
      ensures Represented() && history == old(history) + [call]
      ensures granted == old(granted) + if ok then [call] else []
    {
      history := history + [call];
      granted := granted + if ok then [call] else [];
    }

    lemma {:induction false} SameSize()
      requires Represented()
      ensures |seen| == |view|
    {
      assert |seen| == |seen.Keys| && |view| == |view.Keys|;
    }

    /** Drops the client's expired times in place; the map still holds the old
        header until `Remember`. */
    method CompactClient(client: string, cutoff: int) returns (kept: Slice)
      requires Represented()
      modifies Arrays()
      ensures OthersIntact(client, kept.data) && (kept.data in Arrays() || fresh(kept.data))
      ensures kept.len <= kept.data.Length && kept.data[..kept.len] == Since(TimesOf(view, client), cutoff)
    {
      hide Since;
      var slice := Lookup(client);
      var n := Compact(slice.data, slice.len, cutoff);
      kept := Slice(slice.data, n);
    }

    /** append(kept, now) for a client whose array is already its own. */
    method Extend(client: string, kept: Slice, now: int) returns (extended: Slice)
      requires OthersIntact(client, kept.data) && kept.len <= kept.data.Length
      modifies kept.data
      ensures OthersIntact(client, extended.data) && (extended.data == kept.data || fresh(extended.data))
      ensures extended.len <= extended.data.Length
      ensures extended.data[..extended.len] == old(kept.data[..kept.len]) + [now]
    {
      extended := Append(kept.data, kept.len, now);
    }

    /** seen[client], or a fresh empty slice for a client not seen before. */
    method Lookup(client: string) returns (slice: Slice)
      requires Represented()
      ensures slice.len <= slice.data.Length
      ensures slice.data[..slice.len] == TimesOf(view, client)
      ensures if client in seen then slice == seen[client] else fresh(slice.data)
    {
      if client in seen {
        slice := seen[client];
      } else {
        var empty := new int[0];
        slice := Slice(empty, 0);
      }
    }

    /** seen[client] = slice, where only that client's array has been written. */
    method Remember(client: string, slice: Slice)
      requires slice.len <= slice.data.Length && OthersIntact(client, slice.data)
      modifies this`seen, this`view
      ensures Represented() && Arrays() <= old(Arrays()) + {slice.data}
      ensures view == old(view)[client := slice.data[..slice.len]]
    {
      seen := seen[client := slice];
      view := view[client := slice.data[..slice.len]];
    }

    /** delete(seen, k) */
    method Forget(k: string)
      requires Represented()
      modifies this`seen, this`view
      ensures Represented() && Arrays() <= old(Arrays())
      ensures view == map j | j in old(view) && j != k :: old(view)[j]
    {
      seen := map j | j in seen && j != k :: seen[j];
      view := map j | j in view && j != k :: view[j];
    }

    lemma {:induction false} LastOf(k: string, cutoff: int)
      requires Represented() && k in seen
      ensures seen[k].len <= seen[k].data.Length
      ensures Stale(view[k], cutoff) <==> seen[k].len == 0 || seen[k].data[seen[k].len - 1] < cutoff
    {
      assert seen[k].data[..seen[k].len] == view[k];
    }

    /** Forgets every client whose last remembered time is before the cutoff. */
    method Sweep(cutoff: int)
      requires Represented()
      modifies this`seen, this`view
      ensures Represented() && Arrays() <= old(Arrays())
      ensures view == Swept(old(view), cutoff)
    {
      hide Stale, Represented, Swept, Sweeping;
      ghost var before := view;
      var todo := seen.Keys;
      SameKeys();
      SweepStarts(before, cutoff);
      while todo != {}
        invariant Represented() && Arrays() <= old(Arrays())
        invariant todo <= seen.Keys
        invariant view == Sweeping(before, todo, cutoff)
        decreases todo
      {
        var k :| k in todo;
        SameKeys();
        LastOf(k, cutoff);
        SweepSteps(before, todo, k, cutoff);
        todo := todo - {k};
        var v := seen[k];
        if v.len == 0 || v.data[v.len - 1] < cutoff {
          Forget(k);
          SameKeys();
        }
      }
    }

    lemma {:induction false} SameKeys()
      requires Represented()
      ensures seen.Keys == view.Keys
    {
    }
  }

  lemma {:induction false} OneMoreInHistory(c: Settings, calls: seq<Call>, call: Call)
    ensures SignupLog.After(c, calls + [call]) == SignupLog.Next(c, SignupLog.After(c, calls), call)
    ensures Admitted(c, calls + [call])
         == Admitted(c, calls) + if Admits(c, SignupLog.After(c, calls), call) then [call] else []
    ensures SignupLog.NonDecreasing(calls + [call]) ==>
              (Admits(c, SignupLog.After(c, calls), call) <==>
                 CountIn(Admitted(c, calls), call.client, call.now - c.window, call.now) < c.limit)
  {
    hide SignupLog.Next, Admits, Admitted, SignupLog.NonDecreasing, CountIn;
    assert (calls + [call])[..|calls|] == calls;
    OneMoreCall(c, calls, call);
    assert Admitted(c, calls) + [] == Admitted(c, calls);
    if SignupLog.NonDecreasing(calls + [call]) {
      AdmitsByCount(c, calls + [call]);
    }
  }

  /** Something is remembered from the cutoff on. */
  predicate RecentEnough(times: seq<int>, cutoff: int) {
    times != [] && cutoff <= times[|times| - 1]
  }

  /** What is left of the caller's own times is inside the window. */
  lemma {:induction false} OwnTimesRecent(c: Settings, v: Seen, call: Call)
    ensures var v' := SignupLog.Next(c, v, call);
            call.client in v' ==> forall t :: t in v'[call.client] ==> call.now - c.window < t || t == call.now
  {
    hide Since, SignupLog.Next, Admits;
    NextIs(c, v, call);
    var w := v[call.client := Updated(c, v, call)];
    assert call.client in SignupLog.Next(c, v, call) ==> SignupLog.Next(c, v, call)[call.client] == w[call.client];
  }

  /** More clients than the threshold are remembered only while every one of them
      is recent. */
  lemma {:induction false} OnlyRecentWhenMany(c: Settings, v: Seen, call: Call)
    ensures var v' := SignupLog.Next(c, v, call);
            Admits(c, v, call) && c.sweepAbove < |v'| ==>
              forall k :: k in v' ==> RecentEnough(v'[k], call.now - c.window)
  {
    hide Since, Admits, TimesOf;
    var cutoff := call.now - c.window;
    var w := v[call.client := Since(TimesOf(v, call.client), cutoff) + [call.now]];
    if Admits(c, v, call) && c.sweepAbove < |SignupLog.Next(c, v, call)| {
      assert SignupLog.Next(c, v, call) == Swept(w, cutoff);
    }
  }

  /** What is left when only the clients outside `todo` have been examined. */
  ghost function Sweeping(v: Seen, todo: set<string>, cutoff: int): (left: Seen) {
    map k | k in v && (k in todo || !Stale(v[k], cutoff)) :: v[k]
  }

  lemma {:induction false} SweepStarts(v: Seen, cutoff: int)
    ensures Sweeping(v, v.Keys, cutoff) == v && Sweeping(v, {}, cutoff) == Swept(v, cutoff)
  {
  }

  lemma {:induction false} SweepSteps(v: Seen, todo: set<string>, k: string, cutoff: int)
    requires k in todo && k in Sweeping(v, todo, cutoff)
    ensures var w := Sweeping(v, todo, cutoff);
            Sweeping(v, todo - {k}, cutoff)
              == if Stale(w[k], cutoff) then map j | j in w && j != k :: w[j] else w
  {
  }
}
