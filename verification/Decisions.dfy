/** What both limiter scripts take and return. */
module Decisions {

  /** The Go side replaces every cost below one by one before a script runs. */
  type Cost = c: int | 1 <= c witness 1

  /** One check as a script sees it: `read` is the caller's clock reading (in
      the unit that script uses), `at` is the store's own clock in milliseconds
      when the script runs. */
  datatype Check = Check(read: int, at: int, cost: Cost)

  /** The four numbers a script returns. */
  datatype Reply = Reply(allowed: bool, remaining: int, resetAt: int, retryAfter: int)

  ghost predicate NonDecreasing(checks: seq<Check>) {
    forall i, j :: 0 <= i <= j < |checks| ==> checks[i].read <= checks[j].read
  }

  /** From `x` to `y` the store measures at most `slack` milliseconds more than
      the readings do, a reading counting `unit` milliseconds. */
  ghost predicate SkewBetween(x: Check, y: Check, unit: int, slack: int) {
    (y.at - x.at) - unit * (y.read - x.read) <= slack
  }

  ghost predicate SkewAtMost(checks: seq<Check>, unit: int, slack: int) {
    forall i, j :: 0 <= i < j < |checks| ==> SkewBetween(checks[i], checks[j], unit, slack)
  }

  /** The elements of `xs` whose mask entry is true, in order. */
  function Keep<T>(xs: seq<T>, mask: seq<bool>): (kept: seq<T>)
    requires |xs| == |mask|
    ensures forall x :: x in kept ==> x in xs
  {
    if xs == [] then []
    else
      var rest := Keep(xs[..|xs| - 1], mask[..|xs| - 1]);
      if mask[|xs| - 1] then rest + [xs[|xs| - 1]] else rest
  }

  /** The mask leaves out denied checks only. */
  ghost predicate OnlyDeniedDropped(replies: seq<Reply>, mask: seq<bool>)
    requires |replies| == |mask|
  {
    forall i :: 0 <= i < |mask| && !mask[i] ==> !replies[i].allowed
  }
}
