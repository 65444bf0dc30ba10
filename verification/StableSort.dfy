/** What a stable descending sort promises, without saying how it sorts. */
module StableSort {
  import opened Text

  function Filter<T(!new)>(xs: seq<T>, p: T -> bool): (ys: seq<T>)
    ensures forall y :: y in ys <==> y in xs && p(y)
  {
    if xs == [] then []
    else
      var rest := Filter(xs[..|xs| - 1], p);
      var x := xs[|xs| - 1];
      assert xs == xs[..|xs| - 1] + [x];
      if p(x) then rest + [x] else rest
  }

  ghost predicate Descending<T(!new)>(xs: seq<T>, key: T -> int) {
    forall i, j :: 0 <= i < j < |xs| ==> key(xs[j]) <= key(xs[i])
  }

  /** The elements whose key is `k`, in order. */
  function WithKey<T(!new)>(xs: seq<T>, key: T -> int, k: int): (same: seq<T>) {
    Filter(xs, x => key(x) == k)
  }

  /** `ys` is `xs` sorted by descending key, equal keys left in their order. */
  ghost predicate SortedFrom<T(!new)>(xs: seq<T>, ys: seq<T>, key: T -> int) {
    Descending(ys, key) && forall k :: WithKey(ys, key, k) == WithKey(xs, key, k)
  }

  /** The earliest element with the greatest key. */
  function FirstMax<T(!new)>(xs: seq<T>, key: T -> int): (m: Option<T>)
    ensures m.None? <==> xs == []
    ensures m.Some? ==> m.value in xs && forall x :: x in xs ==> key(x) <= key(m.value)
  {
    if xs == [] then None
    else
      var best := FirstMax(xs[..|xs| - 1], key);
      var x := xs[|xs| - 1];
      assert xs == xs[..|xs| - 1] + [x];
      if best.None? || key(best.value) < key(x) then Some(x) else best
  }

  lemma {:induction false} FirstMaxStep<T(!new)>(xs: seq<T>, x: T, key: T -> int)
    ensures var best := FirstMax(xs, key);
            FirstMax(xs + [x], key) == if best.None? || key(best.value) < key(x) then Some(x) else best
  {
    assert (xs + [x])[..|xs|] == xs;
  }

  lemma {:induction false} FilterSnoc<T(!new)>(xs: seq<T>, x: T, p: T -> bool)
    ensures Filter(xs + [x], p) == Filter(xs, p) + if p(x) then [x] else []
  {
    assert (xs + [x])[..|xs|] == xs;
  }

  lemma {:induction false} FilterPrefix<T(!new)>(xs: seq<T>, ys: seq<T>, p: T -> bool)
    ensures Filter(xs + ys, p) == Filter(xs, p) + Filter(ys, p)
  {
    hide Filter;
    if ys == [] {
      assert xs + ys == xs;
      FilterEmpty(p);
    } else {
      var init, y := ys[..|ys| - 1], ys[|ys| - 1];
      assert xs + ys == (xs + init) + [y] && ys == init + [y];
      FilterPrefix(xs, init, p);
      FilterSnoc(xs + init, y, p);
      FilterSnoc(init, y, p);
    }
  }

  lemma {:induction false} FilterEmpty<T(!new)>(p: T -> bool)
    ensures Filter([], p) == []
  {
  }

  lemma {:induction false} WithKeySnoc<T(!new)>(xs: seq<T>, x: T, key: T -> int, k: int)
    ensures WithKey(xs + [x], key, k) == WithKey(xs, key, k) + if key(x) == k then [x] else []
  {
    assert (xs + [x])[..|xs|] == xs;
  }

  lemma {:induction false} FilterTwice<T(!new)>(xs: seq<T>, p: T -> bool, q: T -> bool, both: T -> bool)
    requires forall x :: x in xs ==> (both(x) <==> p(x) && q(x))
    ensures Filter(Filter(xs, p), q) == Filter(xs, both)
  {
    if xs != [] {
      var init := xs[..|xs| - 1];
      FilterTwice(init, p, q, both);
      var rest, x := Filter(init, p), xs[|xs| - 1];
      assert (rest + [x])[..|rest|] == rest;
    }
  }

  lemma {:induction false} FilterDescending<T(!new)>(xs: seq<T>, p: T -> bool, key: T -> int)
    requires Descending(xs, key)
    ensures Descending(Filter(xs, p), key)
  {
    if xs != [] {
      var init := xs[..|xs| - 1];
      FilterDescending(init, p, key);
      forall y | y in Filter(init, p) ensures key(xs[|xs| - 1]) <= key(y) {
        var i :| 0 <= i < |init| && init[i] == y;
        assert xs[i] == y;
      }
    }
  }

  /** Sorting first and filtering then is sorting what the filter leaves. */
  lemma {:induction false} FilterSorted<T(!new)>(xs: seq<T>, ys: seq<T>, p: T -> bool, key: T -> int)
    requires SortedFrom(xs, ys, key)
    ensures SortedFrom(Filter(xs, p), Filter(ys, p), key)
  {
    FilterDescending(ys, p, key);
    forall k ensures WithKey(Filter(ys, p), key, k) == WithKey(Filter(xs, p), key, k) {
      var keyed := x => key(x) == k;
      var both := x => p(x) && key(x) == k;
      FilterTwice(xs, p, keyed, both);
      FilterTwice(ys, p, keyed, both);
      FilterTwice(xs, keyed, p, both);
      FilterTwice(ys, keyed, p, both);
      assert WithKey(xs, key, k) == WithKey(ys, key, k);
    }
  }

  lemma {:induction false} NoneWithKey<T(!new)>(xs: seq<T>, key: T -> int, k: int)
    requires forall x :: x in xs ==> key(x) != k
    ensures WithKey(xs, key, k) == []
  {
    if xs != [] {
      var init := xs[..|xs| - 1];
      NoneWithKey(init, key, k);
      WithKeySnoc(init, xs[|xs| - 1], key, k);
      assert xs == init + [xs[|xs| - 1]];
    }
  }

  /** A head that no other element beats is the earliest greatest element. */
  lemma {:induction false} HeadWins<T(!new)>(xs: seq<T>, key: T -> int)
    requires xs != [] && forall x :: x in xs ==> key(x) <= key(xs[0])
    ensures FirstMax(xs, key) == Some(xs[0])
  {
    if |xs| > 1 {
      HeadWins(xs[..|xs| - 1], key);
    }
  }

  /** The first element with the greatest key comes first among its equals. */
  lemma {:induction false} FirstMaxLeads<T(!new)>(xs: seq<T>, key: T -> int)
    requires xs != []
    ensures var same := WithKey(xs, key, key(FirstMax(xs, key).value));
            same != [] && same[0] == FirstMax(xs, key).value
  {
    var init, x := xs[..|xs| - 1], xs[|xs| - 1];
    var m := FirstMax(xs, key).value;
    WithKeySnoc(init, x, key, key(m));
    assert xs == init + [x];
    if init == [] {
    } else if key(FirstMax(init, key).value) < key(x) {
      assert forall y :: y in init ==> key(y) < key(x);
      NoneWithKey(init, key, key(x));
    } else {
      FirstMaxLeads(init, key);
    }
  }

  /** The head of a stably sorted list is the earliest greatest element. */
  lemma {:induction false} HeadIsFirstMax<T(!new)>(xs: seq<T>, ys: seq<T>, key: T -> int)
    requires SortedFrom(xs, ys, key)
    ensures if xs == [] then ys == [] else ys != [] && FirstMax(xs, key) == Some(ys[0])
  {
    if xs != [] {
      FirstMaxLeads(xs, key);
    }
    if ys != [] {
      var k := key(ys[0]);
      assert ys[0] in WithKey(ys, key, k);
      assert ys[0] in WithKey(xs, key, k);
      var m := FirstMax(xs, key).value;
      assert m in WithKey(xs, key, key(m));
      assert m in WithKey(ys, key, key(m));
      assert key(m) == k;
      HeadLeads(ys, key);
    }
  }

  lemma {:induction false} HeadLeads<T(!new)>(ys: seq<T>, key: T -> int)
    requires ys != []
    ensures WithKey(ys, key, key(ys[0])) != [] && WithKey(ys, key, key(ys[0]))[0] == ys[0]
  {
    assert ys == [ys[0]] + ys[1..];
    FilterPrefix([ys[0]], ys[1..], x => key(x) == key(ys[0]));
  }

  /** Filtering by key or by position makes no difference to who comes first. */
  lemma {:induction false} FirstMaxSameKeys<T(!new)>(xs: seq<T>, key: T -> int, key': T -> int)
    requires forall x :: x in xs ==> key(x) == key'(x)
    ensures FirstMax(xs, key) == FirstMax(xs, key')
  {
    if xs != [] {
      FirstMaxSameKeys(xs[..|xs| - 1], key, key');
    }
  }

  // ---- such a sort exists

  /** Puts `x` after every element whose key is at least its own. */
  function Insert<T(!new)>(ys: seq<T>, x: T, key: T -> int): (r: seq<T>)
    ensures r != []
  {
    if ys == [] || key(x) <= key(ys[|ys| - 1]) then ys + [x]
    else Insert(ys[..|ys| - 1], x, key) + [ys[|ys| - 1]]
  }

  function Sort<T(!new)>(xs: seq<T>, key: T -> int): (sorted: seq<T>) {
    if xs == [] then [] else Insert(Sort(xs[..|xs| - 1], key), xs[|xs| - 1], key)
  }

  lemma {:induction false} InsertDescending<T(!new)>(ys: seq<T>, x: T, key: T -> int)
    requires Descending(ys, key)
    ensures Descending(Insert(ys, x, key), key)
    ensures forall y :: y in Insert(ys, x, key) ==> y == x || y in ys
  {
    if ys != [] && key(ys[|ys| - 1]) < key(x) {
      var init, y := ys[..|ys| - 1], ys[|ys| - 1];
      InsertDescending(init, x, key);
      forall z | z in Insert(init, x, key) ensures key(y) <= key(z) {
        if z in init {
          var i :| 0 <= i < |init| && init[i] == z;
          assert ys[i] == z;
        }
      }
    }
  }

  lemma {:induction false} InsertKeepsKeys<T(!new)>(ys: seq<T>, x: T, key: T -> int, k: int)
    requires Descending(ys, key)
    ensures WithKey(Insert(ys, x, key), key, k)
         == if key(x) == k then WithKey(ys, key, k) + [x] else WithKey(ys, key, k)
  {
    hide WithKey, Filter;
    if ys == [] || key(x) <= key(ys[|ys| - 1]) {
      WithKeySnoc(ys, x, key, k);
    } else {
      var init, y := ys[..|ys| - 1], ys[|ys| - 1];
      assert ys == init + [y];
      InsertKeepsKeys(init, x, key, k);
      WithKeySnoc(Insert(init, x, key), y, key, k);
      WithKeySnoc(init, y, key, k);
    }
  }

  lemma {:induction false} SortIsStable<T(!new)>(xs: seq<T>, key: T -> int)
    ensures SortedFrom(xs, Sort(xs, key), key)
  {
    if xs != [] {
      var init := xs[..|xs| - 1];
      SortIsStable(init, key);
      InsertDescending(Sort(init, key), xs[|xs| - 1], key);
      forall k ensures WithKey(Sort(xs, key), key, k) == WithKey(xs, key, k) {
        InsertKeepsKeys(Sort(init, key), xs[|xs| - 1], key, k);
        WithKeySnoc(init, xs[|xs| - 1], key, k);
        assert xs == init + [xs[|xs| - 1]];
        assert WithKey(Sort(init, key), key, k) == WithKey(init, key, k);
      }
    }
  }
}
