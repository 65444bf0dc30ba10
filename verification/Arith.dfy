/** Integer and real arithmetic shared by the limiter proofs. */
module Arith {

  function Max(a: int, b: int): (m: int) {
    if a < b then b else a
  }

  function MinReal(a: real, b: real): (m: real) {
    if a < b then a else b
  }

  /** The least integer at or above `x`: Lua's math.ceil. */
  function Ceil(x: real): (n: int) {
    -((-x).Floor)
  }

  lemma {:induction false} CeilLeast(x: real, n: int)
    ensures Ceil(x) <= n <==> x <= n as real
  {
  }

  lemma {:induction false} MulMono(a: int, b: int, c: int)
    requires a <= b && 0 <= c
    ensures a * c <= b * c
  {
  }

  /** `n / d` rounds down, as math.floor does. */
  lemma {:induction false} DivBounds(n: int, d: int)
    requires 0 < d
    ensures (n / d) * d <= n < (n / d + 1) * d
  {
  }

  lemma {:induction false} DivAtLeast(n: int, d: int, q: int)
    requires 0 < d
    ensures q <= n / d <==> q * d <= n
  {
    DivBounds(n, d);
    if q <= n / d {
      MulMono(q, n / d, d);
    } else {
      MulMono(n / d + 1, q, d);
    }
  }

  lemma {:induction false} DivUnique(n: int, d: int, q: int)
    requires 0 < d && q * d <= n < (q + 1) * d
    ensures n / d == q
  {
    DivAtLeast(n, d, q);
    DivAtLeast(n, d, q + 1);
  }

  lemma {:induction false} DivMono(a: int, b: int, d: int)
    requires 0 < d && a <= b
    ensures a / d <= b / d
  {
    DivBounds(a, d);
    DivAtLeast(b, d, a / d);
  }

  lemma {:induction false} RealMulMono(a: real, b: real, c: real)
    requires a <= b && 0.0 <= c
    ensures a * c <= b * c
  {
  }
}
