/** The few facts of integer arithmetic that the index maps of a pass rest on. */
module Arith {

  function Max(a: int, b: int): (m: int)
    ensures m >= a && m >= b && (m == a || m == b)
  {
    if a < b then b else a
  }

  function Min(a: int, b: int): (m: int)
    ensures m <= a && m <= b && (m == a || m == b)
  {
    if a < b then a else b
  }

  /** Subtraction that stops at zero, the source's `saturating_sub`. */
  function SatSub(a: nat, b: nat): (d: nat)
    ensures d == Max(a - b, 0)
  {
    if a < b then 0 else a - b
  }

  /** Division rounded up, the source's `div_ceil`. */
  function DivCeil(a: nat, b: nat): (q: nat)
    requires b > 0
    ensures a <= q * b < a + b
  {
    var q := (a + b - 1) / b;
    FundamentalDivMod(a + b - 1, b);
    assert q * b == b * q;
    q
  }

  lemma FundamentalDivMod(a: int, b: int)
    requires b > 0
    ensures a == b * (a / b) + a % b
    ensures 0 <= a % b < b
  {
  }

  lemma MulMono(a: int, b: int, c: int)
    requires a <= b && c >= 0
    ensures a * c <= b * c
  {
  }

  /** Quotient and remainder are the only pair that fits. */
  lemma DivModUnique(a: int, b: int, q: int, r: int)
    requires b > 0 && 0 <= r < b
    requires a == q * b + r
    ensures a / b == q && a % b == r
  {
    FundamentalDivMod(a, b);
    var d := a / b - q;
    assert b * (a / b) == (a / b) * b;
    assert d * b == (a / b) * b - q * b;
    assert d * b == r - a % b;
    if d >= 1 {
      MulMono(1, d, b);
    } else if d <= -1 {
      MulMono(d, -1, b);
    }
  }

  /** A two-digit number in the mixed base (n, b) is below the product. */
  lemma DigitBound(q: int, r: int, n: int, b: int)
    requires 0 <= q < n && 0 <= r < b
    ensures 0 <= q * b + r < n * b
  {
    MulMono(0, q, b);
    MulMono(q + 1, n, b);
    assert (q + 1) * b == q * b + b;
  }

  /** The leading digit of a number below `n * b` is below `n`. */
  lemma DigitRange(a: int, n: int, b: int)
    requires 0 <= a < n * b && b > 0
    ensures 0 <= a / b < n && 0 <= a % b < b
  {
    FundamentalDivMod(a, b);
    var q := a / b;
    assert b * q == q * b;
    assert q < n by { if q >= n { MulMono(n, q, b); } }
    assert q >= 0 by { if q < 0 { MulMono(q, -1, b); } }
  }

  /** What `n` whole steps of `b` past `a` have in common with `a`. */
  lemma ModShift(a: int, n: int, b: int)
    requires b > 0
    ensures (a + n * b) % b == a % b
    ensures (a + n * b) / b == a / b + n
  {
    FundamentalDivMod(a, b);
    var q := a / b + n;
    assert q * b == (a / b) * b + n * b;
    assert b * (a / b) == (a / b) * b;
    DivModUnique(a + n * b, b, q, a % b);
  }

  /** A larger number divides to no less. */
  lemma DivMono(a: nat, b: nat, d: nat)
    requires a <= b && d > 0
    ensures 0 <= a / d <= b / d
  {
    FundamentalDivMod(a, d);
    FundamentalDivMod(b, d);
    var x, y := a / d, b / d;
    assert d * x == x * d && d * y == y * d;
    assert x <= y by { if x > y { MulMono(y + 1, x, d); } }
    assert x >= 0 by { if x < 0 { MulMono(x, -1, d); } }
  }
}
