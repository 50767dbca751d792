/** Rounding and clamping of integers. */
module Arithmetic {

  function Min(a: int, b: int): int { if a < b then a else b }
  function Max(a: int, b: int): int { if a < b then b else a }
  function Clamp(x: int, low: int, high: int): int { Min(Max(x, low), high) }

  function CeilingDiv(a: int, b: int): int requires b > 0 { -(-a / b) }

  lemma FloorIsGreatest(a: int, b: int, k: int)
    requires b > 0
    ensures k <= a / b <==> b * k <= a
  {
    var q := a / b;
    assert b * q <= a < b * q + b;
    if k <= q { assert b * k <= b * q; } else { assert b * k >= b * (q + 1); }
  }

  lemma CeilingIsLeast(a: int, b: int, k: int)
    requires b > 0
    ensures CeilingDiv(a, b) <= k <==> a <= b * k
  {
    FloorIsGreatest(-a, b, -k);
    assert b * -k == -(b * k);
  }
}
