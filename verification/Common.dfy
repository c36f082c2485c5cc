/** Datatypes and arithmetic shared by the models. */
module Common {

  /** A value the program may not have: TypeScript's `null` or `undefined`. */
  datatype Option<+T> = None | Some(value: T)

  function Max(a: int, b: int): int {
    if a < b then b else a
  }

  function Min(a: int, b: int): int {
    if a < b then a else b
  }

  /** `Math.round`. */
  function Round(x: real): int {
    (x + 0.5).Floor
  }

  /** BigInt division, which truncates toward zero. */
  function TruncDiv(a: int, b: int): int
    requires b > 0
  {
    if a >= 0 then a / b else -((-a) / b)
  }

  function Pow10(n: nat): (p: nat)
    ensures p >= 1
  {
    if n == 0 then 1 else 10 * Pow10(n - 1)
  }

  lemma Pow10Of7()
    ensures Pow10(7) == 10_000_000
  {
    assert Pow10(4) == 10_000 by { assert Pow10(2) == 100; }
    assert Pow10(7) == 10 * (10 * (10 * Pow10(4)));
  }

  /** Multiplying by a positive number keeps the order. */
  lemma RealScaledOrder(a: real, b: real, m: real)
    requires m > 0.0
    ensures a <= b <==> a * m <= b * m
  {
    assert (b - a) * m == b * m - a * m;
    if a <= b { assert (b - a) * m >= 0.0; } else { assert (a - b) * m > 0.0; }
  }
}
