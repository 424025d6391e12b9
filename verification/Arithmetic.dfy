/** Division and remainder facts shared by the other modules. */
module Arithmetic {

  /** The number of values of a 64-bit word. */
  const TWO_64 := 0x1_0000_0000_0000_0000

  lemma SmallMultiple(n: int, k: int)
    requires n >= 1 && -n < n * k < n
    ensures k == 0
  {}

  lemma DivBounds(a: int, b: int)
    requires b >= 1
    ensures a / b * b <= a < a / b * b + b
    ensures a % b == a - a / b * b
  {}

  lemma Quotient(a: int, b: int, q: int)
    requires b >= 1 && q * b <= a < q * b + b
    ensures a / b == q && a % b == a - q * b
  {
    DivBounds(a, b);
    var k := a / b - q;
    assert b * k == a / b * b - q * b;
    SmallMultiple(b, k);
  }

  lemma SmallDiv(a: int, b: int)
    requires 0 <= a < b
    ensures a / b == 0 && a % b == a
  { Quotient(a, b, 0); }

  /** Dropping whole multiples changes neither remainder nor the rest of the quotient. */
  lemma AddMultiple(x: int, k: int, m: int)
    requires m >= 1
    ensures (k * m + x) % m == x % m && (k * m + x) / m == k + x / m
  {
    DivBounds(x, m);
    assert (k + x / m) * m == k * m + x / m * m;
    Quotient(k * m + x, m, k + x / m);
  }

  lemma MulMono(a: int, b: int, m: int)
    requires a <= b && 0 <= m
    ensures a * m <= b * m
  {}

  lemma MulCancel(a: int, b: int, m: int)
    requires a * m < b * m && 0 <= m
    ensures a < b
  {
    if a >= b { MulMono(b, a, m); assert false; }
  }

  /** The remainder of a number below four times the modulus. */
  lemma ModCases(x: int, n: int)
    requires n >= 1 && 0 <= x < 4 * n
    ensures x % n == if x < n then x else if x < 2 * n then x - n else if x < 3 * n then x - 2 * n else x - 3 * n
  {
    Quotient(x, n, if x < n then 0 else if x < 2 * n then 1 else if x < 3 * n then 2 else 3);
  }

  lemma ModAdd(x: int, y: int, m: int)
    requires m >= 1
    ensures (x % m + y) % m == (x + y) % m
  {
    AddMultiple(x % m + y, x / m, m);
    DivBounds(x, m);
  }

  /** Reducing by a multiple of the modulus first changes nothing. */
  lemma ModOfMultiple(x: int, m: int, k: int, big: int)
    requires m >= 1 && k >= 1 && big == k * m && big >= 1
    ensures x % big % m == x % m
  {
    DivBounds(x, big);
    assert x == (x / big * k) * m + x % big by {
      assert x / big * big == (x / big * k) * m;
    }
    AddMultiple(x % big, x / big * k, m);
  }
}
