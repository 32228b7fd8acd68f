/** Values and C arithmetic shared by the harness modules. */
module Common {

  datatype Option<+T> = None | Some(value: T)

  /** Range of a C `int` (32 bits, two's complement). */
  const IntMin: int := -0x8000_0000
  const IntMax: int := 0x7fff_ffff

  predicate IsInt(x: int) { IntMin <= x <= IntMax }

  /** C's `%` for a positive divisor: the quotient truncates toward zero, so a
      non-zero remainder takes the sign of the dividend (Dafny's `%` never
      returns a negative value). With the bound and the sign, the congruence
      modulo `b` leaves exactly one possible value. */
  function CRem(a: int, b: int): (r: int)
    requires b > 0
    ensures -b < r < b
    ensures a >= 0 ==> r == a % b
    ensures a < 0 ==> r <= 0
    ensures (a - r) % b == 0
  {
    if a >= 0 then
      var r := a % b;
      ModUnique(a - r, b, a / b, 0);
      r
    else
      var r := -((-a) % b);
      ModUnique(a - r, b, -((-a) / b), 0);
      r
  }

  lemma MulAtLeast(b: int, d: int)
    requires b > 0 && d >= 1
    ensures b * d >= b
  {
    if d > 1 {
      MulAtLeast(b, d - 1);
      assert b * d == b * (d - 1) + b;
    }
  }

  /** Euclidean division is unique: a multiple of `b` plus a remainder in
      `[0, b)` determines `%`. */
  lemma ModUnique(y: int, b: int, q: int, m: int)
    requires b > 0 && 0 <= m < b && y == b * q + m
    ensures y % b == m
  {
    var d := y / b - q;
    assert b * d == m - y % b by {
      assert b * (y / b) + y % b == y;
      assert b * d == b * (y / b) - b * q;
    }
    if d >= 1 {
      MulAtLeast(b, d);
    } else if d <= -1 {
      MulAtLeast(b, -d);
    }
  }
}
