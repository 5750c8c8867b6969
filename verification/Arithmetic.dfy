/** Division facts used where a modulus or a row length is a variable. */
module Arithmetic {

  lemma MultipleSize(m: int, d: int)
    requires m > 0
    ensures d == 0 || m * d >= m || m * d <= -m
  {
    if d >= 1 {
      assert m * d == m + m * (d - 1);
    } else if d <= -1 {
      assert m * d == -m + m * (d + 1);
    }
  }

  /** A quotient and a remainder in range determine the division. */
  lemma DivModUnique(a: int, m: int, q: int, r: int)
    requires m > 0 && 0 <= r < m && a == m * q + r
    ensures a / m == q && a % m == r
  {
    var q', r' := a / m, a % m;
    assert m * (q - q') == r' - r;
    MultipleSize(m, q - q');
  }

  lemma OneMoreRow(a: nat, c: nat)
    ensures (a + 1) * c == a * c + c
  {
  }

  /** Rows of length c are laid out in order. */
  lemma {:induction false} ProductOrder(a: nat, b: nat, c: nat)
    requires a <= b
    ensures a * c <= b * c
    ensures a < b ==> a * c + c <= b * c
    decreases b
  {
    if a >= b {
    } else {
      OneMoreRow(b - 1, c);
      ProductOrder(a, b - 1, c);
    }
  }
}
