/** Machine words, and facts about division and powers of two that the address and slot calculations share. */
module Arith {

  // 32-bit words.
  const WORD: int := 0x1_0000_0000
  type word = x: int | 0 <= x < 0x1_0000_0000

  lemma MulMonotone(a: int, b: int, c: int)
    requires a <= b && 0 <= c
    ensures a * c <= b * c
  {
    assert b * c - a * c == (b - a) * c;
  }

  // A quotient and a remainder in range are the quotient and the remainder.
  lemma DivModUnique(x: int, d: int, q: int, r: int)
    requires d > 0 && x == q * d + r && 0 <= r < d
    ensures x / d == q && x % d == r
  {
    var q', r' := x / d, x % d;
    assert x == q' * d + r';
    assert (q - q') * d == r' - r;
    if q > q' {
      assert (q - q') * d >= d by { MulMonotone(1, q - q', d); }
    } else if q < q' {
      assert (q' - q) * d >= d by { MulMonotone(1, q' - q, d); }
    }
  }

  lemma MulSame(d: int, x: int, y: int)
    requires x == y
    ensures d * x == d * y
  {
  }

  lemma MulSucc(m: int, c: int)
    ensures m * c + c == (m + 1) * c
  {
  }

  // Sums and differences of multiples are multiples.
  lemma Multiples(x: int, y: int, d: int)
    requires d > 0 && x % d == 0 && y % d == 0
    ensures (x + y) % d == 0 && (x - y) % d == 0
  {
    var p, q := x / d, y / d;
    assert x == p * d && y == q * d;
    DivModUnique(x + y, d, p + q, 0);
    DivModUnique(x - y, d, p - q, 0);
  }

  // Adding a multiple of the divisor moves the quotient and keeps the remainder.
  lemma DivModShift(x: int, d: int, m: int)
    requires d > 0
    ensures (x + m * d) / d == x / d + m && (x + m * d) % d == x % d
  {
    DivModUnique(x + m * d, d, x / d + m, x % d);
  }

  // Powers of two.
  function Two(k: nat): nat {
    if k == 0 then 1 else 2 * Two(k - 1)
  }
}
