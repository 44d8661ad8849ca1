// Definitions shared by all modules, and division with remainder.

module Basics {

  type byte = x: int | 0 <= x < 256

  datatype Option<+T> = None | Some(value: T)

  // ld_word and ld_dword.
  function Word(b0: int, b1: int): int {
    b0 + 0x100 * b1
  }

  function Dword(b0: int, b1: int, b2: int, b3: int): int {
    b0 + 0x100 * b1 + 0x1_0000 * b2 + 0x100_0000 * b3
  }

  // Quotient and remainder are determined.
  lemma QuotientAndRemainder(x: int, m: nat, q: int, r: nat)
    requires r < m && x == q * m + r
    ensures x / m == q && x % m == r
  {
    assert x == (x / m) * m + x % m;
    var d: int := x / m - q;
    assert d * m + x % m == r;
    MultipleIsFar(d, m);
  }

  // A multiple of m other than 0 is at least m away from 0.
  lemma MultipleIsFar(d: int, m: nat)
    ensures d > 0 ==> d * m >= m
    ensures d < 0 ==> d * m + m <= 0
  {
  }
}
