/** Facts about products, quotients, remainders and bytes that several modules use. */
module Arithmetic {

  lemma AtLeastOne(k: int, s: int)
    requires 1 <= k && 0 <= s
    ensures k * s >= s
  {
  }

  lemma QuotientIsUnique(s: int, x: int, y: int, x': int, y': int)
    requires 0 <= x < s && 0 <= x' < s
    requires x + y * s == x' + y' * s
    ensures x == x' && y == y'
  {
    assert x - x' == (y' - y) * s == -((y - y') * s);
    if y < y' {
      AtLeastOne(y' - y, s);
    } else if y' < y {
      AtLeastOne(y - y', s);
    }
  }

  lemma PositiveFactor(k: int, m: int)
    requires 0 < m && 0 < k * m
    ensures 0 < k
  {
  }

  /** A remainder of something less than twice the divisor is one conditional subtraction. */
  lemma ModuloIsOneStep(i: int, n: int)
    requires 0 < n && 0 <= i < 2 * n
    ensures i % n == if i >= n then i - n else i
  {
    if i >= n {
      assert i == n + (i - n);
      assert i / n == 1;
    }
  }

  /** The byte with a given value. */
  function ByteOf(n: nat): (b: bv8)
    requires n < 256
    ensures ValueOf(b) == n
  {
    if n == 0 then 0 else
      var b := ByteOf(n - 1);
      NextByte(b);
      b + 1
  }

  /** The value of a byte. */
  function ValueOf(b: bv8): (n: nat)
    ensures n < 256
  {
    b as int
  }

  lemma SameByte(a: bv8, b: bv8)
    ensures ValueOf(a) == ValueOf(b) ==> a == b
  {
  }

  lemma NextByte(b: bv8)
    requires b != 0xff
    ensures ValueOf(b + 1) == ValueOf(b) + 1
  {
  }

  function RoundUp(n: int, m: int): int
    requires 0 < m
  {
    (n + m - 1) / m * m
  }

  /** The slot `k` places after `start` in a ring of `size` slots. */
  function Slot(start: int, k: int, size: int): int {
    if start + k >= size then start + k - size else start + k
  }
}
