/** The integer types of the source, and the arithmetic facts about index and division. */
module FixedWidth {

  /** IndexT of the source: a 16-bit signed integer.  Arithmetic on it is done at `int` width and
      the range is checked where a value is stored. */
  type IndexT = v: int | -0x8000 <= v < 0x8000

  /** Storing an `int` in an IndexT keeps its low 16 bits. */
  function ToIndexT(v: int): (i: IndexT)
    ensures -0x8000 <= v < 0x8000 ==> i == v
    ensures 0 <= v ==> i <= v
  {
    var low := v % 0x10000;
    if low < 0x8000 then low else low - 0x10000
  }

  /** An IndexT that meets a `size_t` operand is converted to it. */
  function ToSize(v: IndexT): int {
    if v < 0 then 0x1_0000_0000_0000_0000 + v as int else v
  }

  lemma ModOnce(a: int, n: int)
    requires 0 <= a <= 2 * n && 0 < n
    ensures a % n == if a < n then a else if a < 2 * n then a - n else 0
  {
    if n <= a < 2 * n {
      assert a == n * 1 + (a - n);
    } else if a == 2 * n {
      assert a == n * 2 + 0;
    }
  }

  lemma ProductIncreases(a: int, q: int, b: int)
    requires 0 < b && a < q
    ensures a * b + b <= q * b
    decreases q - a
  {
    if a + 1 < q {
      ProductIncreases(a + 1, q, b);
    }
  }

  lemma QuotientUnique(a: int, q: int, b: int, r: int)
    requires 0 < b && a * b == q * b + r && 0 <= r < b
    ensures a == q
  {
    if q < a {
      ProductIncreases(q, a, b);
    } else if a < q {
      ProductIncreases(a, q, b);
    }
  }

  lemma QuotientIs(p: int, b: int, a: int)
    requires 0 < b && p == a * b
    ensures p / b == a
  {
    QuotientUnique(a, p / b, b, p % b);
  }

  lemma ProductBound(a: int, b: int, c: int, d: int)
    requires 0 <= a <= c && 0 <= b <= d
    ensures 0 <= a * b <= c * d
  {
    assert a * b <= c * b;
  }

  lemma SmallQuotient(a: int, b: int)
    requires 0 <= a < b
    ensures a / b == 0
  {
  }
}
