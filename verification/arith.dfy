/** Division facts the index arithmetic of the weight and tensor layouts relies on. */
module Arith {

  /** C++ integer division by a positive divisor: the quotient is truncated toward zero. */
  function TruncDiv(a: int, b: int): (q: int)
    requires b > 0
    ensures a >= 0 ==> 0 <= q * b <= a < (q + 1) * b
    ensures a < 0 ==> (q - 1) * b < a <= q * b <= 0
  {
    if a >= 0 then DivBounds(a, b); a / b
    else DivBounds(-a, b); -((-a) / b)
  }

  /** Euclidean division of a non-negative number brackets it between consecutive multiples. */
  lemma DivBounds(a: int, b: int)
    requires a >= 0 && b > 0
    ensures 0 <= a / b && 0 <= (a / b) * b <= a < (a / b + 1) * b
  {
    var q, r := a / b, a % b;
    assert a == q * b + r;
    assert (q + 1) * b == q * b + b;
  }

  /** The position of (row, col) in a row-major buffer whose rows hold `width` elements. */
  function RowMajor(row: int, col: int, width: int): int
  {
    row * width + col
  }

  function Max(a: int, b: int): int
  {
    if a >= b then a else b
  }

  function Min(a: int, b: int): int
  {
    if a <= b then a else b
  }

  /** Euclidean division by a positive divisor is unique. */
  lemma DivModUnique(x: int, d: int, q: int, r: int)
    requires d > 0 && 0 <= r < d && x == q * d + r
    ensures x / d == q && x % d == r
  {
    var q', r' := x / d, x % d;
    assert x == q' * d + r';
    if q' < q {
      assert (q - q') * d == r' - r;
      MulAtLeast(q - q', d);
    } else if q' > q {
      assert (q' - q) * d == r - r';
      MulAtLeast(q' - q, d);
    }
  }

  /** A positive multiple of a positive number is at least that number. */
  lemma MulAtLeast(a: int, d: int)
    requires a >= 1 && d > 0
    ensures a * d >= d
  {
    assert a * d == (a - 1) * d + d;
  }

  /** Row-major index arithmetic: `row * width + col` stays below `height * width`. */
  lemma RowMajorBound(row: int, col: int, height: int, width: int)
    requires 0 <= row < height && 0 <= col < width
    ensures 0 <= row * width + col < height * width
  {
    assert row * width + col < (row + 1) * width;
    assert (row + 1) * width <= height * width;
  }

  /** The row and column of a row-major index are recovered by division. */
  lemma RowMajorSplit(row: int, col: int, width: int)
    requires 0 <= row && 0 <= col < width
    ensures (row * width + col) / width == row && (row * width + col) % width == col
  {
    DivModUnique(row * width + col, width, row, col);
  }

  /** Every index below `height * width` is some (row, column) pair. */
  lemma RowMajorOf(idx: int, height: int, width: int)
    requires height >= 0 && 0 <= idx < height * width
    ensures width > 0 && 0 <= idx / width < height && 0 <= idx % width < width
    ensures idx == (idx / width) * width + idx % width
  {
    PositiveFactor(height, width);
    MulStrictInverse(idx / width, height, width);
  }

  /** A positive product with a non-negative left factor has a positive right factor. */
  lemma PositiveFactor(h: int, w: int)
    requires h >= 0 && h * w > 0
    ensures w > 0
  {}

  /** Multiplication by a positive number reflects strict order. */
  lemma MulStrictInverse(q: int, h: int, w: int)
    requires w > 0 && q * w < h * w
    ensures q < h
  {}

  /** Multiplication by a non-negative number is monotone. */
  lemma MulMonotone(a: int, b: int, k: int)
    requires a <= b && k >= 0
    ensures a * k <= b * k
  {}

  /** Distributivity and associativity, stated once so that proofs can cite them. */
  lemma MulAdd(a: int, b: int, k: int)
    ensures (a + b) * k == a * k + b * k
  {}

  lemma MulAssoc(a: int, b: int, c: int)
    ensures (a * b) * c == a * (b * c)
  {}
}
