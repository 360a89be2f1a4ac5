/** Integer and real facts shared by the grid, colour and info-bar models. */
module Arith {

  /** Largest value of a C `uint32_t` plus one. */
  const U32Modulus: int := 0x1_0000_0000

  type U32 = x: int | 0 <= x < U32Modulus

  function Min(x: real, y: real): real { if x <= y then x else y }
  function Max(x: real, y: real): real { if x <= y then y else x }

  function Abs(x: real): real { if x < 0.0 then -x else x }

  /** Euclidean division is unique: a quotient/remainder pair that fits is the one `/` and `%` give. */
  lemma DivModUnique(a: int, d: int, q: int, r: int)
    requires d > 0 && 0 <= r < d && a == d * q + r
    ensures a / d == q && a % d == r
  {
    var q', r' := a / d, a % d;
    assert a == d * q' + r' && 0 <= r' < d;
    if q' > q {
      assert d * q' >= d * (q + 1) by { MulLeMonotone(d, q + 1, q'); }
      assert false;
    } else if q' < q {
      assert d * q >= d * (q' + 1) by { MulLeMonotone(d, q' + 1, q); }
      assert false;
    }
  }

  lemma MulLeMonotone(d: int, x: int, y: int)
    requires d >= 0 && x <= y
    ensures d * x <= d * y
  {
    assert d * y - d * x == d * (y - x);
  }

  /** Row-major addressing: cell (x, y) of a grid with `cols` columns sits at
      `y * cols + x`, and that index gives back its row and column. */
  lemma RowMajor(x: int, y: int, cols: int)
    requires cols > 0 && 0 <= x < cols && 0 <= y
    ensures (y * cols + x) / cols == y && (y * cols + x) % cols == x
  {
    DivModUnique(y * cols + x, cols, y, x);
  }

  /** A cell of a `rows` by `cols` grid has an index below `rows * cols`. */
  lemma RowMajorInBounds(x: int, y: int, cols: int, rows: int)
    requires 0 <= x < cols && 0 <= y < rows
    ensures 0 <= y * cols + x < rows * cols
  {
    MulLeMonotone(cols, y, rows - 1);
    assert y * cols <= (rows - 1) * cols;
  }

  /** Adding to a residue is adding before the reduction. */
  lemma ModAdd(a: int, b: int, m: int)
    requires m > 0
    ensures (a % m + b) % m == (a + b) % m
  {
    var q1 := a / m;
    var q2 := (a % m + b) / m;
    var r := (a % m + b) % m;
    assert a == m * q1 + a % m;
    assert a % m + b == m * q2 + r;
    assert a + b == m * (q1 + q2) + r;
    DivModUnique(a + b, m, q1 + q2, r);
  }

  /** Weighted sums keep the order of their terms when the weights are non-negative. */
  lemma SumMonotone(x: real, y: real, w: real, v: real, lx: real, ly: real)
    requires w >= 0.0 && v >= 0.0 && lx <= x && ly <= y
    ensures w * lx + v * ly <= w * x + v * y
  {
    MulRealMonotone(w, lx, x);
    MulRealMonotone(v, ly, y);
  }

  /** A weighted sum whose weights add up to one stays inside any interval
      that holds both terms. */
  lemma WeightedWithin(x: real, y: real, w: real, v: real, lo: real, hi: real)
    requires w >= 0.0 && v >= 0.0 && w + v == 1.0
    requires lo <= x <= hi && lo <= y <= hi
    ensures lo <= x * w + y * v <= hi
  {
    SumMonotone(x, y, w, v, lo, lo);
    SumMonotone(hi, hi, w, v, x, y);
    assert w * lo + v * lo == (w + v) * lo;
    assert w * hi + v * hi == (w + v) * hi;
  }

  /** A blend `x * w + y * (1 - w)` with a weight in [0, 1] stays inside any
      interval that holds both ends. */
  lemma BlendWithin(x: real, y: real, w: real, lo: real, hi: real)
    requires 0.0 <= w <= 1.0
    requires lo <= x <= hi && lo <= y <= hi
    ensures lo <= x * w + y * (1.0 - w) <= hi
  {
    WeightedWithin(x, y, w, 1.0 - w, lo, hi);
  }

  /** In particular it lies between its two ends. */
  lemma BlendBetween(x: real, y: real, w: real)
    requires 0.0 <= w <= 1.0
    ensures Min(x, y) <= x * w + y * (1.0 - w) <= Max(x, y)
  {
    BlendWithin(x, y, w, Min(x, y), Max(x, y));
  }

  /** Products keep the strict order of their factors under a positive scale. */
  lemma MulRealStrict(k: real, x: real, y: real)
    requires k > 0.0 && x < y
    ensures k * x < k * y
  {
    assert k * y - k * x == k * (y - x);
  }

  /** Products keep the order of their non-negative factors. */
  lemma MulRealMonotone(k: real, x: real, y: real)
    requires k >= 0.0 && x <= y
    ensures k * x <= k * y
  {
    assert k * y - k * x == k * (y - x);
  }

  /** Dividing twice is dividing by the product. */
  lemma DivDiv(a: int, b: int, c: int)
    requires a >= 0 && b > 0 && c > 0
    ensures (a / b) / c == a / (b * c)
  {
    var q, r := a / b, a % b;
    var q2, r2 := q / c, q % c;
    assert a == b * q + r;
    assert q == c * q2 + r2;
    assert a == (b * c) * q2 + (b * r2 + r) by {
      assert b * q == b * (c * q2) + b * r2;
      assert b * (c * q2) == (b * c) * q2;
    }
    MulLeMonotone(b, r2, c - 1);
    assert b * r2 + r < b * c by {
      assert b * (c - 1) == b * c - b;
    }
    MulLeMonotone(b, 0, r2);
    DivModUnique(a, b * c, q2, b * r2 + r);
  }
}
