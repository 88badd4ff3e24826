/** Facts about Python 2 integer `*`, `/` and `%` with a positive divisor,
    where floor division and modulo agree with Dafny's Euclidean ones. */
module Arith {

  lemma MulNonneg(a: int, b: int)
    requires a >= 0 && b >= 0
    ensures a * b >= 0
  {}

  lemma MulStep(n: int, s: int)
    ensures n * s == (n - 1) * s + s
  {}

  lemma MulMono(a: int, b: int, w: int)
    requires w >= 0
    ensures a <= b ==> a * w <= b * w
  {
    if a <= b {
      MulNonneg(b - a, w);
      assert b * w - a * w == (b - a) * w;
    }
  }

  lemma MulBound(d: int, w: int)
    requires w > 0
    ensures d >= 1 ==> d * w >= w
    ensures d <= -1 ==> d * w <= -w
  {
    if d >= 1 {
      MulNonneg(d - 1, w);
      assert d * w == (d - 1) * w + w;
    } else if d <= -1 {
      MulNonneg(-d - 1, w);
      assert -d * w == (-d - 1) * w + w;
    }
  }

  /** Quotient and remainder are the only pair with `i == q * w + r` and `0 <= r < w`. */
  lemma DivModUnique(i: int, w: int, q: int, r: int)
    requires w > 0 && 0 <= r < w && i == q * w + r
    ensures i / w == q && i % w == r
  {
    var q0, r0 := i / w, i % w;
    assert i == q0 * w + r0;
    var d := q - q0;
    assert d * w == r0 - r by {
      assert q * w - q0 * w == (q - q0) * w;
    }
    MulBound(d, w);
  }

  /** Cell `x` of row `y` of a row-major grid of width `w` sits at `y * w + x`. */
  lemma CellIndex(w: int, x: int, y: int)
    requires 0 <= x < w
    ensures (y * w + x) / w == y && (y * w + x) % w == x
  {
    DivModUnique(y * w + x, w, y, x);
  }

  /** An index below `w * h` names a cell of a `w` x `h` grid. */
  lemma IndexInGrid(w: nat, h: nat, i: int)
    requires 0 <= i < w * h
    ensures w > 0 && 0 <= i / w < h && 0 <= i % w < w
  {
    assert w == 0 ==> w * h == 0;
    assert w > 0;
    assert i == (i / w) * w + i % w;
    MulMono(h, i / w, w);
  }

  /** A cell of a `w` x `h` grid has its row-major index below `w * h`. */
  lemma CellBelow(w: nat, h: nat, x: int, y: int)
    requires 0 <= x < w && 0 <= y < h
    ensures 0 <= y * w + x < w * h
  {
    MulNonneg(y, w);
    MulMono(y + 1, h, w);
    assert (y + 1) * w == y * w + w;
  }

  /** Floor division by a positive divisor is monotone. */
  lemma DivMono(i: int, j: int, w: int)
    requires w > 0 && i <= j
    ensures i / w <= j / w
  {
    assert i == (i / w) * w + i % w;
    assert j == (j / w) * w + j % w;
    MulBound(i / w - j / w, w);
    assert (i / w - j / w) * w == (i / w) * w - (j / w) * w;
  }

  /** Division with remainder by a positive divisor. */
  lemma DivMod(n: int, m: int)
    requires m > 0
    ensures n == (n / m) * m + n % m && 0 <= n % m < m
  {
  }

  /** The whole multiples of `m` in `n` are all of `n` exactly when `m` divides it. */
  lemma WholeChunks(n: nat, m: int)
    requires m > 0
    ensures 0 <= (n / m) * m <= n
    ensures (n / m) * m == n <==> n % m == 0
  {
    DivMod(n, m);
    MulNonneg(n / m, m);
  }

  /** Of two indices, the smaller has the smaller quotient, or the same
      quotient and the smaller remainder. */
  lemma DivModOrder(i: int, j: int, w: int)
    requires w > 0 && i < j
    ensures i / w < j / w || (i / w == j / w && i % w < j % w)
  {
    DivMono(i, j, w);
    DivMod(i, w);
    DivMod(j, w);
  }
}
