/** Nonlinear index arithmetic for row-major buffers (`y * width + x`). */
module Arith {

  lemma {:induction false} MulMono(a: int, b: int, c: int)
    requires 0 <= a <= b && 0 <= c
    ensures a * c <= b * c
  {
    if a < b { MulMono(a, b - 1, c); }
  }

  /** A cell or pixel `(x, y)` inside a `w` by `h` grid has a row-major index inside the buffer. */
  lemma IndexBound(w: int, h: int, x: int, y: int)
    requires 0 <= x < w && 0 <= y < h
    ensures 0 <= y * w + x < h * w
  {
    MulMono(y + 1, h, w);
    MulMono(0, y, w);
  }

  /** An index is its row times the width plus its column. */
  lemma Decompose(w: int, k: int)
    requires w > 0
    ensures k == (k / w) * w + k % w && 0 <= k % w < w
  {
  }

  /** Division and remainder by the row width recover the coordinates of a row-major index. */
  lemma DivModIndex(w: int, x: int, y: int)
    requires 0 <= x < w && 0 <= y
    ensures (y * w + x) / w == y && (y * w + x) % w == x
  {
    var k := y * w + x;
    var q, r := k / w, k % w;
    assert k == q * w + r && 0 <= r < w;
    if q > y { MulMono(y + 1, q, w); }
    if q < y { MulMono(q + 1, y, w); }
  }

  /** A row-major index lies before row `r` exactly when its row does. */
  lemma RowBefore(w: int, x: int, y: int, r: int)
    requires 0 <= x < w && 0 <= y && 0 <= r
    ensures y * w + x < r * w <==> y < r
  {
    if y < r {
      IndexBound(w, r, x, y);
    } else {
      MulMono(r, y, w);
    }
  }
}
