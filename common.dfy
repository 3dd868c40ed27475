/** Definitions shared by the terrain store, the chunk sampler and the voxel renderer. */
module Common {

  /** A value that may be missing (a JavaScript `null`, `undefined` or `NaN`). */
  datatype Option<T> = None | Some(value: T)

  /** One cell of a `Uint8Array`. */
  type Byte = b: int | 0 <= b < 256

  /** Row-major layout: `q` full rows of width `w`, then `r` more cells, decode back to `(q, r)`. */
  lemma {:induction false} DivModOfLinear(q: int, r: int, w: int)
    requires w > 0 && 0 <= r < w
    ensures (q * w + r) / w == q
    ensures (q * w + r) % w == r
  {
    var a := q * w + r;
    var d := a / w - q;
    assert w * d == r - a % w by {
      assert a == w * (a / w) + a % w;
      assert w * (a / w) == w * d + w * q;
    }
    if d > 0 {
      MulAtLeast(w, d);
    }
  }

  /** A positive multiplier does not shrink a positive quantity. */
  lemma MulAtLeast(w: int, d: int)
    requires w > 0 && d >= 1
    ensures w * d >= w
  {
    assert w * d == w * (d - 1) + w;
  }

  /** The product of two non-negative numbers is non-negative. */
  lemma MulNonNegative(a: int, b: int)
    requires a >= 0 && b >= 0
    ensures a * b >= 0
  {
  }

  /** A row-major index of a cell inside an `n`-row block of width `w` stays below `n * w`. */
  lemma {:induction false} LinearBelow(q: int, r: int, w: int, n: int)
    requires w > 0 && 0 <= r < w && 0 <= q < n
    ensures 0 <= q * w + r < n * w
  {
    MulNonNegative(q, w);
    MulNonNegative(n - 1 - q, w);
    assert n * w == (n - 1 - q) * w + q * w + w;
  }
}
