/** Small helpers shared by the whole model. */
module Common {

  /** Kotlin's nullable values and JavaScript's `undefined`. */
  datatype Option<+T> = None | Some(value: T)

  function Max(a: int, b: int): (r: int)
    ensures r >= a && r >= b && (r == a || r == b)
  {
    if a >= b then a else b
  }

  function Min(a: int, b: int): (r: int)
    ensures r <= a && r <= b && (r == a || r == b)
  {
    if a <= b then a else b
  }

  /** Kotlin's `v.coerceIn(lo, hi)` on integers: the nearest value of the range. */
  function Clamp(v: int, lo: int, hi: int): (r: int)
    requires lo <= hi
    ensures lo <= r <= hi
    ensures lo <= v <= hi ==> r == v
    ensures v < lo ==> r == lo
    ensures v > hi ==> r == hi
  {
    if v < lo then lo else if v > hi then hi else v
  }

  /** Kotlin's `/` on `Int`: division truncating toward zero (Dafny's `/` is Euclidean). */
  function TruncDiv(a: int, d: int): (q: int)
    requires d > 0
    ensures a >= 0 ==> q == a / d
    ensures a < 0 ==> q == -((-a) / d)
    ensures q * d <= a < q * d + d || q * d - d < a <= q * d
  {
    if a >= 0 then a / d else -((-a) / d)
  }

  /** Products of naturals grow with their factors. */
  lemma MulMono(a: int, b: int, a': int, b': int)
    requires 0 <= a <= a' && 0 <= b <= b'
    ensures a * b <= a' * b'
  {
    assert a * b <= a' * b by {
      assert a' * b - a * b == (a' - a) * b;
    }
    assert a' * b <= a' * b' by {
      assert a' * b' - a' * b == a' * (b' - b);
    }
  }

  /** The row-major index of (row, col) lies inside a rows x cols image. */
  lemma RowMajorBound(row: int, col: int, rows: int, cols: int)
    requires 0 <= row < rows && 0 <= col < cols
    ensures 0 <= row * cols + col < rows * cols
    ensures row * cols + cols <= rows * cols
  {
    MulMono(row + 1, cols, rows, cols);
    assert (row + 1) * cols == row * cols + cols;
    MulMono(0, cols, row, cols);
  }

  /** A sequence is the concatenation of its three slices around i and j. */
  lemma SplitThree<T>(s: seq<T>, i: nat, j: nat)
    requires i <= j <= |s|
    ensures s == s[..i] + s[i..j] + s[j..]
  {
  }

  /** The row after row `row` of a rows x cols grid still ends inside it. */
  lemma NextRow(row: int, rows: int, cols: int)
    requires 0 <= row < rows && 0 <= cols
    ensures (row + 1) * cols == row * cols + cols <= rows * cols
  {
    MulMono(row + 1, cols, rows, cols);
  }

  lemma MulSucc(a: int, k: int)
    ensures a * (k + 1) == a * k + a
  {
  }
}
