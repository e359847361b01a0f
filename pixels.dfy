/**
 * Bytes and packed ARGB pixels.
 *
 * A Kotlin `Byte` is signed, but every byte in this model is only copied or
 * produced by `toByte()` from a value in 0..255, so the model keeps the unsigned
 * view. A Kotlin `Int` pixel is likewise kept as its unsigned 32-bit view:
 * `(p shr 16) and 0xFF` selects the same eight bits of the word whether the
 * word is read as signed or unsigned.
 */
module Pixels {

  newtype uint8 = b: int | 0 <= b < 0x100

  /** A 32-bit ARGB word, unsigned view. */
  type Argb = p: int | 0 <= p < 0x1_0000_0000

  /** `(p shr 16) and 0xFF` */
  function Red(p: Argb): (r: int)
    ensures 0 <= r < 0x100
  {
    (p / 0x1_0000) % 0x100
  }

  /** `(p shr 8) and 0xFF` */
  function Green(p: Argb): (g: int)
    ensures 0 <= g < 0x100
  {
    (p / 0x100) % 0x100
  }

  /** `p and 0xFF` */
  function Blue(p: Argb): (b: int)
    ensures 0 <= b < 0x100
  {
    p % 0x100
  }

  /**
   * `(0xFF shl 24) or (v shl 16) or (v shl 8) or v`: an opaque grey pixel of
   * level v. The four fields occupy disjoint bits, so the `or` is a sum.
   */
  function Gray(v: int): (p: Argb)
    requires 0 <= v < 0x100
  {
    0xFF00_0000 + v * 0x1_0000 + v * 0x100 + v
  }

  /** The three colour channels of `Gray(v)` are all v, and it is fully opaque. */
  lemma GrayChannels(v: int)
    requires 0 <= v < 0x100
    ensures Red(Gray(v)) == v && Green(Gray(v)) == v && Blue(Gray(v)) == v
    ensures Gray(v) / 0x100_0000 == 0xFF
  {
    DivModUnique(0xFF00 + v, v * 0x100 + v, 0x1_0000);
    DivModUnique(0xFF_0000 + v * 0x100 + v, v, 0x100);
    DivModUnique(0xFF00 + v, v, 0x100);
    DivModUnique(0xFF, v * 0x1_0000 + v * 0x100 + v, 0x100_0000);
  }

  /** Euclidean division of q * k + r by k, for a remainder r in 0..k-1. */
  lemma DivModUnique(q: int, r: int, k: int)
    requires k > 0 && 0 <= r < k
    ensures (q * k + r) / k == q && (q * k + r) % k == r
  {
    var n := q * k + r;
    var q', r' := n / k, n % k;
    assert n == q' * k + r';
    assert (q - q') * k == r' - r by {
      assert (q - q') * k == q * k - q' * k;
    }
    if q' < q {
      MulAtLeast(q - q', k);
    } else if q' > q {
      MulAtLeast(q' - q, k);
    }
  }

  lemma MulAtLeast(a: int, k: int)
    requires a >= 1 && k > 0
    ensures a * k >= k
  {
    if a > 1 {
      MulAtLeast(a - 1, k);
      assert a * k == (a - 1) * k + k;
    }
  }
}
