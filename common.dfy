/** Types, constants and arithmetic facts shared by the texture sample's model. */
module Common {

  /** An unsigned byte (UINT8). */
  newtype UInt8 = x: int | 0 <= x < 0x100

  /** Every value of a 32-bit UINT lies below this bound. */
  const UIntLimit: nat := 0x1_0000_0000

  /** Number of swap-chain back buffers (frameBufferCount). */
  const FrameBufferCount: nat := 2

  /** Division of `n == q * d + r` by `d` recovers the quotient `q` and the remainder `r`. */
  lemma DivModOf(n: nat, q: nat, r: nat, d: nat)
    requires n == q * d + r && r < d
    ensures n / d == q
    ensures n % d == r
  {
    var q', r' := n / d, n % d;
    assert n == q' * d + r' && 0 <= r' < d;
    if q' < q {
      MulAtLeast(q - q', d);
      assert false;
    } else if q' > q {
      MulAtLeast(q' - q, d);
      assert false;
    }
  }

  /** A positive multiple of `d` is at least `d`. */
  lemma MulAtLeast(k: nat, d: nat)
    requires 1 <= k
    ensures k * d >= d
  {
    assert k * d == (k - 1) * d + d;
  }

  /** Multiplication by a natural number is monotonic. */
  lemma MulLeft(a: nat, b: nat, c: nat)
    requires a <= b
    ensures a * c <= b * c
  {
    assert b * c == a * c + (b - a) * c;
  }
}
