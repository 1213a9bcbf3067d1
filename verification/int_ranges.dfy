/**
 * Fixed-width integer ranges of the C++ source, stated over unbounded `int`.
 *
 * The ACL fields arrive as unsigned values (u8 protocol and DSCP, u16 ports,
 * u32 or u128 addresses); the index stores them in signed coordinates (s64 for
 * IPv4, s256 for IPv6). The profiler counts in u32 and times in s64 nanoseconds.
 */
module IntRanges {

  const U8_LIMIT: int := 0x100
  const U16_LIMIT: int := 0x1_0000
  const U32_LIMIT: int := 0x1_0000_0000
  const U128_LIMIT: int := 0x1_0000_0000_0000_0000_0000_0000_0000_0000

  const S64_MIN: int := -0x8000_0000_0000_0000
  const S64_MAX: int := 0x7fff_ffff_ffff_ffff
  /**
   * Two's-complement bounds. The source's `s256` is Boost's `int256_t`, a
   * sign-and-magnitude type holding every value of magnitude below 2^256;
   * this range lies inside that one, so whatever is shown to fit here also
   * fits the source's type.
   */
  const S256_MIN: int := -0x8000_0000_0000_0000_0000_0000_0000_0000_0000_0000_0000_0000_0000_0000_0000_0000
  const S256_MAX: int := 0x7fff_ffff_ffff_ffff_ffff_ffff_ffff_ffff_ffff_ffff_ffff_ffff_ffff_ffff_ffff_ffff

  /** One octet of an address (`u8`). */
  type Byte = x: int | 0 <= x < 0x100

  predicate IsU8(x: int) { 0 <= x < U8_LIMIT }
  predicate IsU16(x: int) { 0 <= x < U16_LIMIT }
  predicate IsU32(x: int) { 0 <= x < U32_LIMIT }
  predicate IsU128(x: int) { 0 <= x < U128_LIMIT }
  predicate IsS64(x: int) { S64_MIN <= x <= S64_MAX }
  predicate IsS256(x: int) { S256_MIN <= x <= S256_MAX }

  /** Conversion of any integer to `u32` (C++ keeps the value modulo 2^32). */
  function ToU32(x: int): (r: int)
    ensures IsU32(r)
    ensures IsU32(x) ==> r == x
    ensures (x - r) % U32_LIMIT == 0
  {
    x % U32_LIMIT
  }

  /** C++ integer division of a signed value by a positive one: rounds toward zero. */
  function TruncDiv(a: int, b: int): (q: int)
    requires b > 0
    ensures 0 <= a ==> 0 <= q && q * b <= a < q * b + b
    ensures a < 0 ==> q <= 0 && q * b - b < a <= q * b
  {
    if a >= 0 then a / b else -((-a) / b)
  }

  /** A positive multiple of `d` is at least `d`. */
  lemma MulAtLeast(d: nat, k: nat)
    requires k >= 1
    ensures d * k >= d
  {
  }

  /** Negating a factor negates the product. */
  lemma MulNeg(d: int, k: int)
    ensures d * -k == -(d * k)
  {
  }

  /** Euclidean division has one quotient: `n = d q + r` with `0 <= r < d` fixes `q`. */
  lemma DivUnique(n: int, d: int, q: int, r: int)
    requires d > 0 && 0 <= r < d && n == d * q + r
    ensures n / d == q
  {
    var k := n / d - q;
    assert d * k == r - n % d by {
      assert d * k == d * (n / d) - d * q;
      assert n == d * (n / d) + n % d;
    }
    if k >= 1 {
      MulAtLeast(d, k);
    } else if k <= -1 {
      MulNeg(d, k);
      MulAtLeast(d, -k);
    }
  }
}
