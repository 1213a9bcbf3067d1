/**
 * The IPv6 address conversions `sin6a2int` and `int2sin6`: the sixteen octets
 * of `sin6_addr` (most significant first) against one wide unsigned integer.
 *
 * `BigEndian` and `ToBytes` are the reference readings of the two directions;
 * the methods follow the source loops and are proved to agree with them.
 */
module Ipv6Addr {
  import opened IntRanges

  /** Number of octets in `sin6_addr.s6_addr`. */
  const AddrLen: nat := 16

  function Pow256(n: nat): (p: nat)
    ensures p >= 1
  {
    if n == 0 then 1 else 256 * Pow256(n - 1)
  }

  /** The value of `bs` read as a big-endian number. */
  function BigEndian(bs: seq<Byte>): (v: nat)
    ensures v < Pow256(|bs|)
    decreases |bs|
  {
    if |bs| == 0 then 0 else BigEndian(bs[..|bs| - 1]) * 256 + bs[|bs| - 1]
  }

  /** The low `n` octets of `x`, most significant first. */
  function ToBytes(x: nat, n: nat): (bs: seq<Byte>)
    ensures |bs| == n
  {
    if n == 0 then [] else ToBytes(x / 256, n - 1) + [x % 256]
  }

  lemma Pow256Of16()
    ensures Pow256(AddrLen) == U128_LIMIT
  {
    assert Pow256(2) == 0x1_0000;
    assert Pow256(4) == 0x1_0000_0000;
    assert Pow256(6) == 0x1_0000_0000_0000;
    assert Pow256(8) == 0x1_0000_0000_0000_0000;
    assert Pow256(10) == 0x1_0000_0000_0000_0000_0000;
    assert Pow256(12) == 0x1_0000_0000_0000_0000_0000_0000;
    assert Pow256(14) == 0x1_0000_0000_0000_0000_0000_0000_0000;
  }

  /** Shifting right by eight bits and then by `8 * k` bits is one shift by `8 * (k + 1)`. */
  lemma DivDiv256(x: nat, k: nat)
    ensures (x / 256) / Pow256(k) == x / Pow256(k + 1)
  {
    var p := Pow256(k);
    var q := (x / 256) / p;
    var r := (x / 256) % p;
    assert x / 256 == p * q + r;
    assert x == 256 * (p * q + r) + x % 256;
    assert x == (256 * p) * q + (256 * r + x % 256);
    DivUnique(x, 256 * p, q, 256 * r + x % 256);
  }

  /** `(x >> 8j)` truncated to `u8`: octet `j` of `x` counted from the least significant end. */
  function Octet(x: nat, j: nat): Byte
  {
    (x / Pow256(j)) % 256
  }

  lemma {:induction false} ToBytesDigit(x: nat, n: nat, j: nat)
    requires j < n
    ensures ToBytes(x, n)[n - 1 - j] == Octet(x, j)
    decreases n
  {
    if j == 0 {
    } else {
      ToBytesDigit(x / 256, n - 1, j - 1);
      DivDiv256(x, j - 1);
    }
  }

  /** Reading back the octets of a value below 2^(8n) gives the value. */
  lemma {:induction false} BigEndianOfToBytes(x: nat, n: nat)
    requires x < Pow256(n)
    ensures BigEndian(ToBytes(x, n)) == x
    decreases n
  {
    if n > 0 {
      var bs := ToBytes(x, n);
      BigEndianOfToBytes(x / 256, n - 1);
      assert bs[..n - 1] == ToBytes(x / 256, n - 1);
    }
  }

  /** Splitting a big-endian value into octets gives back the octets. */
  lemma {:induction false} ToBytesOfBigEndian(bs: seq<Byte>)
    ensures ToBytes(BigEndian(bs), |bs|) == bs
    decreases |bs|
  {
    if |bs| > 0 {
      var n := |bs|;
      var init := bs[..n - 1];
      ToBytesOfBigEndian(init);
      var v := BigEndian(bs);
      assert v / 256 == BigEndian(init);
      assert v % 256 == bs[n - 1];
      assert bs == init + [bs[n - 1]];
    }
  }

  /**
   * `sin6a2int`: shift the accumulator left by eight bits after each of the
   * first fifteen octets and or in the next one; the accumulator's low octet is
   * zero at every `|=`, so the or is an addition.
   */
  method Sin6aToInt(addr: seq<Byte>) returns (v: nat)
    requires |addr| == AddrLen
    ensures v == BigEndian(addr)
    ensures IsU128(v)
    ensures ToBytes(v, AddrLen) == addr
  {
    v := 0;
    var i := 0;
    while i < AddrLen - 1
      invariant 0 <= i <= AddrLen - 1
      invariant v == BigEndian(addr[..i]) * 256
    {
      assert addr[..i + 1][..i] == addr[..i];
      v := v + addr[i];
      v := v * 256;
      i := i + 1;
    }
    assert addr[..i][..i] == addr[..i];
    assert addr[..i + 1] == addr;
    v := v + addr[i];
    Pow256Of16();
    ToBytesOfBigEndian(addr);
  }

  /**
   * `int2sin6`: octet `15 - i` of the result is `(x >> 8i)` truncated to `u8`.
   */
  method IntToSin6(x: nat) returns (addr: seq<Byte>)
    ensures addr == ToBytes(x, AddrLen)
    ensures IsU128(x) ==> BigEndian(addr) == x
  {
    addr := seq(AddrLen, _ => 0);
    var i := 0;
    while i < AddrLen
      invariant 0 <= i <= AddrLen
      invariant |addr| == AddrLen
      invariant forall j :: 0 <= j < i ==> addr[AddrLen - 1 - j] == Octet(x, j)
    {
      addr := addr[AddrLen - 1 - i := Octet(x, i)];
      i := i + 1;
    }
    var ref := ToBytes(x, AddrLen);
    forall k | 0 <= k < AddrLen
      ensures addr[k] == ref[k]
    {
      ToBytesDigit(x, AddrLen, AddrLen - 1 - k);
    }
    Pow256Of16();
    if IsU128(x) {
      BigEndianOfToBytes(x, AddrLen);
    }
  }
}
