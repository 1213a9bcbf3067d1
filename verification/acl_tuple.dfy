/**
 * The ACL encoding layer of `rtacl`: six-dimensional tuples and boxes, and the
 * offsets that turn inclusive rule bounds into the strict box test the R-tree
 * offers.
 *
 * A `Tuple` holds either a rule's or a flow's field values in host byte order
 * (source address, destination address, source port, destination port,
 * protocol, DSCP) or the signed coordinates built from them; `FieldsFit` and
 * `CoordsFit` say which integer widths apply.
 */
module AclTuple {
  import opened IntRanges
  import Ipv6Addr

  /** `rtacl::ipv4a` (`s64` coordinates, `u32` addresses) or `rtacl::ipv6a` (`s256`, `u128`). */
  datatype Family = V4 | V6

  /** Number of dimensions of a tuple. */
  const Dim: nat := 6

  /** Offsets handed to `makeTuple` by `makeKey`, `makeMin` and `makeMax`. */
  const OffsetKey: int := 0
  const OffsetMin: int := -1
  const OffsetMax: int := 1

  /** A point of the index, dimensions in the order sa, da, sp, dp, proto, dscp. */
  datatype Tuple = Tuple(sa: int, da: int, sp: int, dp: int, proto: int, dscp: int) {
    /** Coordinate `d`, as `bg::get<d>` reads it. */
    function Get(d: int): int
      requires 0 <= d < Dim
    {
      if d == 0 then sa
      else if d == 1 then da
      else if d == 2 then sp
      else if d == 3 then dp
      else if d == 4 then proto
      else dscp
    }
  }

  /** A box: `min_corner` and `max_corner`. */
  datatype Range = Range(lo: Tuple, hi: Tuple)

  /** What the R-tree stores: a box and the caller's opaque `uintptr_t` handle. */
  datatype Entry = Entry(range: Range, handle: nat)

  predicate AddrFits(fam: Family, a: int)
  {
    if fam == V4 then IsU32(a) else IsU128(a)
  }

  /** The field widths of a rule or flow: addresses of the family, u16 ports, u8 protocol and DSCP. */
  predicate FieldsFit(fam: Family, f: Tuple)
  {
    && AddrFits(fam, f.sa) && AddrFits(fam, f.da)
    && IsU16(f.sp) && IsU16(f.dp)
    && IsU8(f.proto) && IsU8(f.dscp)
  }

  /** Every coordinate fits the family's signed coordinate type. */
  predicate CoordsFit(fam: Family, t: Tuple)
  {
    forall d :: 0 <= d < Dim ==> (if fam == V4 then IsS64(t.Get(d)) else IsS256(t.Get(d)))
  }

  /**
   * `db::makeTuple` (raw-integer overload): every field, widened to the
   * coordinate type, plus the same offset, stored in the fixed dimension order.
   */
  function MakeTuple(f: Tuple, offset: int): (r: Tuple)
    ensures forall d :: 0 <= d < Dim ==> r.Get(d) == f.Get(d) + offset
    ensures -1 <= offset <= 1 && FieldsFit(V4, f) ==> CoordsFit(V4, r)
    ensures -1 <= offset <= 1 && FieldsFit(V6, f) ==> CoordsFit(V6, r)
  {
    Tuple(f.sa + offset, f.da + offset, f.sp + offset, f.dp + offset, f.proto + offset, f.dscp + offset)
  }

  /** `makeMin`: the min corner lies one unit below each inclusive lower bound. */
  function MakeMin(f: Tuple): (r: Tuple)
    ensures forall d :: 0 <= d < Dim ==> r.Get(d) == f.Get(d) - 1
    ensures forall fam :: FieldsFit(fam, f) ==> CoordsFit(fam, r)
  {
    MakeTuple(f, OffsetMin)
  }

  /** `makeMax`: the max corner lies one unit above each inclusive upper bound. */
  function MakeMax(f: Tuple): (r: Tuple)
    ensures forall d :: 0 <= d < Dim ==> r.Get(d) == f.Get(d) + 1
    ensures forall fam :: FieldsFit(fam, f) ==> CoordsFit(fam, r)
  {
    MakeTuple(f, OffsetMax)
  }

  /** `makeKey`: a search key keeps the field values unchanged. */
  function MakeKey(f: Tuple): (r: Tuple)
    ensures r == f
    ensures forall fam :: FieldsFit(fam, f) ==> CoordsFit(fam, r)
  {
    MakeTuple(f, OffsetKey)
  }

  /**
   * The `sockaddr_in6` overload of `makeTuple`: the addresses are the
   * big-endian values of the sixteen `sin6_addr` octets (`sin6a2int`).
   */
  function MakeTupleV6(srcAddr: seq<Byte>, dstAddr: seq<Byte>, srcPort: int, dstPort: int,
                       proto: int, dscp: int, offset: int): (r: Tuple)
    requires |srcAddr| == Ipv6Addr.AddrLen && |dstAddr| == Ipv6Addr.AddrLen
    ensures r.sa == Ipv6Addr.BigEndian(srcAddr) + offset && r.da == Ipv6Addr.BigEndian(dstAddr) + offset
    ensures r.sp == srcPort + offset && r.dp == dstPort + offset
    ensures r.proto == proto + offset && r.dscp == dscp + offset
    ensures -1 <= offset <= 1 && IsU16(srcPort) && IsU16(dstPort) && IsU8(proto) && IsU8(dscp)
            ==> CoordsFit(V6, r)
  {
    Ipv6Addr.Pow256Of16();
    MakeTuple(Tuple(Ipv6Addr.BigEndian(srcAddr), Ipv6Addr.BigEndian(dstAddr),
                    srcPort, dstPort, proto, dscp), offset)
  }

  /** The box a rule with inclusive bounds `lo`..`hi` is stored under. */
  function EncodeRule(lo: Tuple, hi: Tuple): Range
  {
    Range(MakeMin(lo), MakeMax(hi))
  }

  /** A box the index accepts: `min_corner <= max_corner` in every dimension. */
  predicate WellFormed(r: Range)
  {
    forall d :: 0 <= d < Dim ==> r.lo.Get(d) <= r.hi.Get(d)
  }

  /** Boost's `within(point, box)`, the test behind `bgi::contains`: strictly inside in every dimension. */
  predicate StrictlyContains(r: Range, k: Tuple)
  {
    forall d :: 0 <= d < Dim ==> r.lo.Get(d) < k.Get(d) < r.hi.Get(d)
  }

  /** Boost's `covered_by(box, box)`: `r` lies inside `b`, boundaries included. */
  predicate CoveredBy(r: Range, b: Range)
  {
    forall d :: 0 <= d < Dim ==> b.lo.Get(d) <= r.lo.Get(d) && r.hi.Get(d) <= b.hi.Get(d)
  }

  /** The ACL meaning of a rule: every field of the flow lies in the rule's closed interval. */
  predicate InclusiveMatch(lo: Tuple, hi: Tuple, k: Tuple)
  {
    forall d :: 0 <= d < Dim ==> lo.Get(d) <= k.Get(d) <= hi.Get(d)
  }

  /**
   * The bound adjustment of `range2str`: `+1` on the min corner and `-1` on
   * the max corner before the values are printed.
   */
  function RangeBounds(r: Range): (b: (Tuple, Tuple))
    ensures forall d :: 0 <= d < Dim ==> b.0.Get(d) == r.lo.Get(d) + 1 && b.1.Get(d) == r.hi.Get(d) - 1
  {
    (MakeTuple(r.lo, 1), MakeTuple(r.hi, -1))
  }

  /**
   * The four numbers `ipv4a2s` prints for an `s64` coordinate: the value is
   * masked with `0xff000000`, `0xff0000`, `0xff00` (as a `u64`) and shifted
   * right by 24, 16 and 8, and the last is masked with `0xff`.
   */
  function Ipv4Octets(a: int): (o: seq<int>)
    ensures |o| == 4
    ensures forall i :: 0 <= i < 4 ==> IsU8(o[i])
    ensures IsU32(a) ==> o[0] * 0x100_0000 + o[1] * 0x1_0000 + o[2] * 0x100 + o[3] == a
  {
    OctetsRecombine(a);
    [(a / 0x100_0000) % 0x100, (a / 0x1_0000) % 0x100, (a / 0x100) % 0x100, a % 0x100]
  }

  /** The four shifted-and-masked octets of a `u32` put back together give the address. */
  lemma OctetsRecombine(a: int)
    ensures IsU32(a) ==>
              ((a / 0x100_0000) % 0x100) * 0x100_0000 + ((a / 0x1_0000) % 0x100) * 0x1_0000
              + ((a / 0x100) % 0x100) * 0x100 + a % 0x100 == a
  {
    if IsU32(a) {
      var q1, b0 := a / 0x100, a % 0x100;
      var q2, b1 := q1 / 0x100, q1 % 0x100;
      var q3, b2 := q2 / 0x100, q2 % 0x100;
      assert a == 0x100_0000 * q3 + (0x1_0000 * b2 + 0x100 * b1 + b0);
      DivUnique(a, 0x1_0000, q2, 0x100 * b1 + b0);
      DivUnique(a, 0x100_0000, q3, 0x1_0000 * b2 + 0x100 * b1 + b0);
      assert q3 < 0x100;
    }
  }
}
