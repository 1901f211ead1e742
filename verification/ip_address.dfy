/** IP-address hosts and the address classes the validator refuses to
    archive: the `is_loopback`, `is_private`, `is_multicast` and
    `is_unspecified` tests of Rust's `Ipv4Addr` and `is_loopback`,
    `is_multicast` of `Ipv6Addr`, each written the way the standard library
    tests octets or segments, and each proved equal to the address block
    that the defining RFC states as a range of numeric addresses. */
module IpAddress {

  type Octet = x: int | 0 <= x < 0x100
  type Segments = s: seq<bv16> | |s| == 8 witness [0, 0, 0, 0, 0, 0, 0, 0]

  /** An IPv4 address by its four octets, most significant first. */
  datatype Ipv4 = Ipv4(a: Octet, b: Octet, c: Octet, d: Octet)

  /** An IPv6 address by its eight 16-bit segments, most significant first. */
  datatype Ipv6 = Ipv6(segments: Segments)

  predicate IsLoopbackV4(ip: Ipv4) {
    ip.a == 127
  }

  predicate IsPrivateV4(ip: Ipv4) {
    || ip.a == 10
    || (ip.a == 172 && 16 <= ip.b <= 31)
    || (ip.a == 192 && ip.b == 168)
  }

  predicate IsMulticastV4(ip: Ipv4) {
    224 <= ip.a <= 239
  }

  predicate IsUnspecifiedV4(ip: Ipv4) {
    ip.a == 0 && ip.b == 0 && ip.c == 0 && ip.d == 0
  }

  /** The IPv4 classes the validator rejects. */
  predicate UnsafeV4(ip: Ipv4) {
    IsLoopbackV4(ip) || IsPrivateV4(ip) || IsMulticastV4(ip) || IsUnspecifiedV4(ip)
  }

  predicate IsLoopbackV6(ip: Ipv6) {
    ip.segments == [0, 0, 0, 0, 0, 0, 0, 1]
  }

  /** The first segment's high byte is all ones. */
  predicate IsMulticastV6(ip: Ipv6) {
    ip.segments[0] & 0xff00 == 0xff00
  }

  /** The IPv6 classes the validator rejects; nothing else about an IPv6
      host is refused (no unique-local, link-local or unspecified test). */
  predicate UnsafeV6(ip: Ipv6) {
    IsLoopbackV6(ip) || IsMulticastV6(ip)
  }

  /** The address as one 32-bit number, `u32::from(ip)`. */
  function ToU32(ip: Ipv4): nat {
    ip.a * 0x100_0000 + ip.b * 0x1_0000 + ip.c * 0x100 + ip.d
  }

  /** The address as one 128-bit number, `u128::from(ip)`. */
  function ToU128(ip: Ipv6): nat {
    var s := ip.segments;
    (s[0] as int) * 0x1_0000_0000_0000_0000_0000_0000_0000
    + (s[1] as int) * 0x1_0000_0000_0000_0000_0000_0000
    + (s[2] as int) * 0x1_0000_0000_0000_0000_0000 + (s[3] as int) * 0x1_0000_0000_0000_0000
    + (s[4] as int) * 0x1_0000_0000_0000 + (s[5] as int) * 0x1_0000_0000
    + (s[6] as int) * 0x1_0000 + (s[7] as int)
  }

  /** `v` lies in the block of `size` addresses starting at `base`. */
  predicate InBlock(v: int, base: int, size: int) {
    base <= v < base + size
  }

  /** The private-use blocks of section 3 of RFC 1918: 10.0.0.0/8,
      172.16.0.0/12 and 192.168.0.0/16. */
  lemma PrivateIsRfc1918(ip: Ipv4)
    ensures IsPrivateV4(ip) <==>
      || InBlock(ToU32(ip), ToU32(Ipv4(10, 0, 0, 0)), 0x100_0000)
      || InBlock(ToU32(ip), ToU32(Ipv4(172, 16, 0, 0)), 0x10_0000)
      || InBlock(ToU32(ip), ToU32(Ipv4(192, 168, 0, 0)), 0x1_0000)
  {
  }

  /** Every rejected IPv4 class is an address block: 0.0.0.0/32 (unspecified),
      127.0.0.0/8 (loopback), the RFC 1918 blocks and 224.0.0.0/4 (multicast). */
  lemma UnsafeV4Blocks(ip: Ipv4)
    ensures UnsafeV4(ip) <==>
      || ToU32(ip) == 0
      || InBlock(ToU32(ip), ToU32(Ipv4(127, 0, 0, 0)), 0x100_0000)
      || InBlock(ToU32(ip), ToU32(Ipv4(10, 0, 0, 0)), 0x100_0000)
      || InBlock(ToU32(ip), ToU32(Ipv4(172, 16, 0, 0)), 0x10_0000)
      || InBlock(ToU32(ip), ToU32(Ipv4(192, 168, 0, 0)), 0x1_0000)
      || InBlock(ToU32(ip), ToU32(Ipv4(224, 0, 0, 0)), 0x1000_0000)
  {
    PrivateIsRfc1918(ip);
  }

  /** A segment read as a number: at most 16 bits, and 0 and 1 only for the
      segments 0 and 1. */
  lemma SegmentValue(v: bv16)
    ensures 0 <= v as int < 0x1_0000
    ensures v as int == 0 <==> v == 0
    ensures v as int == 1 <==> v == 1
  {
  }

  /** The loopback address ::1 of section 2.5.3 of RFC 4291 is the number 1. */
  lemma LoopbackV6IsOne(ip: Ipv6)
    ensures IsLoopbackV6(ip) <==> ToU128(ip) == 1
  {
    var s := ip.segments;
    SegmentValue(s[0]);
    SegmentValue(s[1]);
    SegmentValue(s[2]);
    SegmentValue(s[3]);
    SegmentValue(s[4]);
    SegmentValue(s[5]);
    SegmentValue(s[6]);
    SegmentValue(s[7]);
    if ToU128(ip) == 1 {
      assert s[7] as int == 1;
      assert s[0] as int == 0 && s[1] as int == 0 && s[2] as int == 0 && s[3] as int == 0;
      assert s[4] as int == 0 && s[5] as int == 0 && s[6] as int == 0;
      assert s == [0, 0, 0, 0, 0, 0, 0, 1];
    }
  }

  /** The high byte of a segment is all ones exactly when the segment, read as
      a number, is at least 0xff00. */
  lemma HighByteMask(v: bv16)
    ensures v & 0xff00 == 0xff00 <==> (v as int) >= 0xff00
  {
    assert v & 0xff00 == 0xff00 <==> v >= 0xff00;
  }

  /** The first segment carries the top 16 bits of the 128-bit number. */
  lemma TopSegment(ip: Ipv6)
    ensures 0xff00_0000_0000_0000_0000_0000_0000_0000 <= ToU128(ip) <==> (ip.segments[0] as int) >= 0xff00
  {
  }

  /** Multicast addresses are the prefix ff00::/8 of section 2.7 of RFC 4291:
      the top 8 of the 128 bits are all ones. */
  lemma MulticastV6IsPrefix(ip: Ipv6)
    ensures IsMulticastV6(ip) <==> 0xff00_0000_0000_0000_0000_0000_0000_0000 <= ToU128(ip)
  {
    HighByteMask(ip.segments[0]);
    TopSegment(ip);
  }
}
