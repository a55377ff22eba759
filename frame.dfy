// Header classification and rewrite of one received frame (fwd/main.c:251-283).
// A frame is the byte payload of an mbuf. The Ethernet II header (IEEE 802.3) is
// destination MAC (bytes 0-5), source MAC (6-11) and EtherType (12-13, big-endian);
// the IPv4 header of RFC 791 follows at byte 14, and its source address sits at
// offset 12 of that header (section 3.1 of RFC 791), i.e. frame bytes 26-29.
module Frame {
  import opened Types

  const ETHER_HDR_LEN: nat := 14
  const ETHER_TYPE_OFFSET: nat := 12
  const IPV4_SRC_OFFSET: nat := 12
  /** An Ethernet header followed by a fixed 20-byte IPv4 header. */
  const MIN_FRAME: nat := 34
  /** rte_pktmbuf_pkt_len is a uint32_t. */
  const MAX_PKT_LEN: nat := 0xFFFF_FFFF
  const ETHER_TYPE_IPV4: u16 := 0x0800
  const MAC_LEN: nat := 6
  /** The destination MAC every forwarded frame is given. */
  const FWD_DST_MAC: seq<byte> := [0x00, 0x11, 0x22, 0x33, 0x44, 0x55]

  type Frame = seq<byte>

  /** A frame whose headers the worker may read: the source reads them without a length check. */
  predicate Parsable(f: Frame) {
    MIN_FRAME <= |f| <= MAX_PKT_LEN
  }

  /** rte_be_to_cpu_16 applied to the two bytes at `off`. */
  function Be16(b: seq<byte>, off: nat): (r: u16)
    requires off + 2 <= |b|
    ensures r / 0x100 == b[off] as int && r % 0x100 == b[off + 1] as int
  {
    (b[off] as int) * 0x100 + b[off + 1] as int
  }

  /** rte_be_to_cpu_32 applied to the four bytes at `off`. */
  function Be32(b: seq<byte>, off: nat): (r: u32)
    requires off + 4 <= |b|
    ensures r / 0x100_0000 == b[off] as int && r % 0x100 == b[off + 3] as int
  {
    var b0: int, b1: int, b2: int, b3: int := b[off], b[off + 1], b[off + 2], b[off + 3];
    SplitAt(b0 * 0x1_0000 + b1 * 0x100 + b2, b3, 0x100);
    SplitAt(b0, b1 * 0x1_0000 + b2 * 0x100 + b3, 0x100_0000);
    b0 * 0x100_0000 + b1 * 0x1_0000 + b2 * 0x100 + b3
  }

  /** Network byte order of a 16-bit value: the inverse of Be16. */
  function ToBe16(x: u16): (r: seq<byte>)
    ensures |r| == 2
  {
    [x / 0x100, x % 0x100]
  }

  /** Network byte order of a 32-bit value: the inverse of Be32. */
  function ToBe32(x: u32): (r: seq<byte>)
    ensures |r| == 4
  {
    [x / 0x100_0000, (x / 0x1_0000) % 0x100, (x / 0x100) % 0x100, x % 0x100]
  }

  lemma Be16OfToBe16(x: u16)
    ensures Be16(ToBe16(x), 0) == x
  {
  }

  lemma ToBe16OfBe16(b: seq<byte>, off: nat)
    requires off + 2 <= |b|
    ensures ToBe16(Be16(b, off)) == b[off..off + 2]
  {
  }

  lemma Be32OfToBe32(x: u32)
    ensures Be32(ToBe32(x), 0) == x
  {
    var q1, r3 := x / 0x100, x % 0x100;
    var q2, r2 := q1 / 0x100, q1 % 0x100;
    var q3, r1 := q2 / 0x100, q2 % 0x100;
    assert x == q2 * 0x1_0000 + (r2 * 0x100 + r3);
    SplitAt(q2, r2 * 0x100 + r3, 0x1_0000);
    assert x == q3 * 0x100_0000 + (r1 * 0x1_0000 + r2 * 0x100 + r3);
    SplitAt(q3, r1 * 0x1_0000 + r2 * 0x100 + r3, 0x100_0000);
    assert ToBe32(x) == [q3, r1, r2, r3];
  }

  lemma ToBe32OfBe32(b: seq<byte>, off: nat)
    requires off + 4 <= |b|
    ensures ToBe32(Be32(b, off)) == b[off..off + 4]
  {
    var b0: int, b1: int, b2: int, b3: int := b[off], b[off + 1], b[off + 2], b[off + 3];
    var x := Be32(b, off);
    SplitAt(b0 * 0x1_0000 + b1 * 0x100 + b2, b3, 0x100);
    SplitAt(b0 * 0x100 + b1, b2, 0x100);
    SplitAt(b0 * 0x100 + b1, b2 * 0x100 + b3, 0x1_0000);
    SplitAt(b0, b1, 0x100);
    SplitAt(b0, b1 * 0x1_0000 + b2 * 0x100 + b3, 0x100_0000);
    assert ToBe32(x) == [b0, b1, b2, b3];
  }

  /** Quotient and remainder of `q * d + r` when `0 <= r < d`. */
  lemma SplitAt(q: int, r: int, d: int)
    requires 0 < d && 0 <= r < d
    ensures (q * d + r) / d == q && (q * d + r) % d == r
  {
    var n := q * d + r;
    var q', r' := n / d, n % d;
    assert q' * d + r' == q * d + r;
    assert (q' - q) * d == r - r';
    if q' > q {
      MulAtLeast(q' - q, d);
    } else if q' < q {
      MulAtLeast(q - q', d);
    }
  }

  lemma MulAtLeast(k: int, d: int)
    requires k >= 1 && d > 0
    ensures k * d >= d
  {
  }

  /** The EtherType field, host byte order (line 258). */
  function EtherType(f: Frame): (t: u16)
    requires ETHER_TYPE_OFFSET + 2 <= |f|
    ensures t / 0x100 == f[12] as int && t % 0x100 == f[13] as int
  {
    Be16(f, ETHER_TYPE_OFFSET)
  }

  /** The IPv4 source address, host byte order (lines 266-269). */
  function Ipv4Src(f: Frame): (a: u32)
    requires Parsable(f)
    ensures a / 0x100_0000 == f[26] as int && a % 0x100 == f[29] as int
  {
    Be32(f, ETHER_HDR_LEN + IPV4_SRC_OFFSET)
  }

  /** rte_ether_addr_copy of FWD_DST_MAC over the destination MAC (lines 279-283). */
  function SetDstMac(f: Frame): (g: Frame)
    requires MAC_LEN <= |f|
    ensures |g| == |f|
    ensures g[..MAC_LEN] == FWD_DST_MAC
    ensures forall i :: MAC_LEN <= i < |f| ==> g[i] == f[i]
  {
    FWD_DST_MAC + f[MAC_LEN..]
  }

  /** The rewrite leaves the fields the filter reads untouched, and is idempotent. */
  lemma SetDstMacKeepsHeaders(f: Frame)
    requires Parsable(f)
    ensures Parsable(SetDstMac(f))
    ensures EtherType(SetDstMac(f)) == EtherType(f)
    ensures Ipv4Src(SetDstMac(f)) == Ipv4Src(f)
    ensures SetDstMac(SetDstMac(f)) == SetDstMac(f)
  {
    var g := SetDstMac(f);
    assert SetDstMac(g) == FWD_DST_MAC + g[MAC_LEN..];
    assert g[MAC_LEN..] == f[MAC_LEN..];
  }
}
