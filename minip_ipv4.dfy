/**
 * The IPv4 helpers of lib/minip/minip.c: random MAC addresses, dotted
 * decimal address parsing and printing, the header minip builds for an
 * outgoing packet and the checks an incoming packet must pass.
 */
module MinipIpv4 {
  import opened Lk
  import opened MinipNet
  import opened MinipChksum

  // gen_random_mac_address

  /** mac[0] &= ~(1<<0); mac[0] |= (1<<1): unicast and locally administered, the other bits kept. */
  function UnicastLocal(b: byte): (r: byte)
    ensures r % 2 == 0 && (r / 2) % 2 == 1 && r / 4 == b / 4
  {
    var c := b - b % 2;
    if c % 4 < 2 then c + 2 else c
  }

  /**
   * gen_random_mac_address, with the six rand() results it draws given as
   * rands: each byte is the low byte of one draw, and the first is made a
   * unicast, locally administered address.
   */
  method GenRandomMac(mac: array<byte>, rands: seq<nat>)
    requires mac.Length == 6 && |rands| == 6
    modifies mac
    ensures mac[0] % 2 == 0 && (mac[0] / 2) % 2 == 1 && mac[0] / 4 == (rands[0] % 0x100) as byte / 4
    ensures forall i :: 1 <= i < 6 ==> mac[i] == (rands[i] % 0x100) as byte
  {
    for i := 0 to 6
      invariant forall j :: 0 <= j < i ==> mac[j] == (rands[j] % 0x100) as byte
    {
      mac[i] := (rands[i] % 0x100) as byte;
    }
    mac[0] := UnicastLocal(mac[0]);
  }

  // minip_parse_ipaddr and print_ipv4_address

  const DOT: byte := 0x2E
  const NUL: byte := 0
  const ZERO: byte := 0x30

  /** IPV4_PACK of the four octets. */
  function Pack(ip: seq<byte>): Ipv4Addr
    requires |ip| == 4
  {
    Ipv4(ip[0], ip[1], ip[2], ip[3])
  }

  /** ip[i] *= 10; ip[i] += c - '0', both in uint8_t arithmetic. */
  function Digit(x: byte, c: byte): byte
  {
    (((x as int * 10) % 0x100 + c as int - ZERO as int) % 0x100) as byte
  }

  /** What minip_parse_ipaddr gives: an address, or the write past ip[3] that a fifth octet makes. */
  datatype Parsed = Addr(addr: Ipv4Addr) | OutOfBounds

  /**
   * The loop of minip_parse_ipaddr as written over the bytes t still to
   * scan, with the current octet i and the octets ip so far: a '.' moves to
   * the next octet with no bound on i, a NUL or the end of t ends the scan,
   * anything else is a digit added into octet i.
   */
  function ScanAsWritten(t: seq<byte>, i: nat, ip: seq<byte>): Parsed
    requires |ip| == 4
  {
    if t == [] then Addr(Pack(ip))
    else if t[0] == DOT then ScanAsWritten(t[1..], i + 1, ip)
    else if t[0] == NUL then Addr(Pack(ip))
    else if i >= 4 then OutOfBounds
    else ScanAsWritten(t[1..], i, ip[i := Digit(ip[i], t[0])])
  }

  /** minip_parse_ipaddr(s, len) as written. */
  function ParseAsWritten(s: seq<byte>, len: nat): Parsed
    requires len <= |s|
  {
    ScanAsWritten(s[..len], 0, [0, 0, 0, 0])
  }

  /** minip_parse_ipaddr: its loop over the first len bytes of s. */
  method ParseIpAddr(s: seq<byte>, len: nat) returns (r: Parsed)
    requires len <= |s| && len < 0x100
    ensures r == ParseAsWritten(s, len)
  {
    var ip := new byte[4](_ => 0);
    assert ip[..] == [0, 0, 0, 0];
    var pos: nat, i: nat := 0, 0;
    while pos < len
      invariant pos <= len && ip.Length == 4
      invariant ScanAsWritten(s[pos..len], i, ip[..]) == ParseAsWritten(s, len)
      decreases len - pos
    {
      var c := s[pos];
      assert s[pos..len][1..] == s[pos + 1..len];
      if c == DOT {
        i := i + 1;
      } else if c == NUL {
        break;
      } else {
        if i >= 4 {
          return OutOfBounds;
        }
        ip[i] := Digit(ip[i], c);
      }
      pos := pos + 1;
    }
    return Addr(Pack(ip[..]));
  }

  /** The scan with the write kept inside ip[]: a fourth '.' ends the address. */
  function Scan(t: seq<byte>, i: nat, ip: seq<byte>): Ipv4Addr
    requires |ip| == 4 && i < 4
  {
    if t == [] then Pack(ip)
    else if t[0] == DOT then (if i == 3 then Pack(ip) else Scan(t[1..], i + 1, ip))
    else if t[0] == NUL then Pack(ip)
    else Scan(t[1..], i, ip[i := Digit(ip[i], t[0])])
  }

  function ParseIpv4(s: seq<byte>, len: nat): Ipv4Addr
    requires len <= |s|
  {
    Scan(s[..len], 0, [0, 0, 0, 0])
  }

  /** Past the fourth octet the scan as written either overruns ip[] or ends with the octets unchanged. */
  lemma {:induction false} PastFourthOctet(t: seq<byte>, i: nat, ip: seq<byte>)
    requires |ip| == 4 && i >= 4
    ensures ScanAsWritten(t, i, ip) == OutOfBounds || ScanAsWritten(t, i, ip) == Addr(Pack(ip))
  {
    if t != [] && t[0] == DOT {
      PastFourthOctet(t[1..], i + 1, ip);
    }
  }

  /** Whenever the scan as written stays inside ip[], the bounded scan gives the same address. */
  lemma {:induction false} BoundedAgreesFrom(t: seq<byte>, i: nat, ip: seq<byte>)
    requires |ip| == 4 && i < 4
    ensures ScanAsWritten(t, i, ip) != OutOfBounds ==> ScanAsWritten(t, i, ip) == Addr(Scan(t, i, ip))
  {
    if t != [] {
      if t[0] == DOT {
        if i == 3 {
          PastFourthOctet(t[1..], 4, ip);
        } else {
          BoundedAgreesFrom(t[1..], i + 1, ip);
        }
      } else if t[0] != NUL {
        BoundedAgreesFrom(t[1..], i, ip[i := Digit(ip[i], t[0])]);
      }
    }
  }

  lemma BoundedAgrees(s: seq<byte>, len: nat)
    requires len <= |s|
    ensures ParseAsWritten(s, len) != OutOfBounds ==> ParseAsWritten(s, len) == Addr(ParseIpv4(s, len))
  {
    BoundedAgreesFrom(s[..len], 0, [0, 0, 0, 0]);
  }

  /** A digit after a fourth '.': "....1" makes the scan as written write ip[4]. */
  lemma FifthOctetOverruns()
    ensures ParseAsWritten([DOT, DOT, DOT, DOT, 0x31], 5) == OutOfBounds
    ensures ParseIpv4([DOT, DOT, DOT, DOT, 0x31], 5) == Pack([0, 0, 0, 0])
  {
    var s4: seq<byte> := [DOT, DOT, DOT, DOT, 0x31];
    var s3: seq<byte> := [DOT, DOT, DOT, 0x31];
    var s2: seq<byte> := [DOT, DOT, 0x31];
    var s1: seq<byte> := [DOT, 0x31];
    var z: seq<byte> := [0, 0, 0, 0];
    assert s4[..5] == s4 && s4[1..] == s3 && s3[1..] == s2 && s2[1..] == s1 && s1[1..] == [0x31];
    assert ScanAsWritten(s4, 0, z) == ScanAsWritten(s3, 1, z);
    assert ScanAsWritten(s3, 1, z) == ScanAsWritten(s2, 2, z);
    assert ScanAsWritten(s2, 2, z) == ScanAsWritten(s1, 3, z);
    assert ScanAsWritten(s1, 3, z) == ScanAsWritten([0x31], 4, z);
    assert Scan(s4, 0, z) == Scan(s3, 1, z);
    assert Scan(s3, 1, z) == Scan(s2, 2, z);
    assert Scan(s2, 2, z) == Scan(s1, 3, z);
  }

  /** The decimal digits "%d" prints for n. */
  function Decimal(n: nat): (r: seq<byte>)
    requires n < 0x100
    ensures |r| == (if n < 10 then 1 else if n < 100 then 2 else 3)
    ensures forall k :: 0 <= k < |r| ==> ZERO <= r[k] <= ZERO + 9
  {
    if n < 10 then [(ZERO as nat + n) as byte] else Decimal(n / 10) + [(ZERO as nat + n % 10) as byte]
  }

  /** "%d.%d.%d.%d" of four octets. */
  function Dotted(a: byte, b: byte, c: byte, d: byte): seq<byte>
  {
    Decimal(a as nat) + ([DOT] + (Decimal(b as nat) + ([DOT] + (Decimal(c as nat) + ([DOT] + Decimal(d as nat))))))
  }

  /** print_ipv4_address: the four octets of x in memory order. */
  function FormatIpv4(x: Ipv4Addr): seq<byte>
  {
    Dotted(OctetOf(x, 0), OctetOf(x, 1), OctetOf(x, 2), OctetOf(x, 3))
  }

  /** The last digit of n appended to the digits of n / 10. */
  lemma DigitAppends(n: nat)
    requires 10 <= n < 0x100
    ensures Digit((n / 10) as byte, (ZERO as nat + n % 10) as byte) == n as byte
  {
  }

  /** Scanning the digits of n into a zero octet leaves n in it. */
  lemma {:induction false} DecimalRun(n: nat, rest: seq<byte>, i: nat, ip: seq<byte>)
    requires n < 0x100 && i < 4 && |ip| == 4 && ip[i] == 0
    ensures ScanAsWritten(Decimal(n) + rest, i, ip) == ScanAsWritten(rest, i, ip[i := n as byte])
    decreases n
  {
    var d := Decimal(n);
    if n < 10 {
      assert (d + rest)[1..] == rest;
    } else {
      var m := n / 10;
      var c := (ZERO as nat + n % 10) as byte;
      assert d + rest == Decimal(m) + ([c] + rest);
      DecimalRun(m, [c] + rest, i, ip);
      assert ([c] + rest)[1..] == rest;
      DigitAppends(n);
      assert ip[i := m as byte][i := n as byte] == ip[i := n as byte];
    }
  }

  /** An octet's digits and the '.' after it. */
  lemma OctetRun(o: byte, rest: seq<byte>, i: nat, ip: seq<byte>)
    requires i < 4 && |ip| == 4 && ip[i] == 0
    ensures ScanAsWritten(Decimal(o as nat) + ([DOT] + rest), i, ip) == ScanAsWritten(rest, i + 1, ip[i := o])
  {
    DecimalRun(o as nat, [DOT] + rest, i, ip);
    assert ([DOT] + rest)[1..] == rest;
  }

  /** A byte taken out of an address and put back. */
  lemma ByteRoundTrip(v: bv32)
    requires v < 0x100
    ensures Widen(ByteOf(v)) == v
  {
  }

  /** Octet i of x, widened again, is the byte of x at bit 8i. */
  lemma OctetBits(x: Ipv4Addr, i: nat, v: bv32)
    requires i < 4 && v == (if i == 0 then x else if i == 1 then x >> 8 else if i == 2 then x >> 16 else x >> 24)
    ensures Widen(OctetOf(x, i)) == v & 0xFF
  {
    var w := v & 0xFF;
    assert w < 0x100;
    assert OctetOf(x, i) == ByteOf(w);
    ByteRoundTrip(w);
  }

  /** An address rebuilt from its four octets is the address. */
  lemma OctetsRebuild(x: Ipv4Addr)
    ensures Ipv4(OctetOf(x, 0), OctetOf(x, 1), OctetOf(x, 2), OctetOf(x, 3)) == x
  {
    OctetBits(x, 0, x);
    OctetBits(x, 1, x >> 8);
    OctetBits(x, 2, x >> 16);
    OctetBits(x, 3, x >> 24);
    assert (x & 0xFF) | (((x >> 8) & 0xFF) << 8) | (((x >> 16) & 0xFF) << 16) | (((x >> 24) & 0xFF) << 24) == x;
  }

  /** The last octet's digits, up to the end. */
  lemma LastOctetRun(o: byte, i: nat, ip: seq<byte>)
    requires i < 4 && |ip| == 4 && ip[i] == 0
    ensures ScanAsWritten(Decimal(o as nat), i, ip) == Addr(Pack(ip[i := o]))
  {
    DecimalRun(o as nat, [], i, ip);
    assert Decimal(o as nat) + [] == Decimal(o as nat);
  }

  /** The scan as written reads a dotted quad back into its four octets. */
  lemma DottedScans(o0: byte, o1: byte, o2: byte, o3: byte)
    ensures ScanAsWritten(Dotted(o0, o1, o2, o3), 0, [0, 0, 0, 0]) == Addr(Ipv4(o0, o1, o2, o3))
  {
    var r2 := Decimal(o2 as nat) + ([DOT] + Decimal(o3 as nat));
    var r1 := Decimal(o1 as nat) + ([DOT] + r2);
    OctetRun(o0, r1, 0, [0, 0, 0, 0]);
    assert [0, 0, 0, 0][0 := o0] == [o0, 0, 0, 0];
    OctetRun(o1, r2, 1, [o0, 0, 0, 0]);
    assert [o0, 0, 0, 0][1 := o1] == [o0, o1, 0, 0];
    OctetRun(o2, Decimal(o3 as nat), 2, [o0, o1, 0, 0]);
    assert [o0, o1, 0, 0][2 := o2] == [o0, o1, o2, 0];
    LastOctetRun(o3, 3, [o0, o1, o2, 0]);
    assert [o0, o1, o2, 0][3 := o3] == [o0, o1, o2, o3];
  }

  /** Parsing what print_ipv4_address prints gives the address back, as written and bounded alike. */
  lemma FormatParses(x: Ipv4Addr)
    ensures ParseAsWritten(FormatIpv4(x), |FormatIpv4(x)|) == Addr(x)
    ensures ParseIpv4(FormatIpv4(x), |FormatIpv4(x)|) == x
  {
    var s := FormatIpv4(x);
    assert s[..|s|] == s;
    DottedScans(OctetOf(x, 0), OctetOf(x, 1), OctetOf(x, 2), OctetOf(x, 3));
    OctetsRebuild(x);
    BoundedAgrees(s, |s|);
  }

  // minip_build_ipv4_hdr

  /** htons(v) as it lies in memory: the big-endian bytes of a 16-bit value. */
  function Be16(v: nat): (r: seq<byte>)
    requires v < U16
    ensures |r| == 2 && r[0] as nat * 0x100 + r[1] as nat == v
  {
    [(v / 0x100) as byte, (v % 0x100) as byte]
  }

  /** An address as it lies in memory: its octets in order. */
  function AddrBytes(a: Ipv4Addr): (r: seq<byte>)
    ensures |r| == 4
  {
    [OctetOf(a, 0), OctetOf(a, 1), OctetOf(a, 2), OctetOf(a, 3)]
  }

  /**
   * The first ten bytes of the header (RFC 791 layout): version 4 and five
   * words of header, dscp_ecn 0, the total length htons(20 + len) in 16
   * bits, id 0, flags_frags 0x40 stored in host order (don't fragment on the
   * wire), ttl 64 and the protocol.
   */
  function HeaderBefore(proto: byte, len: nat): (r: seq<byte>)
    requires len < U16
    ensures |r| == 10
  {
    [0x45, 0] + Be16((20 + len) % U16) + [0, 0, 0x40, 0, 64, proto]
  }

  /** The last eight bytes: source and destination address. */
  function HeaderAfter(src: Ipv4Addr, dst: Ipv4Addr): (r: seq<byte>)
    ensures |r| == 8
  {
    AddrBytes(src) + AddrBytes(dst)
  }

  /** The checksum over the header with its checksum field zeroed. */
  function ZeroedSum(src: Ipv4Addr, dst: Ipv4Addr, proto: byte, len: nat): nat
    requires len < U16
  {
    OnesSum(0, HeaderBefore(proto, len) + [0, 0] + HeaderAfter(src, dst))
  }

  /**
   * minip_build_ipv4_hdr, for a payload of len bytes from the interface
   * address src: the header bytes, with ~ones_sum16 of the zeroed header
   * stored in host order as the checksum. The header passes RFC 1071's
   * check: its words sum to 0xffff.
   */
  function BuildIpv4Hdr(src: Ipv4Addr, dst: Ipv4Addr, proto: byte, len: nat): (r: seq<byte>)
    requires len < U16
    ensures |r| == 20 && OnesSum(0, r) == 0xFFFF
  {
    var before, after := HeaderBefore(proto, len), HeaderAfter(src, dst);
    ChecksumOfBuilt(before, after);
    before + Le16(Complement(OnesSum(0, before + [0, 0] + after))) + after
  }

  /** A zero word adds nothing to the sum. */
  lemma ChecksumOfBuilt(before: seq<byte>, after: seq<byte>)
    requires |before| == 10 && |after| == 8 && before[0] == 0x45
    ensures OnesSum(0, before + Le16(Complement(OnesSum(0, before + [0, 0] + after))) + after) == 0xFFFF
  {
    var joined := before + after;
    assert Total(0, joined) > 0 by {
      assert joined[0] == 0x45;
      assert WordSum(joined, 0) >= Word(joined[0], joined[1]);
    }
    assert Le16(0) == [0, 0];
    TotalWithWord(before, 0, after);
    OnesSumIsEndAround(0, joined);
    OnesSumIsEndAround(0, before + [0, 0] + after);
    ComplementCompletes(before, after);
  }

  /** Total length, header length and version as a receiver reads them. */
  function TotalLength(pkt: seq<byte>): nat
    requires |pkt| >= 4
  {
    pkt[2] as nat * 0x100 + pkt[3] as nat
  }

  function HeaderLength(pkt: seq<byte>): nat
    requires |pkt| >= 1
  {
    (pkt[0] as nat % 16) * 4
  }

  function Version(pkt: seq<byte>): nat
    requires |pkt| >= 1
  {
    pkt[0] as nat / 16
  }

  /** The built header says what was asked for: version 4, twenty bytes of header, the length, no fragmenting, ttl 64, the protocol and both addresses. */
  lemma BuiltHeaderFields(src: Ipv4Addr, dst: Ipv4Addr, proto: byte, len: nat)
    requires len < U16
    ensures var h := BuildIpv4Hdr(src, dst, proto, len);
            Version(h) == 4 && HeaderLength(h) == 20 && TotalLength(h) == (20 + len) % U16
            && h[6] as nat * 0x100 + h[7] as nat == 0x4000 && h[8] == 64 && h[9] == proto
            && Ipv4(h[12], h[13], h[14], h[15]) == src && Ipv4(h[16], h[17], h[18], h[19]) == dst
  {
    var h := BuildIpv4Hdr(src, dst, proto, len);
    var before, after := HeaderBefore(proto, len), HeaderAfter(src, dst);
    assert h[..10] == before && h[12..] == after;
    assert h[12..16] == AddrBytes(src) && h[16..20] == AddrBytes(dst);
    OctetsRebuild(src);
    OctetsRebuild(dst);
  }

  // The accept checks of handle_ipv4_packet

  datatype Ipv4Verdict =
    | TooShort          // shorter than struct ipv4_hdr
    | NotVersion4
    | HeaderTruncated   // the buffer cannot hold header_len bytes
    | BadChecksum
    | ExceedsBuffer     // the total length is more than the buffer holds
    | ShorterThanHeader // after trimming, pktbuf_consume cannot remove the header
    | Accepted(header: seq<byte>, payload: seq<byte>)

  /** Trim to the total length, then take the header off the front. */
  function Trim(pkt: seq<byte>, hl: nat): Ipv4Verdict
    requires |pkt| >= 4 && hl <= |pkt|
  {
    var tl := TotalLength(pkt);
    if tl > |pkt| then ExceedsBuffer
    else if tl < hl then ShorterThanHeader
    else Accepted(pkt[..hl], pkt[hl..tl])
  }

  /** The checks of handle_ipv4_packet as written: a header summing to 0 is rejected. */
  function AcceptAsWritten(pkt: seq<byte>): Ipv4Verdict
  {
    if |pkt| < 20 then TooShort
    else if Version(pkt) != 4 then NotVersion4
    else if |pkt| < HeaderLength(pkt) then HeaderTruncated
    else if OnesSum(0, pkt[..HeaderLength(pkt)]) == 0 then BadChecksum
    else Trim(pkt, HeaderLength(pkt))
  }

  /** The checks with RFC 1071's test: a header whose words do not sum to 0xffff is rejected. */
  function Accept(pkt: seq<byte>): Ipv4Verdict
  {
    if |pkt| < 20 then TooShort
    else if Version(pkt) != 4 then NotVersion4
    else if |pkt| < HeaderLength(pkt) then HeaderTruncated
    else if OnesSum(0, pkt[..HeaderLength(pkt)]) != 0xFFFF then BadChecksum
    else Trim(pkt, HeaderLength(pkt))
  }

  /**
   * The test as written rejects only an empty header: the version nibble
   * makes the first word non-zero, so the sum of any other header is
   * non-zero whatever its checksum field holds.
   */
  lemma AsWrittenChecksumRejectsOnlyEmptyHeader(pkt: seq<byte>)
    ensures AcceptAsWritten(pkt) == BadChecksum ==> HeaderLength(pkt) == 0
  {
    if |pkt| >= 20 && Version(pkt) == 4 && HeaderLength(pkt) <= |pkt| && HeaderLength(pkt) > 0 {
      var h := pkt[..HeaderLength(pkt)];
      assert Total(0, h) > 0 by {
        assert WordSum(h, 0) >= Word(h[0], h[1]);
      }
      OnesSumIsEndAround(0, h);
    }
  }

  /** Any twenty-byte version 4 header of total length 20 gets through the checks as written, whatever its checksum field holds. */
  lemma AsWrittenIgnoresChecksum(pkt: seq<byte>)
    requires |pkt| == 20 && pkt[0] == 0x45 && TotalLength(pkt) == 20
    ensures AcceptAsWritten(pkt) == Accepted(pkt, [])
  {
    AsWrittenChecksumRejectsOnlyEmptyHeader(pkt);
    assert pkt[..20] == pkt;
  }

  /**
   * RFC 1071's test catches a changed checksum field: in a header that
   * passes it, any other value in the field, short of the one's complement
   * twin (0 for 0xffff and back), fails it.
   */
  lemma CorruptedChecksumRejected(before: seq<byte>, after: seq<byte>, c: nat, c': nat)
    requires |before| == 10 && |after| == 8 && before[0] == 0x45 && c < U16 && c' < U16
    requires OnesSum(0, before + Le16(c) + after) == 0xFFFF && (c' - c) % 0xFFFF != 0
    ensures OnesSum(0, before + Le16(c') + after) != 0xFFFF
  {
    var t := Total(0, before + after);
    TotalWithWord(before, c, after);
    TotalWithWord(before, c', after);
    OnesSumIsEndAround(0, before + Le16(c) + after);
    OnesSumIsEndAround(0, before + Le16(c') + after);
    EndAroundDiffers(t + c, t + c');
  }

  /** Two totals whose end-around sums are both 0xffff differ by a multiple of 0xffff. */
  lemma EndAroundDiffers(a: nat, b: nat)
    requires EndAround(a) == 0xFFFF && (b - a) % 0xFFFF != 0
    ensures EndAround(b) != 0xFFFF
  {
    var qa := (a - 1) / 0xFFFF;
    assert a == 0xFFFF * (qa + 1);
  }

  /**
   * What minip_build_ipv4_hdr builds in front of a payload, with any
   * trailing padding after it, is accepted: the header, and the payload
   * with the padding trimmed off.
   */
  lemma BuiltPacketAccepted(src: Ipv4Addr, dst: Ipv4Addr, proto: byte, payload: seq<byte>, padding: seq<byte>)
    requires 20 + |payload| < U16
    ensures var h := BuildIpv4Hdr(src, dst, proto, |payload|);
            Accept(h + payload + padding) == Accepted(h, payload)
  {
    var h := BuildIpv4Hdr(src, dst, proto, |payload|);
    var pkt := h + payload + padding;
    assert pkt[..20] == h;
    assert pkt[20..20 + |payload|] == payload;
    assert pkt[..4] == h[..4];
  }
}
