/**
 * The types and constants minip's sources take from lib/minip.h and
 * minip-internal.h (neither is part of this model): bytes, IPv4 addresses
 * held in memory order, and the broadcast hardware address. The model fixes
 * a little-endian host, so the first octet of an address is its low byte,
 * as print_ipv4_address reads it back.
 */
module MinipNet {
  import opened Lk

  newtype byte = x: int | 0 <= x < 0x100

  /** An ipv4_addr_t: the four octets in memory (network) order, as one 32-bit value. */
  type Ipv4Addr = bv32

  /** A byte widened to 32 bits. */
  function Widen(b: byte): bv32
  {
    b as bv32
  }

  /** The low byte of a 32-bit value that fits in one. */
  function ByteOf(v: bv32): byte
    requires v < 0x100
  {
    v as int as byte
  }

  /** IPV4(a, b, c, d): the address a.b.c.d. */
  function Ipv4(a: byte, b: byte, c: byte, d: byte): Ipv4Addr
  {
    Widen(a) | (Widen(b) << 8) | (Widen(c) << 16) | (Widen(d) << 24)
  }

  /** Octet i (0 first) of an address. */
  function OctetOf(x: Ipv4Addr, i: nat): byte
    requires i < 4
  {
    var v := if i == 0 then x else if i == 1 then x >> 8 else if i == 2 then x >> 16 else x >> 24;
    ByteOf(v & 0xFF)
  }

  const IPV4_BCAST: Ipv4Addr := 0xFFFF_FFFF
  const IPV4_NONE: Ipv4Addr := 0

  /** A MAC address: six bytes. */
  predicate IsMac(m: seq<byte>) { |m| == 6 }

  const BCAST_MAC: seq<byte> := [0xFF, 0xFF, 0xFF, 0xFF, 0xFF, 0xFF]

  /**
   * The list walks of arp.c and udp.c: the first index from i on whose
   * element satisfies p, or None when no element from i on does.
   */
  function FirstFrom<T>(s: seq<T>, p: T -> bool, i: nat): (r: Option<nat>)
    requires i <= |s|
    ensures r.Some? ==> i <= r.value < |s| && p(s[r.value]) && forall j :: i <= j < r.value ==> !p(s[j])
    ensures r.None? ==> forall j :: i <= j < |s| ==> !p(s[j])
    decreases |s| - i
  {
    if i == |s| then None
    else if p(s[i]) then Some(i)
    else FirstFrom(s, p, i + 1)
  }
}
