/**
 * minip's network interfaces: the netif record, its configuration flags,
 * the netmask and broadcast addresses derived from its address and subnet
 * width, and the list of registered interfaces with the 'main' one.
 */
module MinipNetif {
  import opened Lk
  import opened MinipNet

  // The configuration flags: distinct single bits.

  const NETIF_FLAG_ETH_CONFIGURED: bv32 := 1
  const NETIF_FLAG_REGISTERED: bv32 := 2
  const NETIF_FLAG_IPV4_CONFIGURED: bv32 := 4

  /** NETIF_MAGIC, the multi-character constant 'NETI' as GCC evaluates it. */
  const NETIF_MAGIC: bv32 := 0x4E45_5449

  /** A single bit: nonzero, and no bit in common with itself minus one. */
  predicate SingleBit(f: bv32)
  {
    f != 0 && f & (f - 1) == 0
  }

  /** The three flags are single bits, pairwise disjoint. */
  lemma FlagsAreDistinctBits()
    ensures SingleBit(NETIF_FLAG_ETH_CONFIGURED) && SingleBit(NETIF_FLAG_REGISTERED) && SingleBit(NETIF_FLAG_IPV4_CONFIGURED)
    ensures NETIF_FLAG_ETH_CONFIGURED & NETIF_FLAG_REGISTERED == 0
    ensures NETIF_FLAG_ETH_CONFIGURED & NETIF_FLAG_IPV4_CONFIGURED == 0
    ensures NETIF_FLAG_REGISTERED & NETIF_FLAG_IPV4_CONFIGURED == 0
  {
  }

  // netif_get_netmask_ipv4 and netif_get_broadcast_ipv4, as written.

  /** netif_get_netmask_ipv4: the address ANDed with all-ones shifted right by the width. */
  function NetmaskAsWritten(addr: Ipv4Addr, width: bv8): Ipv4Addr
    requires 0 < width < 32
  {
    addr & (0xFFFF_FFFF >> width)
  }

  /** netif_get_broadcast_ipv4: the address ANDed with that "netmask", ORed with all-ones shifted left by 32 minus the width. */
  function BroadcastAsWritten(addr: Ipv4Addr, width: bv8): Ipv4Addr
    requires 0 < width < 32
  {
    (addr & NetmaskAsWritten(addr, width)) | (0xFFFF_FFFF << (32 - width))
  }

  /**
   * The "netmask" is the part of the address in its low 32 - width bits: it
   * depends on the address, and is 0 for the address 0.
   */
  lemma NetmaskAsWrittenIsAddressPart(addr: Ipv4Addr, width: bv8)
    requires 0 < width < 32
    ensures NetmaskAsWritten(addr, width) & addr == NetmaskAsWritten(addr, width)
    ensures NetmaskAsWritten(0, width) == 0
  {
  }

  /** The "netmask" has its high width bits clear. */
  lemma NetmaskAsWrittenHighBitsClear(addr: Ipv4Addr, width: bv8)
    requires 0 < width < 32
    ensures NetmaskAsWritten(addr, width) >> (32 - width) == 0
  {
  }

  /** The "broadcast" is the "netmask" with the high width bits set. */
  lemma BroadcastAsWrittenSetsHighBits(addr: Ipv4Addr, width: bv8)
    requires 0 < width < 32
    ensures BroadcastAsWritten(addr, width) == NetmaskAsWritten(addr, width) | (0xFFFF_FFFF << (32 - width))
  {
  }

  /** On 192.168.1.10/24 the expressions give the "netmask" 192.0.0.0 and the "broadcast" 192.255.255.255. */
  lemma AsWrittenOnClassC()
    ensures NetmaskAsWritten(Ipv4(192, 168, 1, 10), 24) == Ipv4(192, 0, 0, 0)
    ensures BroadcastAsWritten(Ipv4(192, 168, 1, 10), 24) == Ipv4(192, 255, 255, 255)
  {
  }

  // The netmask and broadcast address as intended.

  /** The byte order of an address reversed: the value with the first octet in the high byte, or back. */
  function ByteSwap(x: bv32): bv32
  {
    (x >> 24) | ((x >> 8) & 0xFF00) | ((x << 8) & 0xFF_0000) | (x << 24)
  }

  /** The netmask of a width: the first width bits of the address in network order set, the rest clear. */
  function Netmask(width: bv8): Ipv4Addr
    requires width <= 32
  {
    ByteSwap(if width == 0 then 0 else 0xFFFF_FFFF << (32 - width))
  }

  /** The broadcast address of a subnet: its network part with every host bit set. */
  function Broadcast(addr: Ipv4Addr, width: bv8): Ipv4Addr
    requires width <= 32
  {
    (addr & Netmask(width)) | !Netmask(width)
  }

  /** The broadcast address lies in the address's subnet, and has all host bits set. */
  lemma BroadcastInSubnet(addr: Ipv4Addr, width: bv8)
    requires width <= 32
    ensures Broadcast(addr, width) & Netmask(width) == addr & Netmask(width)
    ensures Broadcast(addr, width) | Netmask(width) == 0xFFFF_FFFF
    ensures Broadcast(addr, width) & !Netmask(width) == !Netmask(width)
  {
    MaskLaws(addr, Netmask(width));
  }

  /** The same laws for any mask m. */
  lemma MaskLaws(a: bv32, m: bv32)
    ensures ((a & m) | !m) & m == a & m
    ensures ((a & m) | !m) | m == 0xFFFF_FFFF
    ensures ((a & m) | !m) & !m == !m
  {
  }

  /** On 192.168.1.10/24 the netmask is 255.255.255.0 and the broadcast address 192.168.1.255; the loopback's /8 gives 255.0.0.0. */
  lemma NetmaskOnClassC()
    ensures Netmask(24) == Ipv4(255, 255, 255, 0) && Netmask(8) == Ipv4(255, 0, 0, 0)
    ensures Broadcast(Ipv4(192, 168, 1, 10), 24) == Ipv4(192, 168, 1, 255)
  {
  }

  // netif.c

  /** The 32-byte name field after strlcpy into a zeroed record: at most 31 characters, then zeros. */
  function NameField(name: seq<byte>): (r: seq<byte>)
    ensures |r| == 32
  {
    var n := if |name| < 31 then |name| else 31;
    name[..n] + seq(32 - n, _ => 0 as byte)
  }

  /** The name field holds the first 31 characters of the name, NUL-terminated, and only zeros after them. */
  lemma NameFieldTruncates(name: seq<byte>)
    requires 0 !in name
    ensures var n := if |name| < 31 then |name| else 31;
            NameField(name)[..n] == name[..n] && NameField(name)[n] == 0
            && (forall i :: n <= i < 32 ==> NameField(name)[i] == 0)
            && 0 !in NameField(name)[..n]
  {
  }

  /** netif_t: an interface record. The list node is modelled by membership of Netifs.list. */
  class Netif {
    var magic: bv32
    var flags: bv32
    var mac: seq<byte>
    var addr: Ipv4Addr
    var subnetWidth: bv8
    /** The driver's transmit routine and its argument, as opaque handles; 0 stands for NULL. */
    var txFunc: nat
    var txArg: nat
    var name: seq<byte>

    /** netif_create on a newly allocated record. */
    constructor (name: seq<byte>)
      ensures magic == NETIF_MAGIC && flags == 0 && mac == [0, 0, 0, 0, 0, 0] && addr == 0 && subnetWidth == 0
      ensures txFunc == 0 && txArg == 0 && this.name == NameField(name)
    {
      magic, flags, mac, addr, subnetWidth := NETIF_MAGIC, 0, [0, 0, 0, 0, 0, 0], 0, 0;
      txFunc, txArg := 0, 0;
      this.name := NameField(name);
    }

    /** netif_create on a caller's record: memset to zero, the magic, the truncated name. */
    method Create(name: seq<byte>)
      modifies this
      ensures magic == NETIF_MAGIC && flags == 0 && mac == [0, 0, 0, 0, 0, 0] && addr == 0 && subnetWidth == 0
      ensures txFunc == 0 && txArg == 0 && this.name == NameField(name)
    {
      magic, flags, mac, addr, subnetWidth := NETIF_MAGIC, 0, [0, 0, 0, 0, 0, 0], 0, 0;
      txFunc, txArg := 0, 0;
      this.name := NameField(name);
    }

    /** netif_set_eth: once only, sets the MAC address and transmit routine and marks the Ethernet side configured. */
    method SetEth(tx: nat, arg: nat, macaddr: seq<byte>) returns (r: Status)
      requires magic == NETIF_MAGIC && tx != 0 && IsMac(macaddr)
      requires flags & NETIF_FLAG_ETH_CONFIGURED == 0
      modifies this
      ensures r == NoError && mac == macaddr && txFunc == tx && txArg == arg
      ensures flags == old(flags) | NETIF_FLAG_ETH_CONFIGURED
      ensures magic == old(magic) && addr == old(addr) && subnetWidth == old(subnetWidth) && name == old(name)
    {
      mac := macaddr;
      txFunc := tx;
      txArg := arg;
      flags := flags | NETIF_FLAG_ETH_CONFIGURED;
      r := NoError;
    }

    /** netif_set_ipv4_addr: sets the address and width and adds IPV4_CONFIGURED, leaving the other flags alone. */
    method SetIpv4Addr(a: Ipv4Addr, width: bv8) returns (r: Status)
      requires magic == NETIF_MAGIC
      modifies this
      ensures r == NoError && addr == a && subnetWidth == width
      ensures flags == old(flags) | NETIF_FLAG_IPV4_CONFIGURED
      ensures magic == old(magic) && mac == old(mac) && txFunc == old(txFunc) && txArg == old(txArg) && name == old(name)
    {
      addr := a;
      subnetWidth := width;
      flags := flags | NETIF_FLAG_IPV4_CONFIGURED;
      r := NoError;
    }
  }

  /** A configured, registered interface record. */
  predicate Listed(n: Netif)
    reads n
  {
    n.magic == NETIF_MAGIC && n.flags & NETIF_FLAG_ETH_CONFIGURED != 0 && n.flags & NETIF_FLAG_REGISTERED != 0
  }

  /** Setting one flag leaves every other bit as it was. */
  lemma SetFlagKeepsOthers(flags: bv32, f: bv32)
    ensures (flags | f) & !f == flags & !f
    ensures (flags | f) & f == f
  {
  }

  /** The transmit handle of loopback_tx_func. */
  const LOOPBACK_TX: nat := 1

  /** The interface list of netif.c: netif_list (head first), netif_main, netif_loopback and the static loopback record. */
  class Netifs {
    var list: seq<Netif>
    var main: Netif?
    var loopbackRef: Netif?
    const loopback: Netif

    constructor ()
      ensures list == [] && main == null && loopbackRef == null && fresh(loopback)
    {
      list, main, loopbackRef := [], null, null;
      loopback := new Netif([]);
    }

    /**
     * Every listed interface is configured and registered and listed once;
     * the main interface, when set, is a listed one other than the loopback.
     */
    predicate Valid()
      reads this, list
    {
      (forall i :: 0 <= i < |list| ==> Listed(list[i]))
      && (forall i, j :: 0 <= i < j < |list| ==> list[i] != list[j])
      && (main != null ==> main in list && main != loopback)
    }

    /**
     * netif_register: the interface goes to the head of the list and is
     * marked registered; the first one registered other than the loopback
     * becomes the main interface, and later ones leave it alone.
     */
    method Register(n: Netif) returns (r: Status)
      requires Valid()
      requires n.magic == NETIF_MAGIC && n.flags & NETIF_FLAG_ETH_CONFIGURED != 0 && n.flags & NETIF_FLAG_REGISTERED == 0
      modifies this, n
      ensures r == NoError && list == [n] + old(list) && n.flags == old(n.flags) | NETIF_FLAG_REGISTERED
      ensures main == (if old(main) == null && n != loopback then n else old(main))
      ensures loopbackRef == old(loopbackRef)
      ensures n.magic == old(n.magic) && n.mac == old(n.mac) && n.addr == old(n.addr) && n.name == old(n.name)
      ensures n.subnetWidth == old(n.subnetWidth) && n.txFunc == old(n.txFunc) && n.txArg == old(n.txArg)
      ensures Valid()
    {
      assert !Listed(n);
      ghost var before := list;
      n.flags := n.flags | NETIF_FLAG_REGISTERED;
      assert Listed(n);
      list := [n] + list;
      assert forall i :: 1 <= i < |list| ==> list[i] == before[i - 1];
      if main == null && n != loopback {
        main := n;
      }
      r := NoError;
    }

    /**
     * netif_init: the loopback record is created, given the broadcast MAC
     * address and the address 128.0.0.1/8, registered, and published.
     */
    method Init()
      requires Valid() && loopback !in list
      modifies this, loopback
      ensures list == [loopback] + old(list) && main == old(main) && loopbackRef == loopback
      ensures loopback.mac == BCAST_MAC && loopback.txFunc == LOOPBACK_TX && loopback.addr == Ipv4(128, 0, 0, 1)
      ensures loopback.subnetWidth == 8 && loopback.name == NameField([0x6C, 0x6F, 0x6F, 0x70, 0x62, 0x61, 0x63, 0x6B])
      ensures loopback.flags == NETIF_FLAG_ETH_CONFIGURED | NETIF_FLAG_IPV4_CONFIGURED | NETIF_FLAG_REGISTERED
      ensures Valid()
    {
      loopback.Create([0x6C, 0x6F, 0x6F, 0x70, 0x62, 0x61, 0x63, 0x6B]);
      var _ := loopback.SetEth(LOOPBACK_TX, 0, BCAST_MAC);
      var _ := loopback.SetIpv4Addr(Ipv4(128, 0, 0, 1), 8);
      var _ := Register(loopback);
      loopbackRef := loopback;
    }
  }

  /** netif_create: a null record is allocated first, and an allocation failure gives null. */
  method NetifCreate(n: Netif?, name: seq<byte>, allocates: bool) returns (r: Netif?)
    modifies n
    ensures n != null ==> r == n
    ensures n == null ==> (r == null <==> !allocates) && (r != null ==> fresh(r))
    ensures r != null ==> r.magic == NETIF_MAGIC && r.flags == 0 && r.addr == 0 && r.txFunc == 0 && r.name == NameField(name)
  {
    if n == null {
      if !allocates {
        return null;
      }
      r := new Netif(name);
    } else {
      n.Create(name);
      r := n;
    }
  }
}
