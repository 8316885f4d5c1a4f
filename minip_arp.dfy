/**
 * minip's ARP cache (lib/minip/arp.c, RFC 826): a list of address to
 * hardware address entries kept in most-recently-used order, and the
 * handling of incoming ARP requests and replies.
 */
module MinipArp {
  import opened Lk
  import opened MinipNet

  /** arp_entry_t: one cached mapping. */
  datatype ArpEntry = ArpEntry(addr: Ipv4Addr, mac: seq<byte>)

  /** No address is cached twice, and every hardware address has six bytes. */
  predicate Valid(s: seq<ArpEntry>)
  {
    (forall i, j :: 0 <= i < j < |s| ==> s[i].addr != s[j].addr)
    && forall i :: 0 <= i < |s| ==> IsMac(s[i].mac)
  }

  /** The test of the list walk: the entry holds addr. */
  function HoldsAddr(addr: Ipv4Addr): ArpEntry -> bool
  {
    (e: ArpEntry) => e.addr == addr
  }

  /** The walk of list_for_every_entry for addr: the first entry holding it. */
  function Find(s: seq<ArpEntry>, addr: Ipv4Addr): (r: Option<nat>)
    ensures r.Some? ==> r.value < |s| && s[r.value].addr == addr && forall j :: 0 <= j < r.value ==> s[j].addr != addr
    ensures r.None? <==> forall j :: 0 <= j < |s| ==> s[j].addr != addr
  {
    var r := FirstFrom(s, HoldsAddr(addr), 0);
    assert r.None? ==> forall j :: 0 <= j < |s| ==> !HoldsAddr(addr)(s[j]);
    r
  }

  /** mru_update: the entry at k unlinked and put back at the head. */
  function MoveToFront(s: seq<ArpEntry>, k: nat): seq<ArpEntry>
    requires k < |s|
  {
    if k == 0 then s else [s[k]] + s[..k] + s[k + 1..]
  }

  /** Moving an entry to the head keeps every entry and puts that one first. */
  lemma MoveToFrontPermutes(s: seq<ArpEntry>, k: nat)
    requires k < |s|
    ensures var t := MoveToFront(s, k);
            |t| == |s| && t[0] == s[k] && multiset(t) == multiset(s)
            && (forall j :: 0 <= j < k ==> t[j + 1] == s[j])
            && (forall j :: k < j < |s| ==> t[j] == s[j])
  {
    if k > 0 {
      assert s == s[..k] + [s[k]] + s[k + 1..];
    }
  }

  lemma MoveToFrontKeepsValid(s: seq<ArpEntry>, k: nat)
    requires k < |s| && Valid(s)
    ensures Valid(MoveToFront(s, k))
  {
    var t := MoveToFront(s, k);
    MoveToFrontPermutes(s, k);
    // Position p of t holds the entry at Old(p) in s, and Old is one-to-one.
    forall i, j | 0 <= i < j < |t|
      ensures t[i].addr != t[j].addr
    {
      var oi := if i == 0 then k else if i <= k then i - 1 else i;
      var oj := if j == 0 then k else if j <= k then j - 1 else j;
      assert t[i] == s[oi] && t[j] == s[oj] && oi != oj;
    }
    forall i | 0 <= i < |t|
      ensures IsMac(t[i].mac)
    {
      var oi := if i == 0 then k else if i <= k then i - 1 else i;
      assert t[i] == s[oi];
    }
  }

  /** 0.0.0.0 and x.x.x.255 never enter the cache. */
  predicate Ignored(addr: Ipv4Addr)
  {
    addr == 0 || OctetOf(addr, 3) == 0xFF
  }

  /**
   * arp_cache_update as written: a cached address moves to the head with the
   * hardware address it already had; a new one, when the allocation
   * succeeds, goes in at the head.
   */
  function UpdateAsWritten(s: seq<ArpEntry>, addr: Ipv4Addr, mac: seq<byte>, allocOk: bool): seq<ArpEntry>
  {
    if Ignored(addr) then s
    else match Find(s, addr)
      case Some(k) => MoveToFront(s, k)
      case None => if allocOk then [ArpEntry(addr, mac)] + s else s
  }

  /** The update RFC 826 asks for: a cached address also takes the new hardware address. */
  function Update(s: seq<ArpEntry>, addr: Ipv4Addr, mac: seq<byte>, allocOk: bool): seq<ArpEntry>
  {
    if Ignored(addr) then s
    else match Find(s, addr)
      case Some(k) => MoveToFront(s[k := ArpEntry(addr, mac)], k)
      case None => if allocOk then [ArpEntry(addr, mac)] + s else s
  }

  /** arp_cache_lookup: the hardware address of addr and the list after the hit moved it to the head; a miss changes nothing. */
  function Lookup(s: seq<ArpEntry>, addr: Ipv4Addr): (seq<ArpEntry>, Option<seq<byte>>)
  {
    match Find(s, addr)
    case Some(k) => (MoveToFront(s, k), Some(s[k].mac))
    case None => (s, None)
  }

  /** A new entry at the head keeps the cache valid when its address is not cached yet. */
  lemma InsertKeepsValid(s: seq<ArpEntry>, e: ArpEntry)
    requires Valid(s) && IsMac(e.mac) && Find(s, e.addr).None?
    ensures Valid([e] + s)
  {
    var t := [e] + s;
    forall i, j | 0 <= i < j < |t|
      ensures t[i].addr != t[j].addr
    {
      assert t[j] == s[j - 1];
      if i > 0 {
        assert t[i] == s[i - 1];
      }
    }
  }

  /** Both updates keep the addresses distinct and the hardware addresses six bytes long. */
  lemma UpdatesKeepValid(s: seq<ArpEntry>, addr: Ipv4Addr, mac: seq<byte>, allocOk: bool)
    requires Valid(s) && IsMac(mac)
    ensures Valid(UpdateAsWritten(s, addr, mac, allocOk)) && Valid(Update(s, addr, mac, allocOk))
  {
    if !Ignored(addr) {
      match Find(s, addr)
      case Some(k) =>
        MoveToFrontKeepsValid(s, k);
        var s' := s[k := ArpEntry(addr, mac)];
        assert Valid(s') by {
          forall i, j | 0 <= i < j < |s'|
            ensures s'[i].addr != s'[j].addr
          {
            assert s'[i].addr == s[i].addr && s'[j].addr == s[j].addr;
          }
        }
        MoveToFrontKeepsValid(s', k);
      case None =>
        InsertKeepsValid(s, ArpEntry(addr, mac));
    }
  }

  /** After either update of a cached or newly allocated address, that address is the head entry. */
  lemma UpdatePutsAddrFirst(s: seq<ArpEntry>, addr: Ipv4Addr, mac: seq<byte>, allocOk: bool)
    requires !Ignored(addr) && (allocOk || Find(s, addr).Some?)
    ensures UpdateAsWritten(s, addr, mac, allocOk)[0].addr == addr
    ensures Update(s, addr, mac, allocOk)[0] == ArpEntry(addr, mac)
  {
    match Find(s, addr)
    case Some(k) =>
      MoveToFrontPermutes(s, k);
      MoveToFrontPermutes(s[k := ArpEntry(addr, mac)], k);
    case None =>
  }

  /** An address that is already cached keeps its old hardware address through the update as written. */
  lemma StaleMacKept(s: seq<ArpEntry>, addr: Ipv4Addr, mac: seq<byte>, allocOk: bool)
    requires !Ignored(addr) && Find(s, addr).Some?
    ensures Lookup(UpdateAsWritten(s, addr, mac, allocOk), addr).1 == Some(s[Find(s, addr).value].mac)
  {
    var k := Find(s, addr).value;
    var t := UpdateAsWritten(s, addr, mac, allocOk);
    MoveToFrontPermutes(s, k);
    assert Find(t, addr) == Some(0);
  }

  /** A host that changed its hardware address: the update as written keeps answering with the old one. */
  lemma StaleMacExample()
    ensures var s := [ArpEntry(Ipv4(10, 0, 0, 2), [2, 0, 0, 0, 0, 1])];
            Lookup(UpdateAsWritten(s, Ipv4(10, 0, 0, 2), [2, 0, 0, 0, 0, 9], true), Ipv4(10, 0, 0, 2)).1
              == Some([2, 0, 0, 0, 0, 1])
  {
    var s := [ArpEntry(Ipv4(10, 0, 0, 2), [2, 0, 0, 0, 0, 1])];
    assert !Ignored(Ipv4(10, 0, 0, 2));
    assert Find(s, Ipv4(10, 0, 0, 2)) == Some(0);
    StaleMacKept(s, Ipv4(10, 0, 0, 2), [2, 0, 0, 0, 0, 9], true);
  }

  /** After the RFC 826 update, a lookup of the address answers with the new hardware address. */
  lemma LookupAfterUpdate(s: seq<ArpEntry>, addr: Ipv4Addr, mac: seq<byte>)
    requires !Ignored(addr)
    ensures Lookup(Update(s, addr, mac, true), addr).1 == Some(mac)
  {
    UpdatePutsAddrFirst(s, addr, mac, true);
    assert Find(Update(s, addr, mac, true), addr) == Some(0);
  }

  /** An ignored address leaves the cache as it was. */
  lemma IgnoredLeavesCache(s: seq<ArpEntry>, addr: Ipv4Addr, mac: seq<byte>, allocOk: bool)
    requires Ignored(addr)
    ensures UpdateAsWritten(s, addr, mac, allocOk) == s && Update(s, addr, mac, allocOk) == s
  {
  }

  /** A lookup keeps the same entries, and a miss keeps their order too. */
  lemma LookupPermutes(s: seq<ArpEntry>, addr: Ipv4Addr)
    ensures multiset(Lookup(s, addr).0) == multiset(s)
    ensures Lookup(s, addr).1.None? ==> Lookup(s, addr).0 == s
    ensures Lookup(s, addr).1.Some? <==> exists j :: 0 <= j < |s| && s[j].addr == addr
  {
    if Find(s, addr).Some? {
      MoveToFrontPermutes(s, Find(s, addr).value);
    }
  }

  /** arp_list, updated in place. */
  class ArpCache {
    var entries: seq<ArpEntry>

    constructor ()
      ensures entries == []
    {
      entries := [];
    }

    /** The list walk: the first entry holding addr. */
    method FindEntry(addr: Ipv4Addr) returns (r: Option<nat>)
      ensures r == Find(entries, addr)
    {
      var i := 0;
      while i < |entries|
        invariant i <= |entries| && FirstFrom(entries, HoldsAddr(addr), i) == Find(entries, addr)
        decreases |entries| - i
      {
        if entries[i].addr == addr {
          return Some(i);
        }
        i := i + 1;
      }
      return None;
    }

    /** mru_update: no change when the entry is the head already. */
    method MruUpdate(k: nat)
      requires k < |entries|
      modifies this
      ensures entries == MoveToFront(old(entries), k)
    {
      if k == 0 {
        return;
      }
      entries := [entries[k]] + entries[..k] + entries[k + 1..];
    }

    /** arp_cache_update, with allocOk standing for the outcome of its malloc. */
    method UpdateCache(addr: Ipv4Addr, mac: seq<byte>, allocOk: bool)
      modifies this
      ensures entries == UpdateAsWritten(old(entries), addr, mac, allocOk)
    {
      if addr == 0 || OctetOf(addr, 3) == 0xFF {
        return;
      }
      var found := FindEntry(addr);
      if found.Some? {
        entries := entries[found.value := entries[found.value].(addr := addr)];
        MruUpdate(found.value);
      } else if allocOk {
        entries := [ArpEntry(addr, mac)] + entries;
      }
    }

    /** arp_cache_lookup. */
    method LookupCache(addr: Ipv4Addr) returns (r: Option<seq<byte>>)
      modifies this
      ensures (entries, r) == Lookup(old(entries), addr)
    {
      var found := FindEntry(addr);
      if found.Some? {
        r := Some(entries[found.value].mac);
        MruUpdate(found.value);
      } else {
        r := None;
      }
    }
  }

  // handle_arp_pkt

  const ARP_OPER_REQUEST: nat := 1
  const ARP_OPER_REPLY: nat := 2
  const ETH_TYPE_ARP: nat := 0x0806

  /** struct arp_pkt. */
  datatype ArpPkt = ArpPkt(htype: nat, ptype: nat, hlen: nat, plen: nat, oper: nat,
                           sha: seq<byte>, spa: Ipv4Addr, tha: seq<byte>, tpa: Ipv4Addr)

  /** A frame to send: destination and source hardware address, Ethernet type, ARP body. */
  datatype ArpFrame = ArpFrame(dstMac: seq<byte>, srcMac: seq<byte>, ethType: nat, body: ArpPkt)

  /** The reply to a request for our address: from us, to the requester. */
  function ReplyTo(req: ArpPkt, reqSrcMac: seq<byte>, ourMac: seq<byte>, ourAddr: Ipv4Addr): (r: ArpFrame)
    ensures r.dstMac == reqSrcMac && r.srcMac == ourMac && r.body.oper == ARP_OPER_REPLY
    ensures r.body.sha == ourMac && r.body.spa == ourAddr && r.body.tha == req.sha && r.body.tpa == req.spa
  {
    ArpFrame(reqSrcMac, ourMac, ETH_TYPE_ARP, ArpPkt(1, 0x0800, 6, 4, ARP_OPER_REPLY, ourMac, ourAddr, req.sha, req.spa))
  }

  /**
   * handle_arp_pkt: dlen is the bytes left in the buffer, sizeArp the size
   * of struct arp_pkt, allocOk the outcome of the reply's pktbuf_alloc and
   * cacheAllocOk that of the cache entry's malloc. A request for our
   * address is answered; a reply goes into the cache.
   */
  method HandleArpPacket(cache: ArpCache, ourAddr: Ipv4Addr, ourMac: seq<byte>, srcMac: seq<byte>,
                         dlen: nat, sizeArp: nat, pkt: ArpPkt, allocOk: bool, cacheAllocOk: bool)
    returns (r: int, sent: Option<ArpFrame>)
    modifies cache
    ensures dlen < sizeArp ==> r == -1 && sent.None? && cache.entries == old(cache.entries)
    ensures dlen >= sizeArp ==> r == 0
    ensures dlen >= sizeArp && pkt.oper == ARP_OPER_REQUEST ==>
              cache.entries == old(cache.entries)
              && sent == (if pkt.tpa == ourAddr && allocOk then Some(ReplyTo(pkt, srcMac, ourMac, ourAddr)) else None)
    ensures dlen >= sizeArp && pkt.oper == ARP_OPER_REPLY ==>
              sent.None? && cache.entries == UpdateAsWritten(old(cache.entries), pkt.spa, pkt.sha, cacheAllocOk)
    ensures pkt.oper != ARP_OPER_REQUEST && pkt.oper != ARP_OPER_REPLY ==>
              sent.None? && cache.entries == old(cache.entries)
  {
    if dlen < sizeArp {
      return -1, None;
    }
    sent := None;
    if pkt.oper == ARP_OPER_REQUEST {
      if pkt.tpa == ourAddr && allocOk {
        sent := Some(ReplyTo(pkt, srcMac, ourMac, ourAddr));
      }
    } else if pkt.oper == ARP_OPER_REPLY {
      cache.UpdateCache(pkt.spa, pkt.sha, cacheAllocOk);
    }
    return 0, sent;
  }
}
