/**
 * minip's UDP layer (lib/minip/udp.c, RFC 768): the list of listening
 * ports, delivery of an incoming datagram to its listener, and the header
 * put in front of an outgoing one.
 */
module MinipUdp {
  import opened Lk
  import opened MinipNet

  /** struct udp_listener; a callback of 0 is NULL. */
  datatype Listener = Listener(port: nat, callback: nat, arg: nat)

  /** No port is listened on twice. */
  predicate DistinctPorts(s: seq<Listener>)
  {
    forall i, j :: 0 <= i < j < |s| ==> s[i].port != s[j].port
  }

  /** Every listener has a callback to call. */
  predicate CallbacksSet(s: seq<Listener>)
  {
    forall i :: 0 <= i < |s| ==> s[i].callback != 0
  }

  /** The test of the listener walk: the listener is on port. */
  function OnPort(port: nat): Listener -> bool
  {
    (l: Listener) => l.port == port
  }

  /** The walk of the listener list for port: the first listener on it. */
  function FindPort(s: seq<Listener>, port: nat): (r: Option<nat>)
    ensures r.Some? ==> r.value < |s| && s[r.value].port == port && forall j :: 0 <= j < r.value ==> s[j].port != port
    ensures r.None? <==> forall j :: 0 <= j < |s| ==> s[j].port != port
  {
    var r := FirstFrom(s, OnPort(port), 0);
    assert r.None? ==> forall j :: 0 <= j < |s| ==> !OnPort(port)(s[j]);
    r
  }

  /** The list without the entry at k. */
  function Remove(s: seq<Listener>, k: nat): seq<Listener>
    requires k < |s|
  {
    s[..k] + s[k + 1..]
  }

  /**
   * udp_listen as written, with allocOk the outcome of its malloc: a known
   * port with a NULL callback is unregistered (0); a known port with a
   * callback is refused (-1); an unknown port is appended at the tail with
   * whatever callback it came with, NULL included (0), unless the
   * allocation fails (-1).
   */
  function ListenAsWritten(s: seq<Listener>, port: nat, cb: nat, arg: nat, allocOk: bool): (seq<Listener>, int)
  {
    match FindPort(s, port)
    case Some(k) => if cb == 0 then (Remove(s, k), 0) else (s, -1)
    case None => if allocOk then (s + [Listener(port, cb, arg)], 0) else (s, -1)
  }

  /** udp_listen with a NULL callback for an unknown port left a no-op: there is nothing to unregister. */
  function Listen(s: seq<Listener>, port: nat, cb: nat, arg: nat, allocOk: bool): (seq<Listener>, int)
  {
    match FindPort(s, port)
    case Some(k) => if cb == 0 then (Remove(s, k), 0) else (s, -1)
    case None => if cb == 0 then (s, 0) else if allocOk then (s + [Listener(port, cb, arg)], 0) else (s, -1)
  }

  /** Removing an entry keeps the others in order. */
  lemma RemoveKeeps(s: seq<Listener>, k: nat)
    requires k < |s|
    ensures var t := Remove(s, k);
            |t| == |s| - 1 && (forall j :: 0 <= j < k ==> t[j] == s[j]) && (forall j :: k <= j < |t| ==> t[j] == s[j + 1])
  {
  }

  /** Both versions keep one listener per port. */
  lemma ListenKeepsPortsDistinct(s: seq<Listener>, port: nat, cb: nat, arg: nat, allocOk: bool)
    requires DistinctPorts(s)
    ensures DistinctPorts(ListenAsWritten(s, port, cb, arg, allocOk).0)
    ensures DistinctPorts(Listen(s, port, cb, arg, allocOk).0)
  {
    match FindPort(s, port)
    case Some(k) =>
      var t := Remove(s, k);
      RemoveKeeps(s, k);
      forall i, j | 0 <= i < j < |t|
        ensures t[i].port != t[j].port
      {
        var oi := if i < k then i else i + 1;
        var oj := if j < k then j else j + 1;
        assert t[i] == s[oi] && t[j] == s[oj] && oi < oj;
      }
    case None =>
  }

  /** The corrected version never registers a NULL callback. */
  lemma ListenKeepsCallbacksSet(s: seq<Listener>, port: nat, cb: nat, arg: nat, allocOk: bool)
    requires CallbacksSet(s)
    ensures CallbacksSet(Listen(s, port, cb, arg, allocOk).0)
  {
    match FindPort(s, port)
    case Some(k) => RemoveKeeps(s, k);
    case None =>
  }

  /** Registering then unregistering a new port leaves the list as it was, and so does the reverse. */
  lemma ListenThenUnlisten(s: seq<Listener>, port: nat, cb: nat, arg: nat)
    requires FindPort(s, port).None? && cb != 0
    ensures var (t, r) := ListenAsWritten(s, port, cb, arg, true);
            r == 0 && ListenAsWritten(t, port, 0, 0, true) == (s, 0)
  {
    var t := s + [Listener(port, cb, arg)];
    assert forall j :: 0 <= j < |s| ==> t[j] == s[j];
    assert t[|s|].port == port;
    assert FindPort(t, port) == Some(|s|);
    assert Remove(t, |s|) == s;
  }

  /** A second listener on a taken port is refused and changes nothing. */
  lemma TakenPortRefused(s: seq<Listener>, port: nat, cb: nat, arg: nat, allocOk: bool)
    requires FindPort(s, port).Some? && cb != 0
    ensures ListenAsWritten(s, port, cb, arg, allocOk) == (s, -1) && Listen(s, port, cb, arg, allocOk) == (s, -1)
  {
  }

  /** What udp_input does with a datagram. */
  datatype Delivery = Dropped | Deliver(callback: nat, arg: nat, payload: seq<byte>, srcIp: Ipv4Addr, srcPort: nat)

  const UDP_HDR_SIZE: nat := 8

  /** A 16-bit field in network order. */
  function Be16At(b: seq<byte>, k: nat): (r: nat)
    requires k + 2 <= |b|
    ensures r < U16
  {
    b[k] as nat * 0x100 + b[k + 1] as nat
  }

  /**
   * udp_input: a datagram shorter than its header is dropped; otherwise the
   * payload goes to the first listener on the destination port, with the
   * source address and port; no listener, no delivery.
   */
  function Input(s: seq<Listener>, pkt: seq<byte>, srcIp: Ipv4Addr): Delivery
  {
    if |pkt| < UDP_HDR_SIZE then Dropped
    else match FindPort(s, Be16At(pkt, 2))
      case Some(k) => Deliver(s[k].callback, s[k].arg, pkt[UDP_HDR_SIZE..], srcIp, Be16At(pkt, 0))
      case None => Dropped
  }

  /** With one listener per port, a datagram reaches exactly the listener on its port. */
  lemma InputReachesPortOwner(s: seq<Listener>, pkt: seq<byte>, srcIp: Ipv4Addr, k: nat)
    requires DistinctPorts(s) && |pkt| >= UDP_HDR_SIZE && k < |s| && s[k].port == Be16At(pkt, 2)
    ensures Input(s, pkt, srcIp) == Deliver(s[k].callback, s[k].arg, pkt[UDP_HDR_SIZE..], srcIp, Be16At(pkt, 0))
  {
    var f := FindPort(s, Be16At(pkt, 2));
    assert f.Some?;
    assert f.value == k;
  }

  /** As long as no NULL callback was registered, a delivery never calls NULL. */
  lemma InputCallsSetCallback(s: seq<Listener>, pkt: seq<byte>, srcIp: Ipv4Addr)
    requires CallbacksSet(s)
    ensures Input(s, pkt, srcIp).Deliver? ==> Input(s, pkt, srcIp).callback != 0
  {
  }

  /** udp_listen(port, NULL, ...) on a port nobody listens on registers a NULL callback that the next datagram calls. */
  lemma NullCallbackRegistered()
    ensures var (t, r) := ListenAsWritten([], 7, 0, 0, true);
            r == 0 && Input(t, [0, 9, 0, 7, 0, 8, 0, 0], 0).Deliver? && Input(t, [0, 9, 0, 7, 0, 8, 0, 0], 0).callback == 0
  {
    var t := ListenAsWritten([], 7, 0, 0, true).0;
    assert t == [Listener(7, 0, 0)];
    assert Be16At([0, 9, 0, 7, 0, 8, 0, 0], 2) == 7;
    assert FindPort(t, 7) == Some(0);
  }

  /** udp_list, updated in place. */
  class UdpListeners {
    var listeners: seq<Listener>

    constructor ()
      ensures listeners == []
    {
      listeners := [];
    }

    /** udp_listen as written. */
    method UdpListen(port: nat, cb: nat, arg: nat, allocOk: bool) returns (r: int)
      modifies this
      ensures (listeners, r) == ListenAsWritten(old(listeners), port, cb, arg, allocOk)
    {
      var i := 0;
      while i < |listeners|
        invariant i <= |listeners| && FirstFrom(listeners, OnPort(port), i) == FindPort(listeners, port)
        decreases |listeners| - i
      {
        if listeners[i].port == port {
          if cb == 0 {
            listeners := listeners[..i] + listeners[i + 1..];
            return 0;
          }
          return -1;
        }
        i := i + 1;
      }
      if !allocOk {
        return -1;
      }
      listeners := listeners + [Listener(port, cb, arg)];
      return 0;
    }

    /** udp_input: the walk for the destination port. */
    method UdpInput(pkt: seq<byte>, srcIp: Ipv4Addr) returns (d: Delivery)
      ensures d == Input(listeners, pkt, srcIp)
    {
      if |pkt| < UDP_HDR_SIZE {
        return Dropped;
      }
      var port := Be16At(pkt, 2);
      var i := 0;
      while i < |listeners|
        invariant i <= |listeners| && FirstFrom(listeners, OnPort(port), i) == FindPort(listeners, port)
        decreases |listeners| - i
      {
        if listeners[i].port == port {
          return Deliver(listeners[i].callback, listeners[i].arg, pkt[UDP_HDR_SIZE..], srcIp, Be16At(pkt, 0));
        }
        i := i + 1;
      }
      return Dropped;
    }
  }

  // udp_send_iovec and udp_send

  const EINVAL: int := 22
  const ENOMEM: int := 12

  /** The ports of an open udp_socket_t. */
  datatype Socket = Socket(sport: nat, dport: nat)

  /** The datagram handed to the IPv4 layer, or the error returned before that. */
  datatype SendOutcome = SendError(code: int) | Datagram(bytes: seq<byte>)

  /** htons(v) in memory for v below 65536. */
  function Be16(v: nat): (r: seq<byte>)
    requires v < U16
    ensures |r| == 2 && Be16At(r, 0) == v
  {
    [(v / 0x100) as byte, (v % 0x100) as byte]
  }

  /** iovec_to_membuf: the buffers one after another. */
  function Gather(iov: seq<seq<byte>>): seq<byte>
  {
    if iov == [] then [] else iov[0] + Gather(iov[1..])
  }

  /**
   * The UDP header: source and destination port from the socket, the
   * length htons(8 + len) in 16 bits, checksum 0.
   */
  function UdpHeader(sock: Socket, len: nat): (r: seq<byte>)
    requires sock.sport < U16 && sock.dport < U16
    ensures |r| == UDP_HDR_SIZE
  {
    Be16(sock.sport) + Be16(sock.dport) + Be16((UDP_HDR_SIZE + len) % U16) + [0, 0]
  }

  /**
   * udp_send_iovec: a NULL handle or iovec (None) or a count of 0 is
   * -EINVAL; a failed pktbuf_alloc is -ENOMEM; otherwise the header in
   * front of the gathered payload.
   */
  function SendIovec(iov: Option<seq<seq<byte>>>, handle: Option<Socket>, allocOk: bool): SendOutcome
    requires handle.Some? ==> handle.value.sport < U16 && handle.value.dport < U16
  {
    if handle.None? || iov.None? || |iov.value| == 0 then SendError(-EINVAL)
    else if !allocOk then SendError(-ENOMEM)
    else var payload := Gather(iov.value);
         Datagram(UdpHeader(handle.value, |payload|) + payload)
  }

  /** udp_send: a NULL buffer (None) or an empty one is -EINVAL; otherwise a one-element iovec. */
  function Send(buf: Option<seq<byte>>, handle: Option<Socket>, allocOk: bool): SendOutcome
    requires handle.Some? ==> handle.value.sport < U16 && handle.value.dport < U16
  {
    if buf.None? || |buf.value| == 0 then SendError(-EINVAL)
    else SendIovec(Some([buf.value]), handle, allocOk)
  }

  /**
   * A datagram that fits reads back as sent: the receiver's udp_input sees
   * the socket's ports, a length field equal to the datagram's length, and
   * the payload.
   */
  lemma SentDatagramReadsBack(buf: seq<byte>, sock: Socket)
    requires sock.sport < U16 && sock.dport < U16 && 0 < |buf| && UDP_HDR_SIZE + |buf| < U16
    ensures var out := Send(Some(buf), Some(sock), true);
            out.Datagram? && |out.bytes| == UDP_HDR_SIZE + |buf|
            && Be16At(out.bytes, 0) == sock.sport && Be16At(out.bytes, 2) == sock.dport
            && Be16At(out.bytes, 4) == |out.bytes| && out.bytes[UDP_HDR_SIZE..] == buf
  {
    assert Gather([buf]) == buf by {
      assert [buf][1..] == [];
    }
    var h := UdpHeader(sock, |buf|);
    var out := h + buf;
    assert out[..8] == h;
    assert h[0..2] == Be16(sock.sport) && h[2..4] == Be16(sock.dport) && h[4..6] == Be16(UDP_HDR_SIZE + |buf|);
  }

  /** The argument checks come before anything else. */
  lemma SendRejectsMissingArguments(iov: Option<seq<seq<byte>>>, handle: Option<Socket>, allocOk: bool, buf: Option<seq<byte>>)
    requires handle.Some? ==> handle.value.sport < U16 && handle.value.dport < U16
    ensures (handle.None? || iov.None? || (iov.Some? && iov.value == [])) ==> SendIovec(iov, handle, allocOk) == SendError(-EINVAL)
    ensures (buf.None? || (buf.Some? && buf.value == [])) ==> Send(buf, handle, allocOk) == SendError(-EINVAL)
    ensures handle.Some? && buf.Some? && buf.value != [] && !allocOk ==> Send(buf, handle, allocOk) == SendError(-ENOMEM)
  {
  }
}
