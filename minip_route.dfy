/**
 * minip's fixed-size IPv4 routing table (lib/minip/minip.c): sixteen slots,
 * each a destination, a mask, an interface, a reference count and the
 * UP/DEFAULT flags. A search hands back a route with its reference count
 * raised; the caller drops the reference when done with it.
 */
module MinipRoute {
  import opened Lk
  import opened MinipNet

  /** countof(route_table). */
  const ROUTE_SLOTS: nat := 16

  /**
   * IPV4_ROUTE_UP and IPV4_ROUTE_DEFAULT come from minip-internal.h, which
   * is not part of this model: two distinct single bits.
   */
  const IPV4_ROUTE_UP: bv32 := 1
  const IPV4_ROUTE_DEFAULT: bv32 := 2

  /** ipv4_route_t; the interface is a handle standing for the netif pointer. */
  datatype Route = Route(dest: Ipv4Addr, mask: Ipv4Addr, iface: nat, ref: nat, flags: bv32)

  predicate Up(r: Route) { r.flags & IPV4_ROUTE_UP != 0 }
  predicate IsDefault(r: Route) { Up(r) && r.flags & IPV4_ROUTE_DEFAULT != 0 }

  /** An up, non-default route whose subnet holds dest. */
  predicate Serves(r: Route, dest: Ipv4Addr)
  {
    Up(r) && r.flags & IPV4_ROUTE_DEFAULT == 0 && dest & r.mask == r.dest
  }

  /** A slot nobody uses: no references and no flags. */
  predicate Unused(r: Route) { r.ref == 0 && r.flags == 0 }

  /**
   * The search loop of ipv4_search_route from slot i, with def the last
   * default route seen so far: the first serving route wins; a default route
   * is remembered; at the end the remembered default, if any.
   */
  function SearchFrom(rs: seq<Route>, dest: Ipv4Addr, i: nat, def: Option<nat>): (r: Option<nat>)
    requires i <= |rs| && (def.Some? ==> def.value < i)
    ensures r.Some? ==> r.value < |rs|
    decreases |rs| - i
  {
    if i == |rs| then def
    else if IsDefault(rs[i]) then SearchFrom(rs, dest, i + 1, Some(i))
    else if Serves(rs[i], dest) then Some(i)
    else SearchFrom(rs, dest, i + 1, def)
  }

  /** The slot ipv4_search_route picks. */
  function Search(rs: seq<Route>, dest: Ipv4Addr): (r: Option<nat>)
    ensures r.Some? ==> r.value < |rs|
  {
    SearchFrom(rs, dest, 0, None)
  }

  // An independent statement of the choice: the first serving route, else the last default route.

  predicate FirstServing(rs: seq<Route>, dest: Ipv4Addr, k: nat)
  {
    k < |rs| && Serves(rs[k], dest) && forall j :: 0 <= j < k ==> !Serves(rs[j], dest)
  }

  predicate LastDefault(rs: seq<Route>, k: nat)
  {
    k < |rs| && IsDefault(rs[k]) && forall j :: k < j < |rs| ==> !IsDefault(rs[j])
  }

  /** The loop from i, where def is the last default route before i. */
  lemma {:induction false} SearchFromChoice(rs: seq<Route>, dest: Ipv4Addr, i: nat, def: Option<nat>)
    requires i <= |rs| && forall j :: 0 <= j < i ==> !Serves(rs[j], dest)
    requires def.Some? ==> def.value < i && IsDefault(rs[def.value]) && forall j :: def.value < j < i ==> !IsDefault(rs[j])
    requires def.None? ==> forall j :: 0 <= j < i ==> !IsDefault(rs[j])
    ensures var r := SearchFrom(rs, dest, i, def);
            (r.Some? && Serves(rs[r.value], dest) ==> FirstServing(rs, dest, r.value))
            && ((exists k :: i <= k < |rs| && Serves(rs[k], dest)) ==> r.Some? && FirstServing(rs, dest, r.value))
            && ((forall k :: i <= k < |rs| ==> !Serves(rs[k], dest)) ==>
                  (r.Some? <==> exists k :: 0 <= k < |rs| && IsDefault(rs[k])) && (r.Some? ==> LastDefault(rs, r.value)))
    decreases |rs| - i
  {
    if i < |rs| {
      if IsDefault(rs[i]) {
        SearchFromChoice(rs, dest, i + 1, Some(i));
      } else if !Serves(rs[i], dest) {
        SearchFromChoice(rs, dest, i + 1, def);
      }
    }
  }

  /**
   * ipv4_search_route picks the first up, non-default route whose subnet
   * holds dest; when there is none, the last up default route; and only
   * when there is neither, nothing.
   */
  lemma SearchChoice(rs: seq<Route>, dest: Ipv4Addr)
    ensures (exists k :: 0 <= k < |rs| && Serves(rs[k], dest)) ==>
              Search(rs, dest).Some? && FirstServing(rs, dest, Search(rs, dest).value)
    ensures (forall k :: 0 <= k < |rs| ==> !Serves(rs[k], dest)) ==>
              (Search(rs, dest).Some? <==> exists k :: 0 <= k < |rs| && IsDefault(rs[k]))
              && (Search(rs, dest).Some? ==> LastDefault(rs, Search(rs, dest).value))
  {
    SearchFromChoice(rs, dest, 0, None);
  }

  /** The first unused slot from i on. */
  function FreeSlot(rs: seq<Route>, i: nat): (r: Option<nat>)
    requires i <= |rs|
    ensures r.Some? ==> i <= r.value < |rs| && Unused(rs[r.value]) && forall j :: i <= j < r.value ==> !Unused(rs[j])
    ensures r.None? ==> forall j :: i <= j < |rs| ==> !Unused(rs[j])
    decreases |rs| - i
  {
    if i == |rs| then None
    else if Unused(rs[i]) then Some(i)
    else FreeSlot(rs, i + 1)
  }

  /** The table after ipv4_add_route or ipv4_add_default_route put route into the first unused slot; unchanged when there is none. */
  function AddSpec(rs: seq<Route>, route: Route): seq<Route>
  {
    match FreeSlot(rs, 0)
    case Some(k) => rs[k := route]
    case None => rs
  }

  /** A route that serves dest: its subnet holds dest. */
  lemma {:induction false} AddedRouteServes(rs: seq<Route>, dest: Ipv4Addr, mask: Ipv4Addr, iface: nat, d: Ipv4Addr)
    requires FreeSlot(rs, 0).Some? && d & mask == dest
    ensures Search(AddSpec(rs, Route(dest, mask, iface, 0, IPV4_ROUTE_UP)), d).Some?
  {
    var k := FreeSlot(rs, 0).value;
    var rs' := AddSpec(rs, Route(dest, mask, iface, 0, IPV4_ROUTE_UP));
    assert Serves(rs'[k], d);
    SearchChoice(rs', d);
  }

  /** Once a default route is in the table, every destination has a route. */
  lemma {:induction false} DefaultRouteServesAll(rs: seq<Route>, dest: Ipv4Addr, iface: nat, d: Ipv4Addr)
    requires FreeSlot(rs, 0).Some?
    ensures Search(AddSpec(rs, Route(dest, 0, iface, 0, IPV4_ROUTE_UP | IPV4_ROUTE_DEFAULT)), d).Some?
  {
    var k := FreeSlot(rs, 0).value;
    var rs' := AddSpec(rs, Route(dest, 0, iface, 0, IPV4_ROUTE_UP | IPV4_ROUTE_DEFAULT));
    assert IsDefault(rs'[k]);
    SearchChoice(rs', d);
  }

  /** route_table: the sixteen slots, updated in place. */
  class RouteTable {
    const routes: array<Route>

    constructor ()
      ensures routes.Length == ROUTE_SLOTS && fresh(routes)
      ensures forall i :: 0 <= i < ROUTE_SLOTS ==> routes[i] == Route(0, 0, 0, 0, 0)
    {
      routes := new Route[ROUTE_SLOTS](_ => Route(0, 0, 0, 0, 0));
    }

    /** The scan of ipv4_search_route: the slot it picks, the table untouched. */
    method FindRoute(dest: Ipv4Addr) returns (r: Option<nat>)
      ensures r == Search(routes[..], dest)
    {
      ghost var rs := routes[..];
      var def: Option<nat> := None;
      var i := 0;
      while i < routes.Length
        invariant i <= routes.Length && (def.Some? ==> def.value < i)
        invariant SearchFrom(rs, dest, i, def) == Search(rs, dest)
        decreases routes.Length - i
      {
        var rt := routes[i];
        assert rt == rs[i];
        if Up(rt) {
          if IsDefault(rt) {
            def := Some(i);
          } else if Serves(rt, dest) {
            return Some(i);
          }
        }
        i := i + 1;
      }
      return def;
    }

    /**
     * ipv4_search_route: the chosen route gets one more reference and is
     * returned; with no route the table is unchanged.
     */
    method SearchRoute(dest: Ipv4Addr) returns (r: Option<nat>)
      modifies routes
      ensures r == Search(old(routes[..]), dest)
      ensures r.None? ==> routes[..] == old(routes[..])
      ensures r.Some? ==> routes[..] == old(routes[..])[r.value := old(routes[r.value]).(ref := old(routes[r.value]).ref + 1)]
    {
      r := FindRoute(dest);
      if r.Some? {
        routes[r.value] := routes[r.value].(ref := routes[r.value].ref + 1);
      }
    }

    /** ipv4_dec_route_ref: one reference fewer on a route that holds one. */
    method DecRouteRef(k: nat)
      requires k < routes.Length && routes[k].ref >= 1
      modifies routes
      ensures routes[..] == old(routes[..])[k := old(routes[k]).(ref := old(routes[k]).ref - 1)]
    {
      routes[k] := routes[k].(ref := routes[k].ref - 1);
    }

    /** The slot loop of ipv4_add_route and ipv4_add_default_route. */
    method AddInFreeSlot(route: Route) returns (r: Status)
      modifies routes
      ensures routes[..] == AddSpec(old(routes[..]), route)
      ensures r == (if FreeSlot(old(routes[..]), 0).Some? then NoError else ErrNoMemory)
    {
      var i := 0;
      while i < routes.Length
        invariant i <= routes.Length && FreeSlot(routes[..], i) == FreeSlot(routes[..], 0)
        decreases routes.Length - i
      {
        if routes[i].ref == 0 && routes[i].flags == 0 {
          routes[i] := route;
          return NoError;
        }
        i := i + 1;
      }
      return ErrNoMemory;
    }

    /** ipv4_add_route: the first unused slot becomes an up route to dest/mask; a full table is ERR_NO_MEMORY. */
    method AddRoute(dest: Ipv4Addr, mask: Ipv4Addr, iface: nat) returns (r: Status)
      modifies routes
      ensures routes[..] == AddSpec(old(routes[..]), Route(dest, mask, iface, 0, IPV4_ROUTE_UP))
      ensures r == (if FreeSlot(old(routes[..]), 0).Some? then NoError else ErrNoMemory)
    {
      r := AddInFreeSlot(Route(dest, mask, iface, 0, 0 | IPV4_ROUTE_UP));
    }

    /** ipv4_add_default_route: the same with mask 0 and the flags UP and DEFAULT. */
    method AddDefaultRoute(dest: Ipv4Addr, iface: nat) returns (r: Status)
      modifies routes
      ensures routes[..] == AddSpec(old(routes[..]), Route(dest, 0, iface, 0, IPV4_ROUTE_UP | IPV4_ROUTE_DEFAULT))
      ensures r == (if FreeSlot(old(routes[..]), 0).Some? then NoError else ErrNoMemory)
    {
      r := AddInFreeSlot(Route(dest, 0, iface, 0, (0 | IPV4_ROUTE_UP) | IPV4_ROUTE_DEFAULT));
    }
  }
}
