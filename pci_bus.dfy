/**
 * A PCI bus as the bus manager discovers it (dev/bus/pci/bus_mgr/bus.cpp):
 * every device slot 0..31 is scanned, function 0 always and functions 1..7
 * only behind a multi-function header, and whatever probes successfully is
 * appended to the bus's child list in scan order.
 */
module PciBus {
  import opened Lk
  import opened PciConfig

  const DEVICES_PER_BUS: nat := 32
  const FUNCTIONS_PER_DEVICE: nat := 8

  /** What the four header reads of one slot tell the scan. */
  datatype Probed = Absent | Present(isBridge: bool, multiFn: bool)

  /** One child of a bus: its slot and whether it was probed as a bridge. */
  datatype Child = Child(dev: nat, fn: nat, isBridge: bool)

  /**
   * Vendor id, base class, sub class and header type, in that order; any
   * failed read or a vendor of 0xFFFF leaves the slot empty.
   */
  function Classify(s: Space): Probed {
    var vendor := s.half(VENDOR_ID);
    var base := s.byte(CLASS_CODE_BASE);
    var sub := s.byte(CLASS_CODE_SUB);
    var header := s.byte(HEADER_TYPE);
    if !Ok(vendor) || vendor.value == 0xFFFF then Absent
    else if !Ok(base) || !Ok(sub) || !Ok(header) then Absent
    else Present(base.value == CLASS_BRIDGE && sub.value == SUBCLASS_PCI_BRIDGE,
                 header.value & HEADER_TYPE_MULTI_FN != 0)
  }

  /** Function 0 of a slot is present and announces more functions. */
  predicate MultiFunction(s: Space) {
    Classify(s).Present? && Classify(s).multiFn
  }

  /** A grid of the 32 x 8 function slots of one bus. */
  predicate WellFormed(slots: seq<seq<Space>>) {
    |slots| == DEVICES_PER_BUS && forall d :: 0 <= d < |slots| ==> |slots[d]| == FUNCTIONS_PER_DEVICE
  }

  /** The multi-function flag after function fn has been read. */
  function NextMulti(p: Probed, fn: nat, multi: bool): bool {
    if p.Present? then multi || (fn == 0 && p.multiFn) else multi
  }

  /** The child a probed slot contributes: none when it is absent or its probe fails. */
  function Hit(p: Probed, status: Status, dev: nat, fn: nat): seq<Child> {
    if p.Present? && status == NoError then [Child(dev, fn, p.isBridge)] else []
  }

  /** The function loop of one device, from fn on, with the multi-function flag seen so far. */
  function Functions(slots: seq<seq<Space>>, outcome: (nat, nat) -> Status, dev: nat, fn: nat, multi: bool): seq<Child>
    requires WellFormed(slots) && dev < DEVICES_PER_BUS && fn <= FUNCTIONS_PER_DEVICE
    decreases FUNCTIONS_PER_DEVICE - fn
  {
    if !(fn == 0 || (multi && fn < FUNCTIONS_PER_DEVICE)) then []
    else
      var p := Classify(slots[dev][fn]);
      Hit(p, outcome(dev, fn), dev, fn) + Functions(slots, outcome, dev, fn + 1, NextMulti(p, fn, multi))
  }

  /** The children found on devices 0..n-1. */
  function DevicesBelow(slots: seq<seq<Space>>, outcome: (nat, nat) -> Status, n: nat): seq<Child>
    requires WellFormed(slots) && n <= DEVICES_PER_BUS
  {
    if n == 0 then [] else DevicesBelow(slots, outcome, n - 1) + Functions(slots, outcome, n - 1, 0, false)
  }

  /** The child list of a freshly probed bus. */
  function Scan(slots: seq<seq<Space>>, outcome: (nat, nat) -> Status): seq<Child>
    requires WellFormed(slots)
  {
    DevicesBelow(slots, outcome, DEVICES_PER_BUS)
  }

  /** The scan finds a child exactly where the header reads and the probe succeed. */
  predicate Found(slots: seq<seq<Space>>, outcome: (nat, nat) -> Status, c: Child)
    requires WellFormed(slots)
  {
    && c.dev < DEVICES_PER_BUS && c.fn < FUNCTIONS_PER_DEVICE
    && Classify(slots[c.dev][c.fn]).Present?
    && Classify(slots[c.dev][c.fn]).isBridge == c.isBridge
    && outcome(c.dev, c.fn) == NoError
    && (c.fn == 0 || MultiFunction(slots[c.dev][0]))
  }

  lemma {:induction false} FunctionsFound(slots: seq<seq<Space>>, outcome: (nat, nat) -> Status, dev: nat, fn: nat, multi: bool, c: Child)
    requires WellFormed(slots) && dev < DEVICES_PER_BUS && fn <= FUNCTIONS_PER_DEVICE
    requires (fn == 0 && !multi) || (fn > 0 && multi == MultiFunction(slots[dev][0]))
    ensures c in Functions(slots, outcome, dev, fn, multi) <==> c.dev == dev && fn <= c.fn && Found(slots, outcome, c)
    decreases FUNCTIONS_PER_DEVICE - fn
  {
    if fn == 0 || (multi && fn < FUNCTIONS_PER_DEVICE) {
      var multi' := NextMulti(Classify(slots[dev][fn]), fn, multi);
      assert fn == 0 ==> multi' == MultiFunction(slots[dev][0]);
      FunctionsFound(slots, outcome, dev, fn + 1, multi', c);
    }
  }

  /** A child is on the bus iff its slot answers, its probe succeeds and, past function 0, function 0 is multi-function. */
  lemma {:induction false} ScanFound(slots: seq<seq<Space>>, outcome: (nat, nat) -> Status, c: Child)
    requires WellFormed(slots)
    ensures c in Scan(slots, outcome) <==> Found(slots, outcome, c)
  {
    DevicesBelowFound(slots, outcome, DEVICES_PER_BUS, c);
  }

  lemma {:induction false} DevicesBelowFound(slots: seq<seq<Space>>, outcome: (nat, nat) -> Status, n: nat, c: Child)
    requires WellFormed(slots) && n <= DEVICES_PER_BUS
    ensures c in DevicesBelow(slots, outcome, n) <==> c.dev < n && Found(slots, outcome, c)
  {
    if n > 0 {
      DevicesBelowFound(slots, outcome, n - 1, c);
      FunctionsFound(slots, outcome, n - 1, 0, false, c);
    }
  }

  /** The scan position of a slot. */
  function Key(c: Child): nat { c.dev * FUNCTIONS_PER_DEVICE + c.fn }

  predicate InScanOrder(cs: seq<Child>) {
    forall i, j :: 0 <= i < j < |cs| ==> Key(cs[i]) < Key(cs[j])
  }

  lemma {:induction false} FunctionsOrdered(slots: seq<seq<Space>>, outcome: (nat, nat) -> Status, dev: nat, fn: nat, multi: bool)
    requires WellFormed(slots) && dev < DEVICES_PER_BUS && fn <= FUNCTIONS_PER_DEVICE
    ensures InScanOrder(Functions(slots, outcome, dev, fn, multi))
    ensures forall c :: c in Functions(slots, outcome, dev, fn, multi) ==> c.dev == dev && fn <= c.fn < FUNCTIONS_PER_DEVICE
    decreases FUNCTIONS_PER_DEVICE - fn
  {
    if fn == 0 || (multi && fn < FUNCTIONS_PER_DEVICE) {
      FunctionsOrdered(slots, outcome, dev, fn + 1, NextMulti(Classify(slots[dev][fn]), fn, multi));
    }
  }

  lemma {:induction false} DevicesBelowOrdered(slots: seq<seq<Space>>, outcome: (nat, nat) -> Status, n: nat)
    requires WellFormed(slots) && n <= DEVICES_PER_BUS
    ensures InScanOrder(DevicesBelow(slots, outcome, n))
    ensures forall c :: c in DevicesBelow(slots, outcome, n) ==> c.dev < n && c.fn < FUNCTIONS_PER_DEVICE
  {
    if n > 0 {
      var front := DevicesBelow(slots, outcome, n - 1);
      var last := Functions(slots, outcome, n - 1, 0, false);
      DevicesBelowOrdered(slots, outcome, n - 1);
      FunctionsOrdered(slots, outcome, n - 1, 0, false);
      ConcatInScanOrder(front, last, (n - 1) * FUNCTIONS_PER_DEVICE);
    }
  }

  lemma ConcatInScanOrder(a: seq<Child>, b: seq<Child>, k: nat)
    requires InScanOrder(a) && InScanOrder(b)
    requires forall c :: c in a ==> Key(c) < k
    requires forall c :: c in b ==> k <= Key(c)
    ensures InScanOrder(a + b)
  {
    forall i, j | 0 <= i < j < |a + b| ensures Key((a + b)[i]) < Key((a + b)[j]) {
      if j < |a| {
        assert (a + b)[i] == a[i] && (a + b)[j] == a[j];
      } else if i >= |a| {
        assert (a + b)[i] == b[i - |a|] && (a + b)[j] == b[j - |a|];
      } else {
        assert (a + b)[i] == a[i] && (a + b)[j] == b[j - |a|];
        assert a[i] in a && b[j - |a|] in b;
      }
    }
  }

  /** Children are listed in increasing (device, function) order, so no slot appears twice. */
  lemma ScanOrdered(slots: seq<seq<Space>>, outcome: (nat, nat) -> Status)
    requires WellFormed(slots)
    ensures InScanOrder(Scan(slots, outcome))
  {
    DevicesBelowOrdered(slots, outcome, DEVICES_PER_BUS);
  }

  /** A device whose function 0 does not answer contributes no children at all. */
  lemma AbsentFunctionZero(slots: seq<seq<Space>>, outcome: (nat, nat) -> Status, c: Child)
    requires WellFormed(slots) && c.dev < DEVICES_PER_BUS && Classify(slots[c.dev][0]).Absent?
    ensures c !in Scan(slots, outcome)
  {
    ScanFound(slots, outcome, c);
  }

  /** The bus object: its number and the devices and bridges probed on it. */
  class Bus {
    var busNum: bv8
    var children: seq<Child>

    constructor(busNum: bv8)
      ensures this.busNum == busNum && children == []
    {
      this.busNum := busNum;
      children := [];
    }

    /** bus::add_device: the child goes to the tail of the list. */
    method AddDevice(c: Child)
      modifies this
      ensures busNum == old(busNum) && children == old(children) + [c]
    {
      children := children + [c];
    }

    /**
     * bus::probe: scans the bus and always succeeds. The bus number is
     * returned as lastBus, what the bus manager records before the scan;
     * outcome(dev, fn) is the status of bridge::probe or device::probe for a
     * slot that answers.
     */
    static method Probe(busNum: bv8, slots: seq<seq<Space>>, outcome: (nat, nat) -> Status)
      returns (status: Status, b: Bus, lastBus: bv8)
      requires WellFormed(slots)
      ensures status == NoError && lastBus == busNum
      ensures fresh(b) && b.busNum == busNum && b.children == Scan(slots, outcome)
    {
      b := new Bus(busNum);
      lastBus := busNum;
      var dev: nat := 0;
      while dev < DEVICES_PER_BUS
        invariant dev <= DEVICES_PER_BUS && fresh(b) && b.busNum == busNum
        invariant b.children == DevicesBelow(slots, outcome, dev)
      {
        b.ScanDevice(slots, outcome, dev);
        dev := dev + 1;
      }
      status := NoError;
    }

    /** The function loop for one device slot. */
    method ScanDevice(slots: seq<seq<Space>>, outcome: (nat, nat) -> Status, dev: nat)
      requires WellFormed(slots) && dev < DEVICES_PER_BUS
      modifies this
      ensures busNum == old(busNum) && children == old(children) + Functions(slots, outcome, dev, 0, false)
    {
      ghost var target := children + Functions(slots, outcome, dev, 0, false);
      var possiblyMultifunction := false;
      var fn: nat := 0;
      while fn == 0 || (possiblyMultifunction && fn < FUNCTIONS_PER_DEVICE)
        invariant fn <= FUNCTIONS_PER_DEVICE && busNum == old(busNum)
        invariant children + Functions(slots, outcome, dev, fn, possiblyMultifunction) == target
        decreases FUNCTIONS_PER_DEVICE - fn
      {
        var p := Classify(slots[dev][fn]);
        ghost var before := children;
        ghost var multi := possiblyMultifunction;
        ghost var rest := Functions(slots, outcome, dev, fn + 1, NextMulti(p, fn, possiblyMultifunction));
        assert before + Hit(p, outcome(dev, fn), dev, fn) + rest == target;
        if p.Present? {
          if fn == 0 && p.multiFn {
            possiblyMultifunction := true;
          }
          if outcome(dev, fn) == NoError {
            AddDevice(Child(dev, fn, p.isBridge));
          }
        }
        assert children == before + Hit(p, outcome(dev, fn), dev, fn);
        assert possiblyMultifunction == NextMulti(p, fn, multi);
        fn := fn + 1;
      }
    }
  }
}
