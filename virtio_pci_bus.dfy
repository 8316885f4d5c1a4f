/**
 * The virtio transport over PCI (virtio_pci_bus): classification of the
 * vendor capabilities that locate the common, notify, ISR, device and PCI
 * configuration windows (section 4.1.4 of the Virtual I/O Device
 * specification 1.2), the bring-up sequence of init, the split-virtqueue
 * address layout register_ring programs, the notify address of a kick and the
 * dispatch of the ISR status byte.
 */
module VirtioPciBus {
  import opened Lk
  import opened PciBars

  /** cfg_type values of struct virtio_pci_cap. */
  const COMMON_CFG: nat := 1
  const NOTIFY_CFG: nat := 2
  const ISR_CFG: nat := 3
  const DEVICE_CFG: nat := 4
  const PCI_CFG: nat := 5

  /** sizeof(virtio_pci_cap) and sizeof(virtio_pci_notify_cap). */
  const CAP_SIZE: int := 16
  const NOTIFY_CAP_SIZE: int := 20

  /** The six BAR slots of bar_map_ and map_bars. */
  const BAR_SLOTS: nat := 6

  /** Bit 32 of the device feature bits, VIRTIO_F_VERSION_1. */
  const VIRTIO_F_VERSION_1: bv64 := 1 << 32

  /** The fields of struct virtio_pci_cap the driver uses. */
  datatype Cap = Cap(cfgType: nat, bar: nat, offset: nat, length: nat)

  /**
   * What pci_read_vendor_capability yields for one capability index: the
   * byte count (or negative error) of the 16-byte read and the capability it
   * filled in, and the count of the 20-byte re-read a notify capability gets
   * with the notify_off_multiplier it carries.
   */
  datatype VendorRead = VendorRead(count: int, cap: Cap, notifyCount: int, multiplier: nat)

  /** config_pointer: one configuration window inside a BAR. */
  datatype ConfigPointer = ConfigPointer(valid: bool, bar: nat, offset: nat, length: nat)

  const ABSENT: ConfigPointer := ConfigPointer(false, 0, 0, 0)

  /** The fields of virtio_pci_common_cfg the driver writes. */
  datatype CommonReg = DriverFeatureSelect | DriverFeature | QueueSelect | QueueSize
                     | QueueDesc | QueueDriver | QueueDevice | QueueEnable

  /** What the transport does to the device and the platform, in order. */
  datatype Event =
    | CommonWrite(reg: CommonReg, value: nat)
    | EnableDevice
    | Notify(address: nat, value: nat)
    | MaskInterrupt(vector: nat)
    | RegisterHandler(vector: nat, msi: bool)

  /** One read of capability index i ends the loop unless it returned all 16 bytes. */
  predicate Complete(r: VendorRead) { r.count >= CAP_SIZE }

  /**
   * How many capabilities the loop of init classifies: it reads index 0, 1, …
   * and stops at the first incomplete read; an index past the end of `caps`
   * is a failed read.
   */
  function ScanLength(caps: seq<VendorRead>): (n: nat)
    ensures n <= |caps|
    ensures forall k :: 0 <= k < n ==> Complete(caps[k])
    ensures n < |caps| ==> !Complete(caps[n])
  {
    if |caps| == 0 || !Complete(caps[0]) then 0 else 1 + ScanLength(caps[1..])
  }

  /**
   * Whether a read capability lands in the window of type t: its cfg_type is
   * t and, for the notify window, the 20-byte re-read succeeded (a failed
   * re-read leaves the switch before the common tail).
   */
  predicate Records(r: VendorRead, t: nat)
  {
    r.cap.cfgType == t && (t != NOTIFY_CFG || r.notifyCount >= NOTIFY_CAP_SIZE)
  }

  /** Whether a read capability lands in any window (cfg_type 1 to 5). */
  predicate Recorded(r: VendorRead)
  {
    Records(r, COMMON_CFG) || Records(r, NOTIFY_CFG) || Records(r, ISR_CFG)
    || Records(r, DEVICE_CFG) || Records(r, PCI_CFG)
  }

  function PointerOf(c: Cap): ConfigPointer
  {
    ConfigPointer(true, c.bar, c.offset, c.length)
  }

  /** The window of type t after classifying `caps` in order: the last capability of that type wins. */
  function Classified(caps: seq<VendorRead>, t: nat): ConfigPointer
  {
    if |caps| == 0 then ABSENT
    else if Records(caps[|caps| - 1], t) then PointerOf(caps[|caps| - 1].cap)
    else Classified(caps[..|caps| - 1], t)
  }

  /** notify_offset_multiplier_ after classifying `caps`, starting from m0. */
  function Multiplier(caps: seq<VendorRead>, m0: nat): nat
  {
    if |caps| == 0 then m0
    else if Records(caps[|caps| - 1], NOTIFY_CFG) then caps[|caps| - 1].multiplier
    else Multiplier(caps[..|caps| - 1], m0)
  }

  /** map_bars[b] after classifying `caps`: some recorded capability lives in BAR b. */
  predicate MapsBar(caps: seq<VendorRead>, b: nat)
  {
    exists k :: 0 <= k < |caps| && Recorded(caps[k]) && caps[k].cap.bar == b
  }

  /**
   * A window is valid exactly when some capability of its type was read,
   * and then it is the last such capability.
   */
  lemma {:induction false} ClassifiedIsLast(caps: seq<VendorRead>, t: nat)
    ensures Classified(caps, t).valid <==> exists k :: 0 <= k < |caps| && Records(caps[k], t)
    ensures Classified(caps, t).valid ==>
      exists k :: 0 <= k < |caps| && Records(caps[k], t) && Classified(caps, t) == PointerOf(caps[k].cap)
                  && forall j :: k < j < |caps| ==> !Records(caps[j], t)
    decreases |caps|
  {
    if |caps| > 0 {
      var last := |caps| - 1;
      var init := caps[..last];
      if !Records(caps[last], t) {
        ClassifiedIsLast(init, t);
        assert forall k :: 0 <= k < last ==> init[k] == caps[k];
        if Classified(caps, t).valid {
          var k :| 0 <= k < |init| && Records(init[k], t) && Classified(init, t) == PointerOf(init[k].cap)
                   && forall j :: k < j < |init| ==> !Records(init[j], t);
          assert forall j :: k < j < |caps| ==> !Records(caps[j], t) by {
            forall j | k < j < |caps| ensures !Records(caps[j], t) {
              if j < last { assert caps[j] == init[j]; }
            }
          }
        }
      }
    }
  }

  /** The window types init cannot do without: all but the device-specific one. */
  predicate MandatoryType(t: nat)
  {
    t == COMMON_CFG || t == NOTIFY_CFG || t == ISR_CFG || t == PCI_CFG
  }

  /** The mandatory windows (common, notify, ISR and PCI) are all present. */
  predicate Mandatory(common: ConfigPointer, notify: ConfigPointer, isr: ConfigPointer, pci: ConfigPointer)
  {
    common.valid && notify.valid && isr.valid && pci.valid
  }

  /** The capabilities init classifies. */
  function Scanned(caps: seq<VendorRead>): seq<VendorRead>
  {
    caps[..ScanLength(caps)]
  }

  /**
   * The status init returns: ERR_NOT_FOUND without the mandatory windows, the
   * failure of pci_bus_mgr_read_bars, NO_ERROR when MSI or else a legacy
   * interrupt could be allocated, and the legacy allocation's failure otherwise.
   */
  function InitStatus(caps: seq<VendorRead>, barsStatus: Status, msi: Read<nat>, legacy: Read<nat>): Status
  {
    var s := Scanned(caps);
    if !Mandatory(Classified(s, COMMON_CFG), Classified(s, NOTIFY_CFG), Classified(s, ISR_CFG), Classified(s, PCI_CFG))
    then ErrNotFound
    else if barsStatus != NoError then barsStatus
    else if Ok(msi) || Ok(legacy) then NoError
    else legacy.status
  }

  /**
   * The capability loop reads no capability past the first incomplete read:
   * init succeeds only if common, notify, ISR and PCI capabilities all appear
   * before it.
   */
  lemma InitNeedsMandatoryCaps(caps: seq<VendorRead>, barsStatus: Status, msi: Read<nat>, legacy: Read<nat>)
    requires InitStatus(caps, barsStatus, msi, legacy) == NoError
    ensures forall t :: MandatoryType(t) ==>
      exists k :: 0 <= k < |caps| && Records(caps[k], t) && forall j :: 0 <= j <= k ==> Complete(caps[j])
  {
    var s := Scanned(caps);
    forall t | MandatoryType(t)
      ensures exists k :: 0 <= k < |caps| && Records(caps[k], t) && forall j :: 0 <= j <= k ==> Complete(caps[j])
    {
      assert Classified(s, t).valid;
      ClassifiedIsLast(s, t);
      var k :| 0 <= k < |s| && Records(s[k], t);
      assert forall j :: 0 <= j <= k ==> Complete(caps[j]);
      assert s[k] == caps[k];
    }
  }

  /** The address bar_map_ gives each BAR: its physical address when the loop marked it and it is a memory BAR, else null. */
  function MappedBars(marked: seq<bool>, bars: seq<Bar>): (r: seq<nat>)
    requires |marked| == BAR_SLOTS && |bars| == BAR_SLOTS
    ensures |r| == BAR_SLOTS
    ensures forall i :: 0 <= i < BAR_SLOTS ==> (r[i] != 0 ==> marked[i] && !bars[i].io && r[i] == bars[i].addr as nat)
  {
    seq(BAR_SLOTS, i requires 0 <= i < BAR_SLOTS => if marked[i] && !bars[i].io then bars[i].addr as nat else 0)
  }

  /**
   * config_ptr: the address of a window, None for the null pointer of an
   * absent window and for a BAR number outside bar_map_ (which the source
   * indexes without a check).
   */
  function ConfigPtr(cfg: ConfigPointer, barMap: seq<nat>): (r: Option<nat>)
    ensures r.Some? <==> cfg.valid && cfg.bar < |barMap|
    ensures r.Some? ==> r.value >= cfg.offset
  {
    if !cfg.valid || cfg.bar >= |barMap| then None else Some(barMap[cfg.bar] + cfg.offset)
  }

  /** x rounded up to a multiple of align (ALIGN for a power-of-two align). */
  function RoundUp(x: nat, align: nat): (r: nat)
    requires align > 0
    ensures r % align == 0 && x <= r < x + align
  {
    var q := (x + align - 1) / align;
    assert x + align - 1 == align * q + (x + align - 1) % align;
    MultipleMod(q, align);
    align * q
  }

  lemma MultipleMod(q: nat, d: nat)
    requires d > 0
    ensures (d * q) % d == 0
  {
    var k := q - (d * q) / d;
    assert d * q == d * ((d * q) / d) + (d * q) % d;
    assert d * k == (d * q) % d;
  }

  /** The three guest-physical addresses of a split virtqueue as register_ring lays it out. */
  datatype RingLayout = RingLayout(desc: nat, avail: nat, used: nat)

  /**
   * register_ring: the descriptor table at pfn * page_size, the available ring
   * after 16-byte descriptors rounded up to 2, the used ring after the
   * available ring's 6 + 2·num bytes rounded up to queue_align. The products
   * 16·num and 2·num are uint32 products and wrap.
   */
  function Layout(pageSize: nat, num: nat, align: nat, pfn: nat): (r: RingLayout)
    requires pageSize < U32 && num < U32 && 0 < align < U32 && pfn < U32
    ensures r.desc == pfn * pageSize
    ensures r.avail % 2 == 0 && r.desc + (16 * num) % U32 <= r.avail < r.desc + (16 * num) % U32 + 2
    ensures r.used % align == 0 && r.avail + 6 + (2 * num) % U32 <= r.used
    ensures r.used < r.avail + 6 + (2 * num) % U32 + align
  {
    var desc := pfn * pageSize;
    var avail := RoundUp(desc + (16 * num) % U32, 2);
    RingLayout(desc, avail, RoundUp(avail + 6 + (2 * num) % U32, align))
  }

  /**
   * For a queue of fewer than 2^28 entries nothing wraps: the descriptor
   * table (16 bytes per entry), the available ring (6 + 2·num bytes) and the
   * used ring follow each other without overlapping.
   */
  lemma LayoutDisjoint(pageSize: nat, num: nat, align: nat, pfn: nat)
    requires pageSize < U32 && 0 < align < U32 && pfn < U32 && num < 0x1000_0000
    ensures var r := Layout(pageSize, num, align, pfn);
      r.desc + 16 * num <= r.avail && r.avail + 6 + 2 * num <= r.used
  {
    assert (16 * num) % U32 == 16 * num;
    assert (2 * num) % U32 == 2 * num;
  }

  /** The uint32 offset of a ring's notify register: ring_index · notify_off_multiplier, wrapped. */
  function NotifyOffset(ringIndex: nat, multiplier: nat): (r: nat)
    ensures r < U32
    ensures ringIndex * multiplier < U32 ==> r == ringIndex * multiplier
  {
    (ringIndex * multiplier) % U32
  }

  /** Without wrap-around and with a nonzero multiplier, distinct rings notify distinct registers. */
  lemma NotifyOffsetsDistinct(a: nat, b: nat, multiplier: nat)
    requires a != b && multiplier > 0 && a * multiplier < U32 && b * multiplier < U32
    ensures NotifyOffset(a, multiplier) != NotifyOffset(b, multiplier)
  {
    if a < b {
      assert a * multiplier < b * multiplier by { MulStrict(a, b, multiplier); }
    } else {
      assert b * multiplier < a * multiplier by { MulStrict(b, a, multiplier); }
    }
  }

  lemma MulStrict(a: nat, b: nat, m: nat)
    requires a < b && m > 0
    ensures a * m < b * m
  {
    assert b * m == a * m + (b - a) * m;
  }

  /** The handlers virtio_pci_irq calls, in order, and whether it asks for a reschedule. */
  datatype Handler = QueueHandler | ConfigHandler
  datatype IrqOutcome = IrqOutcome(calls: seq<Handler>, reschedule: bool)

  predicate UsedRingUpdate(isr: bv8) { isr & 1 != 0 }
  predicate ConfigChange(isr: bv8) { isr & 2 != 0 }

  /**
   * virtio_pci_irq: bit 0 of the ISR status calls the queue handler, bit 1
   * the config handler (queue first); the results are the handlers' answers
   * when called.
   */
  function Dispatch(isr: bv8, queueResched: bool, configResched: bool): (r: IrqOutcome)
    ensures QueueHandler in r.calls <==> UsedRingUpdate(isr)
    ensures ConfigHandler in r.calls <==> ConfigChange(isr)
    ensures |r.calls| <= 2 && (|r.calls| == 2 ==> r.calls == [QueueHandler, ConfigHandler])
    ensures r.reschedule <==> (QueueHandler in r.calls && queueResched) || (ConfigHandler in r.calls && configResched)
  {
    var q := if UsedRingUpdate(isr) then [QueueHandler] else [];
    var c := if ConfigChange(isr) then [ConfigHandler] else [];
    IrqOutcome(q + c, (UsedRingUpdate(isr) && queueResched) || (ConfigChange(isr) && configResched))
  }

  /** An ISR status without either bit calls nothing and never reschedules. */
  lemma SpuriousIrq(isr: bv8, queueResched: bool, configResched: bool)
    requires isr & 3 == 0
    ensures Dispatch(isr, queueResched, configResched) == IrqOutcome([], false)
  {
    assert isr & 1 == (isr & 3) & 1 && isr & 2 == (isr & 3) & 2;
  }

  /**
   * The corrected classification: a capability naming a reserved BAR (6 or
   * above) is ignored, as section 4.1.4 of the Virtual I/O Device
   * specification 1.2 requires of a driver.
   */
  predicate RecordsChecked(r: VendorRead, t: nat)
  {
    Records(r, t) && r.cap.bar < BAR_SLOTS
  }

  function ClassifiedChecked(caps: seq<VendorRead>, t: nat): ConfigPointer
  {
    if |caps| == 0 then ABSENT
    else if RecordsChecked(caps[|caps| - 1], t) then PointerOf(caps[|caps| - 1].cap)
    else ClassifiedChecked(caps[..|caps| - 1], t)
  }

  /** With the check, every window the classification accepts resolves to an address. */
  lemma {:induction false} ClassifiedCheckedResolves(caps: seq<VendorRead>, t: nat, barMap: seq<nat>)
    requires |barMap| == BAR_SLOTS
    ensures ClassifiedChecked(caps, t).valid ==> ConfigPtr(ClassifiedChecked(caps, t), barMap).Some?
    decreases |caps|
  {
    if |caps| > 0 && !RecordsChecked(caps[|caps| - 1], t) {
      ClassifiedCheckedResolves(caps[..|caps| - 1], t, barMap);
    }
  }

  /**
   * As written, a common capability in BAR 6 is accepted: init succeeds, yet
   * config_ptr of the common window indexes bar_map_[6], one past its end.
   */
  lemma ReservedBarAccepted(barMap: seq<nat>)
    requires |barMap| == BAR_SLOTS
    ensures var caps := [VendorRead(16, Cap(COMMON_CFG, 6, 0, 56), 16, 0),
                          VendorRead(20, Cap(NOTIFY_CFG, 0, 0x1000, 0x1000), 20, 4),
                          VendorRead(16, Cap(ISR_CFG, 0, 0x2000, 4), 16, 0),
                          VendorRead(16, Cap(PCI_CFG, 0, 0, 4), 16, 0)];
      InitStatus(caps, NoError, Read(NoError, 32), Read(NoError, 0)) == NoError
      && Classified(Scanned(caps), COMMON_CFG).valid
      && ConfigPtr(Classified(Scanned(caps), COMMON_CFG), barMap).None?
      && !ClassifiedChecked(Scanned(caps), COMMON_CFG).valid
  {
    var caps := [VendorRead(16, Cap(COMMON_CFG, 6, 0, 56), 16, 0),
                  VendorRead(20, Cap(NOTIFY_CFG, 0, 0x1000, 0x1000), 20, 4),
                  VendorRead(16, Cap(ISR_CFG, 0, 0x2000, 4), 16, 0),
                  VendorRead(16, Cap(PCI_CFG, 0, 0, 4), 16, 0)];
    assert ScanLength(caps[3..]) == 1;
    assert ScanLength(caps[2..]) == 2;
    assert ScanLength(caps[1..]) == 3;
    assert Scanned(caps) == caps;
    assert caps[..3][..2] == caps[..2] && caps[..2][..1] == caps[..1] && caps[..1][..0] == [];
    assert Classified(caps, COMMON_CFG) == Classified(caps[..3], COMMON_CFG) == Classified(caps[..2], COMMON_CFG)
        == Classified(caps[..1], COMMON_CFG) == PointerOf(caps[0].cap);
    assert Classified(caps, NOTIFY_CFG) == Classified(caps[..3], NOTIFY_CFG) == Classified(caps[..2], NOTIFY_CFG);
    assert Classified(caps, ISR_CFG) == Classified(caps[..3], ISR_CFG);
    assert ClassifiedChecked(caps, COMMON_CFG) == ClassifiedChecked(caps[..3], COMMON_CFG)
        == ClassifiedChecked(caps[..2], COMMON_CFG) == ClassifiedChecked(caps[..1], COMMON_CFG) == ABSENT;
  }

  /** A virtio_pci_bus: the windows init found, the BAR mappings and the interrupt it set up. */
  class Bus {
    var common: ConfigPointer
    var notify: ConfigPointer
    var isr: ConfigPointer
    var device: ConfigPointer
    var pci: ConfigPointer
    var multiplier: nat
    var barMap: seq<nat>
    var irq: Option<nat>
    var log: seq<Event>

    /** The value-initialised members of a new bus. */
    predicate Fresh()
      reads this
    {
      common == notify == isr == device == pci == ABSENT && multiplier == 0
      && barMap == [0, 0, 0, 0, 0, 0] && irq == None && log == []
    }

    constructor()
      ensures Fresh()
    {
      common, notify, isr, device, pci := ABSENT, ABSENT, ABSENT, ABSENT, ABSENT;
      multiplier := 0;
      barMap := [0, 0, 0, 0, 0, 0];
      irq := None;
      log := [];
    }

    /** The window of type t. */
    function Window(t: nat): ConfigPointer
      reads this
    {
      if t == COMMON_CFG then common else if t == NOTIFY_CFG then notify else if t == ISR_CFG then isr
      else if t == DEVICE_CFG then device else if t == PCI_CFG then pci else ABSENT
    }

    /** The windows and multiplier after classifying `s` from a fresh bus. */
    predicate ClassifiedAs(s: seq<VendorRead>)
      reads this
    {
      common == Classified(s, COMMON_CFG) && notify == Classified(s, NOTIFY_CFG) && isr == Classified(s, ISR_CFG)
      && device == Classified(s, DEVICE_CFG) && pci == Classified(s, PCI_CFG) && multiplier == Multiplier(s, 0)
    }

    /** One capability of the loop in init: fill the window its cfg_type selects and mark its BAR. */
    method Classify(r: VendorRead, mapBars: array<bool>)
      requires mapBars.Length == BAR_SLOTS
      modifies this, mapBars
      ensures barMap == old(barMap) && irq == old(irq) && log == old(log)
      ensures forall t :: t in {COMMON_CFG, NOTIFY_CFG, ISR_CFG, DEVICE_CFG, PCI_CFG} ==>
        Window(t) == if Records(r, t) then PointerOf(r.cap) else old(Window(t))
      ensures multiplier == if Records(r, NOTIFY_CFG) then r.multiplier else old(multiplier)
      ensures mapBars[..] == if Recorded(r) && r.cap.bar < BAR_SLOTS then old(mapBars[..])[r.cap.bar := true]
                             else old(mapBars[..])
    {
      var p := PointerOf(r.cap);
      var recorded := true;
      if r.cap.cfgType == COMMON_CFG {
        common := p;
      } else if r.cap.cfgType == NOTIFY_CFG {
        if r.notifyCount < NOTIFY_CAP_SIZE {
          recorded := false;
        } else {
          multiplier := r.multiplier;
          notify := p;
        }
      } else if r.cap.cfgType == ISR_CFG {
        isr := p;
      } else if r.cap.cfgType == DEVICE_CFG {
        device := p;
      } else if r.cap.cfgType == PCI_CFG {
        pci := p;
      } else {
        recorded := false;
      }
      if recorded && r.cap.bar < BAR_SLOTS {
        mapBars[r.cap.bar] := true;
      }
    }

    /**
     * The capability loop of init: classify index 0, 1, … until the first
     * incomplete read, marking in map_bars every BAR below 6 a window lives in.
     */
    method ScanCapabilities(caps: seq<VendorRead>) returns (mapBars: array<bool>)
      requires Fresh()
      modifies this
      ensures fresh(mapBars) && mapBars.Length == BAR_SLOTS
      ensures ClassifiedAs(Scanned(caps))
      ensures forall b :: 0 <= b < BAR_SLOTS ==> mapBars[b] == MapsBar(Scanned(caps), b)
      ensures barMap == old(barMap) && irq == old(irq) && log == old(log)
    {
      mapBars := new bool[BAR_SLOTS](_ => false);
      var i := 0;
      while i < |caps| && Complete(caps[i])
        invariant i <= ScanLength(caps)
        invariant ClassifiedAs(caps[..i])
        invariant forall b :: 0 <= b < BAR_SLOTS ==> mapBars[b] == MapsBar(caps[..i], b)
        invariant barMap == old(barMap) && irq == old(irq) && log == old(log)
      {
        ghost var before := caps[..i];
        ghost var marks := mapBars[..];
        Classify(caps[i], mapBars);
        assert caps[..i + 1] == before + [caps[i]];
        ClassifyStep(before, caps[i]);
        forall b | 0 <= b < BAR_SLOTS
          ensures mapBars[b] == MapsBar(caps[..i + 1], b)
        {
          MapsBarStep(before, caps[i], b);
          assert mapBars[b] == (marks[b] || (Recorded(caps[i]) && caps[i].cap.bar == b));
        }
        i := i + 1;
      }
      assert i == ScanLength(caps);
    }

    /** Appending one capability updates each window exactly as Classify does. */
    static lemma ClassifyStep(s: seq<VendorRead>, r: VendorRead)
      ensures forall t :: Classified(s + [r], t) == if Records(r, t) then PointerOf(r.cap) else Classified(s, t)
      ensures Multiplier(s + [r], 0) == if Records(r, NOTIFY_CFG) then r.multiplier else Multiplier(s, 0)
    {
      assert (s + [r])[..|s|] == s;
    }

    static lemma MapsBarStep(s: seq<VendorRead>, r: VendorRead, b: nat)
      ensures MapsBar(s + [r], b) <==> MapsBar(s, b) || (Recorded(r) && r.cap.bar == b)
    {
      var s' := s + [r];
      if MapsBar(s, b) {
        var k :| 0 <= k < |s| && Recorded(s[k]) && s[k].cap.bar == b;
        assert s'[k] == s[k];
      }
      if Recorded(r) && r.cap.bar == b {
        assert s'[|s|] == r;
      }
      if MapsBar(s', b) {
        var k :| 0 <= k < |s'| && Recorded(s'[k]) && s'[k].cap.bar == b;
        if k < |s| { assert s'[k] == s[k]; }
      }
    }

    /**
     * virtio_pci_bus::init on a fresh bus (the device's capability caps, the
     * BARs pci_bus_mgr_read_bars returns, the device's feature bits and the
     * outcomes of the MSI and legacy interrupt allocations are inputs; the BARs
     * are used at their physical addresses, as on a 64-bit build without the
     * VM).
     */
    method Init(caps: seq<VendorRead>, bars: Read<seq<Bar>>, features: bv64, msi: Read<nat>, legacy: Read<nat>)
      returns (status: Status)
      requires Fresh() && |bars.value| == BAR_SLOTS
      modifies this
      ensures status == InitStatus(caps, bars.status, msi, legacy)
      ensures ClassifiedAs(Scanned(caps))
      ensures status == NoError ==>
        && barMap == MappedBars(seq(BAR_SLOTS, b requires 0 <= b < BAR_SLOTS => MapsBar(Scanned(caps), b)), bars.value)
        && irq == Some(if Ok(msi) then msi.value else legacy.value)
        && log == [EnableDevice]
                  + (if features & VIRTIO_F_VERSION_1 != 0 then [CommonWrite(DriverFeatureSelect, 1), CommonWrite(DriverFeature, 1)] else [])
                  + [MaskInterrupt(irq.value), RegisterHandler(irq.value, Ok(msi))]
      ensures status != NoError ==> irq == None
    {
      var mapBars := ScanCapabilities(caps);
      if !(common.valid && notify.valid && isr.valid && pci.valid) {
        return ErrNotFound;
      }
      if bars.status != NoError {
        return bars.status;
      }
      assert mapBars[..] == seq(BAR_SLOTS, b requires 0 <= b < BAR_SLOTS => MapsBar(Scanned(caps), b));
      MapBars(mapBars[..], bars.value);
      log := log + [EnableDevice];
      if features & VIRTIO_F_VERSION_1 != 0 {
        SetGuestFeatures(1, 1);
      }
      status := AllocateIrq(msi, legacy);
    }

    /** The mapping loop of init: each marked memory BAR is used at its physical address. */
    method MapBars(marked: seq<bool>, bars: seq<Bar>)
      requires |marked| == BAR_SLOTS && |bars| == BAR_SLOTS && barMap == [0, 0, 0, 0, 0, 0]
      modifies this
      ensures barMap == MappedBars(marked, bars)
      ensures common == old(common) && notify == old(notify) && isr == old(isr) && device == old(device)
      ensures pci == old(pci) && multiplier == old(multiplier) && irq == old(irq) && log == old(log)
    {
      var i := 0;
      while i < BAR_SLOTS
        invariant i <= BAR_SLOTS && |barMap| == BAR_SLOTS
        invariant forall b :: 0 <= b < BAR_SLOTS ==>
          barMap[b] == if b < i && marked[b] && !bars[b].io then bars[b].addr as nat else 0
        invariant common == old(common) && notify == old(notify) && isr == old(isr) && device == old(device)
        invariant pci == old(pci) && multiplier == old(multiplier) && irq == old(irq) && log == old(log)
      {
        if marked[i] && !bars[i].io {
          barMap := barMap[i := bars[i].addr as nat];
        }
        i := i + 1;
      }
    }

    /**
     * The interrupt set-up of init: an MSI vector if pci_bus_mgr_allocate_msi
     * succeeds, else a legacy one; the vector is masked and its handler
     * registered.
     */
    method AllocateIrq(msi: Read<nat>, legacy: Read<nat>) returns (status: Status)
      requires irq == None
      modifies this
      ensures status == if Ok(msi) || Ok(legacy) then NoError else legacy.status
      ensures status == NoError ==> irq == Some(if Ok(msi) then msi.value else legacy.value)
      ensures status == NoError ==> log == old(log) + [MaskInterrupt(irq.value), RegisterHandler(irq.value, Ok(msi))]
      ensures status != NoError ==> irq == None && log == old(log)
      ensures common == old(common) && notify == old(notify) && isr == old(isr) && device == old(device)
      ensures pci == old(pci) && multiplier == old(multiplier) && barMap == old(barMap)
    {
      var base: nat;
      var viaMsi: bool;
      if Ok(msi) {
        base, viaMsi := msi.value, true;
      } else if Ok(legacy) {
        base, viaMsi := legacy.value, false;
      } else {
        return legacy.status;
      }
      log := log + [MaskInterrupt(base), RegisterHandler(base, viaMsi)];
      irq := Some(base);
      status := NoError;
    }

    /** virtio_set_guest_features: select the feature word, then write it. */
    method SetGuestFeatures(word: nat, features: nat)
      modifies this
      ensures log == old(log) + [CommonWrite(DriverFeatureSelect, word), CommonWrite(DriverFeature, features)]
      ensures common == old(common) && notify == old(notify) && isr == old(isr) && device == old(device)
      ensures pci == old(pci) && multiplier == old(multiplier) && barMap == old(barMap) && irq == old(irq)
    {
      log := log + [CommonWrite(DriverFeatureSelect, word), CommonWrite(DriverFeature, features)];
    }

    /**
     * register_ring: select the queue, then program its size and the three
     * addresses of Layout, enabling it last. queue_select and queue_size are
     * 16-bit fields and keep the low half of their arguments.
     */
    method RegisterRing(pageSize: nat, queueSel: nat, queueNum: nat, align: nat, pfn: nat)
      requires pageSize < U32 && queueSel < U32 && queueNum < U32 && 0 < align < U32 && pfn < U32
      modifies this
      ensures var l := Layout(pageSize, queueNum, align, pfn);
        log == old(log) + [CommonWrite(QueueSelect, queueSel % U16), CommonWrite(QueueSize, queueNum % U16),
                           CommonWrite(QueueDesc, l.desc), CommonWrite(QueueDriver, l.avail),
                           CommonWrite(QueueDevice, l.used), CommonWrite(QueueEnable, 1)]
      ensures common == old(common) && notify == old(notify) && isr == old(isr) && device == old(device)
      ensures pci == old(pci) && multiplier == old(multiplier) && barMap == old(barMap) && irq == old(irq)
    {
      var l := Layout(pageSize, queueNum, align, pfn);
      log := log + [CommonWrite(QueueSelect, queueSel % U16)];
      log := log + [CommonWrite(QueueSize, queueNum % U16)];
      log := log + [CommonWrite(QueueDesc, l.desc), CommonWrite(QueueDriver, l.avail), CommonWrite(QueueDevice, l.used)];
      log := log + [CommonWrite(QueueEnable, 1)];
    }

    /** virtio_kick: write the ring index to the ring's notify register. */
    method Kick(ringIndex: nat)
      requires ringIndex < U16 && ConfigPtr(notify, barMap).Some?
      modifies this
      ensures common == old(common) && notify == old(notify) && isr == old(isr) && device == old(device)
      ensures pci == old(pci) && multiplier == old(multiplier) && barMap == old(barMap) && irq == old(irq)
      ensures log == old(log) + [Notify(ConfigPtr(notify, barMap).value + NotifyOffset(ringIndex, multiplier), ringIndex)]
    {
      var base := ConfigPtr(notify, barMap).value;
      log := log + [Notify(base + (ringIndex * multiplier) % U32, ringIndex)];
    }
  }
}
