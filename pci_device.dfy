/**
 * One PCI function as lk's bus manager holds it (class pci::device): the
 * cached header, the decoded BARs, the capability list, and the operations
 * that probe, size, enable and program it. Configuration reads go through a
 * `Space`; every configuration write is appended, in issue order, to `log`.
 */
module PciDevice {
  import opened Lk
  import opened PciConfig
  import opened PciBars

  /** One node of the capability list: its id byte and its offset in configuration space. */
  datatype Capability = Capability(id: bv8, offset: nat)

  const CAP_MSI: bv8 := 0x05
  const CAP_VENDOR: bv8 := 0x09
  const CAP_MSIX: bv8 := 0x11

  /** The number of BAR slots load_bars probes for a header type; None for a layout it does not handle. */
  function NumBars(c: Config): Option<nat>
  {
    if HeaderType(c) == 0 then Some(6) else if HeaderType(c) == 1 then Some(2) else None
  }

  /** The six cached BAR words (a type 1 header's two BARs are at the same place). */
  function BarWords(c: Config): (w: seq<bv32>)
    ensures |w| == 6
  {
    [BarWord(c, 0), BarWord(c, 1), BarWord(c, 2), BarWord(c, 3), BarWord(c, 4), BarWord(c, 5)]
  }

  /** The command register value load_bars writes while probing: I/O and memory decode off. */
  function DecodeOff(command: bv16): bv16 { command & !(COMMAND_IO_EN | COMMAND_MEM_EN) }

  /** The command register value enable writes: I/O, memory and bus mastering on. */
  function Enabled(command: bv16): bv16 { command | COMMAND_IO_EN | COMMAND_MEM_EN | COMMAND_BUS_MASTER_EN }

  /** Enabling sets exactly the three enable bits and keeps every other bit. */
  lemma EnabledKeepsOtherBits(command: bv16)
    ensures Enabled(command) & 7 == 7
    ensures Enabled(command) & !7 == command & !7
  {
  }

  /** Probing clears exactly the two decode enables and keeps every other bit. */
  lemma DecodeOffKeepsOtherBits(command: bv16)
    ensures DecodeOff(command) & 3 == 0
    ensures DecodeOff(command) & !3 == command & !3
  {
  }

  // ---------------------------------------------------------------------------
  // The capability walk.

  /** The outcome of walking the list: the nodes appended, the status, and whether the walk reached a zero pointer or a failed read within its step bound. */
  datatype WalkResult = WalkResult(caps: seq<Capability>, status: Status, finished: bool)

  /**
   * probe_capabilities' loop from pointer ptr, for at most fuel nodes: read
   * the id at ptr (a failure ends the walk with that status), append the node,
   * read the next pointer at ptr+1 (a failure ends the walk after the node was
   * appended) and continue there; a zero pointer ends the walk.
   */
  function CapWalk(space: Space, ptr: nat, fuel: nat): (w: WalkResult)
    decreases fuel
  {
    if ptr == 0 then WalkResult([], NoError, true)
    else if fuel == 0 then WalkResult([], NoError, false)
    else
      var id := space.byte(ptr);
      if !Ok(id) then WalkResult([], id.status, true)
      else
        var cap := Capability(id.value, ptr);
        var next := space.byte(ptr + 1);
        if !Ok(next) then WalkResult([cap], next.status, true)
        else
          var rest := CapWalk(space, next.value as nat, fuel - 1);
          WalkResult([cap] + rest.caps, rest.status, rest.finished)
  }

  /** The last node of caps with the given id, or prior when there is none. */
  function LastWithId(caps: seq<Capability>, id: bv8, prior: Option<Capability>): Option<Capability>
  {
    if caps == [] then prior
    else LastWithId(caps[1..], id, if caps[0].id == id then Some(caps[0]) else prior)
  }

  /** A walk preceded by nodes already appended. */
  function Prepend(found: seq<Capability>, w: WalkResult): WalkResult
  {
    WalkResult(found + w.caps, w.status, w.finished)
  }

  /** The three ways the walk stops before appending a node. */
  lemma WalkHalts(space: Space, ptr: nat, n: nat, found: seq<Capability>)
    ensures ptr == 0 ==> Prepend(found, CapWalk(space, ptr, n)) == WalkResult(found, NoError, true)
    ensures ptr != 0 && n == 0 ==> Prepend(found, CapWalk(space, ptr, n)) == WalkResult(found, NoError, false)
    ensures ptr != 0 && n > 0 && !Ok(space.byte(ptr)) ==>
      Prepend(found, CapWalk(space, ptr, n)) == WalkResult(found, space.byte(ptr).status, true)
  {
    assert found + [] == found;
  }

  /** One node appended: the walk stops if its next pointer cannot be read, else it goes on from there. */
  lemma WalkAdvance(space: Space, ptr: nat, n: nat, found: seq<Capability>)
    requires ptr != 0 && n > 0 && Ok(space.byte(ptr))
    ensures var cap := Capability(space.byte(ptr).value, ptr);
      && (!Ok(space.byte(ptr + 1)) ==>
            Prepend(found, CapWalk(space, ptr, n)) == WalkResult(found + [cap], space.byte(ptr + 1).status, true))
      && (Ok(space.byte(ptr + 1)) ==>
            Prepend(found, CapWalk(space, ptr, n)) == Prepend(found + [cap], CapWalk(space, space.byte(ptr + 1).value as nat, n - 1)))
  {
    var cap := Capability(space.byte(ptr).value, ptr);
    if Ok(space.byte(ptr + 1)) {
      var rest := CapWalk(space, space.byte(ptr + 1).value as nat, n - 1);
      assert found + ([cap] + rest.caps) == (found + [cap]) + rest.caps;
    }
  }

  /** Appending a node with the id makes it the last one; appending another keeps the previous answer. */
  lemma {:induction false} LastWithIdSnoc(caps: seq<Capability>, c: Capability, id: bv8, prior: Option<Capability>)
    ensures LastWithId(caps + [c], id, prior) == if c.id == id then Some(c) else LastWithId(caps, id, prior)
    decreases |caps|
  {
    if caps == [] {
      assert [c][1..] == [];
    } else {
      assert (caps + [c])[1..] == caps[1..] + [c];
      LastWithIdSnoc(caps[1..], c, id, if caps[0].id == id then Some(caps[0]) else prior);
    }
  }

  /**
   * The node remembered for an id is the last node of the list with that id,
   * or prior when no node has it.
   */
  lemma {:induction false} LastWithIdIsLast(caps: seq<Capability>, id: bv8, prior: Option<Capability>)
    ensures (forall k :: 0 <= k < |caps| ==> caps[k].id != id) ==> LastWithId(caps, id, prior) == prior
    ensures forall k :: 0 <= k < |caps| && caps[k].id == id && (forall j :: k < j < |caps| ==> caps[j].id != id) ==>
              LastWithId(caps, id, prior) == Some(caps[k])
    decreases |caps|
  {
    if caps != [] {
      var init := caps[..|caps| - 1];
      var c := caps[|caps| - 1];
      assert caps == init + [c];
      LastWithIdSnoc(init, c, id, prior);
      LastWithIdIsLast(init, id, prior);
      forall k | 0 <= k < |caps| && caps[k].id == id && (forall j :: k < j < |caps| ==> caps[j].id != id)
        ensures LastWithId(caps, id, prior) == Some(caps[k])
      {
        if k < |caps| - 1 {
          assert c.id != id;
          assert init[k] == caps[k];
          assert forall j :: k < j < |init| ==> init[j].id != id by {
            forall j | k < j < |init| ensures init[j].id != id { assert init[j] == caps[j]; }
          }
        }
      }
      if forall k :: 0 <= k < |caps| ==> caps[k].id != id {
        assert c.id != id;
        assert forall k :: 0 <= k < |init| ==> init[k].id != id by {
          forall k | 0 <= k < |init| ensures init[k].id != id { assert init[k] == caps[k]; }
        }
      }
    }
  }

  /**
   * Every node the walk appends is at a non-zero offset whose id byte read
   * without error, the first one at ptr, and there are at most fuel of them.
   */
  lemma {:induction false} CapWalkNodes(space: Space, ptr: nat, fuel: nat)
    ensures var w := CapWalk(space, ptr, fuel);
      && |w.caps| <= fuel
      && (|w.caps| > 0 ==> w.caps[0].offset == ptr)
      && (forall k :: 0 <= k < |w.caps| ==> w.caps[k].offset != 0 && space.byte(w.caps[k].offset) == Read(NoError, w.caps[k].id))
    decreases fuel
  {
    var w := CapWalk(space, ptr, fuel);
    if ptr != 0 && fuel != 0 && Ok(space.byte(ptr)) && Ok(space.byte(ptr + 1)) {
      var next := space.byte(ptr + 1).value as nat;
      CapWalkNodes(space, next, fuel - 1);
      var rest := CapWalk(space, next, fuel - 1);
      assert w.caps == [Capability(space.byte(ptr).value, ptr)] + rest.caps;
      forall k | 0 < k < |w.caps|
        ensures w.caps[k].offset != 0 && space.byte(w.caps[k].offset) == Read(NoError, w.caps[k].id)
      {
        assert w.caps[k] == rest.caps[k - 1];
      }
    }
  }

  lemma CapWalkStartsAt(space: Space, ptr: nat, fuel: nat)
    ensures |CapWalk(space, ptr, fuel).caps| > 0 ==> CapWalk(space, ptr, fuel).caps[0].offset == ptr
  {
  }

  /**
   * The walk follows the chain in order: each node's successor is at the
   * offset its next-pointer byte holds, read without error.
   */
  lemma CapWalkFollowsChain(space: Space, ptr: nat, fuel: nat)
    ensures var w := CapWalk(space, ptr, fuel);
      forall k :: 0 <= k < |w.caps| - 1 ==>
        Ok(space.byte(w.caps[k].offset + 1)) && space.byte(w.caps[k].offset + 1).value as nat == w.caps[k + 1].offset
  {
    var w := CapWalk(space, ptr, fuel);
    forall k | 0 <= k < |w.caps| - 1
      ensures Ok(space.byte(w.caps[k].offset + 1)) && space.byte(w.caps[k].offset + 1).value as nat == w.caps[k + 1].offset
    {
      CapWalkLink(space, ptr, fuel, k);
    }
  }

  /** One link of the chain: node k's next-pointer byte holds node k + 1's offset. */
  lemma {:induction false} CapWalkLink(space: Space, ptr: nat, fuel: nat, k: nat)
    requires k + 1 < |CapWalk(space, ptr, fuel).caps|
    ensures var w := CapWalk(space, ptr, fuel);
      Ok(space.byte(w.caps[k].offset + 1)) && space.byte(w.caps[k].offset + 1).value as nat == w.caps[k + 1].offset
    decreases fuel
  {
    var w := CapWalk(space, ptr, fuel);
    var next := space.byte(ptr + 1).value as nat;
    var rest := CapWalk(space, next, fuel - 1);
    assert w.caps == [Capability(space.byte(ptr).value, ptr)] + rest.caps;
    assert w.caps[k + 1] == rest.caps[k];
    if k == 0 {
      CapWalkStartsAt(space, next, fuel - 1);
    } else {
      CapWalkLink(space, next, fuel - 1, k - 1);
      assert w.caps[k] == rest.caps[k - 1];
    }
  }

  /** A walk that finished within fuel nodes gives the same result with more fuel: the bound only cuts off lists that never end. */
  lemma {:induction false} CapWalkFuelIrrelevant(space: Space, ptr: nat, fuel: nat, more: nat)
    requires CapWalk(space, ptr, fuel).finished && fuel <= more
    ensures CapWalk(space, ptr, more) == CapWalk(space, ptr, fuel)
    decreases fuel
  {
    if ptr != 0 && Ok(space.byte(ptr)) && Ok(space.byte(ptr + 1)) {
      CapWalkFuelIrrelevant(space, space.byte(ptr + 1).value as nat, fuel - 1, more - 1);
    }
  }

  /**
   * There is no cycle guard: a node whose next pointer leads back to itself
   * keeps the walk going for as many steps as it is allowed, appending the
   * same node each time.
   */
  lemma {:induction false} SelfLinkedCapabilityNeverEnds(space: Space, ptr: nat, fuel: nat)
    requires ptr != 0 && Ok(space.byte(ptr))
    requires Ok(space.byte(ptr + 1)) && space.byte(ptr + 1).value as nat == ptr
    ensures !CapWalk(space, ptr, fuel).finished
    ensures |CapWalk(space, ptr, fuel).caps| == fuel
    ensures forall k :: 0 <= k < fuel ==> CapWalk(space, ptr, fuel).caps[k] == Capability(space.byte(ptr).value, ptr)
    decreases fuel
  {
    if fuel > 0 {
      SelfLinkedCapabilityNeverEnds(space, ptr, fuel - 1);
      var cap := Capability(space.byte(ptr).value, ptr);
      var rest := CapWalk(space, ptr, fuel - 1);
      var w := CapWalk(space, ptr, fuel);
      assert w.caps == [cap] + rest.caps;
      forall k | 0 <= k < fuel ensures w.caps[k] == cap {
        if k > 0 { assert w.caps[k] == rest.caps[k - 1]; }
      }
    }
  }

  // ---------------------------------------------------------------------------
  // read_vendor_capability.

  /** The vendor-specific (id 0x9) nodes of a capability list, in list order. */
  function VendorCaps(caps: seq<Capability>): (v: seq<Capability>)
    ensures |v| <= |caps|
  {
    if caps == [] then []
    else (if caps[0].id == CAP_VENDOR then [caps[0]] else []) + VendorCaps(caps[1..])
  }

  /** The vendor list holds exactly the nodes with id 0x9, each taken from the list. */
  lemma {:induction false} VendorCapsAreVendor(caps: seq<Capability>)
    ensures forall k :: 0 <= k < |VendorCaps(caps)| ==> VendorCaps(caps)[k].id == CAP_VENDOR && VendorCaps(caps)[k] in caps
    ensures forall c :: c in caps && c.id == CAP_VENDOR ==> c in VendorCaps(caps)
  {
    if caps != [] {
      VendorCapsAreVendor(caps[1..]);
      assert caps == [caps[0]] + caps[1..];
    }
  }

  /** What read_vendor_capability returns: the length byte and the bytes copied, or ERR_NOT_FOUND. */
  datatype VendorResult = VendorCap(len: bv8, data: seq<bv8>) | VendorNotFound

  /**
   * The index-th vendor capability's length byte (at offset+2, read errors
   * ignored) and the first min(len, buflen) bytes from the capability's own
   * offset.
   */
  function VendorRead(space: Space, caps: seq<Capability>, index: nat, buflen: nat): VendorResult
  {
    var v := VendorCaps(caps);
    if index < |v| then
      var len := space.byte(v[index].offset + 2).value;
      var readlen := if (len as nat) < buflen then len as nat else buflen;
      VendorCap(len, seq(readlen, i requires 0 <= i < readlen => space.byte(v[index].offset + i).value))
    else VendorNotFound
  }

  lemma VendorCapsStep(caps: seq<Capability>, i: nat)
    requires i < |caps|
    ensures VendorCaps(caps[i..]) == (if caps[i].id == CAP_VENDOR then [caps[i]] else []) + VendorCaps(caps[i + 1..])
  {
    assert caps[i..][1..] == caps[i + 1..];
  }

  /**
   * read_vendor_capability finds the index-th vendor capability exactly when
   * there are more than index of them; it then reports the capability's own
   * length byte and copies no more than that many bytes, nor more than the
   * buffer holds, starting with the capability's id byte.
   */
  lemma VendorReadShape(space: Space, caps: seq<Capability>, index: nat, buflen: nat)
    ensures VendorRead(space, caps, index, buflen).VendorCap? <==> index < |VendorCaps(caps)|
    ensures VendorRead(space, caps, index, buflen).VendorCap? ==>
      var off := VendorCaps(caps)[index].offset;
      var r := VendorRead(space, caps, index, buflen);
      && r.len == space.byte(off + 2).value
      && |r.data| <= buflen && |r.data| <= r.len as nat
      && (|r.data| == buflen || |r.data| == r.len as nat)
      && (forall i :: 0 <= i < |r.data| ==> r.data[i] == space.byte(off + i).value)
  {
  }

  // ---------------------------------------------------------------------------
  // MSI and MSI-X programming.

  /** The message address and data the platform computes for a vector. */
  datatype MsiMessage = MsiMessage(address: bv64, data: bv16)

  /**
   * The writes allocate_msi issues to an MSI capability at offset off whose
   * control register reads `control`: disable, address low, then address high
   * and data for a 64-bit capable function (control bit 7) or data alone,
   * then enable, then the interrupt line.
   */
  function MsiWrites(off: nat, control: bv16, msg: MsiMessage, vector: bv32): seq<Write>
  {
    [WriteHalf(off + 2, control & !1), WriteWord(off + 4, (msg.address & 0xFFFF_FFFF) as bv32)]
    + (if control & 0x80 != 0
       then [WriteWord(off + 8, (msg.address >> 32) as bv32), WriteHalf(off + 0xC, msg.data)]
       else [WriteHalf(off + 8, msg.data)])
    + [WriteHalf(off + 2, 1), WriteByte(INTERRUPT_LINE, (vector & 0xFF) as bv8)]
  }

  /**
   * The writes that close allocate_msix for a capability at off whose
   * control register reads `control`: set MSI-X enable (bit 15), then the
   * interrupt line.
   */
  function MsixEnableWrites(off: nat, control: bv16, vector: bv32): seq<Write>
  {
    [WriteHalf(off + 2, control | 0x8000), WriteByte(INTERRUPT_LINE, (vector & 0xFF) as bv8)]
  }

  /** A 64-bit value split into its low and high words joins back into itself. */
  lemma SplitJoin64(a: bv64)
    ensures (((a & 0xFFFF_FFFF) as bv32) as bv64) | ((((a >> 32) as bv32) as bv64) << 32) == a
  {
  }

  lemma LowWord64(a: bv64)
    ensures ((a & 0xFFFF_FFFF) as bv32) as bv64 == a & 0xFFFF_FFFF
  {
  }

  /**
   * MSI is disabled by the first write and enabled by the last but one, and
   * no write in between touches the control register.
   */
  lemma MsiDisabledWhileProgrammed(off: nat, control: bv16, msg: MsiMessage, vector: bv32)
    ensures var w := MsiWrites(off, control, msg, vector);
      && w[0] == Write(Half, off + 2, (control & !1) as bv32) && w[0].value & 1 == 0
      && w[|w| - 2] == Write(Half, off + 2, 1)
      && (forall k :: 1 <= k < |w| - 2 ==> w[k].offset != off + 2)
  {
  }

  /** A 64-bit capable function receives the whole address in its two words and the data at offset 0xC. */
  lemma Msi64Message(off: nat, control: bv16, msg: MsiMessage, vector: bv32)
    requires control & 0x80 != 0
    ensures var w := MsiWrites(off, control, msg, vector);
      && |w| == 6 && w[1].offset == off + 4 && w[2].offset == off + 8
      && (w[1].value as bv64) | ((w[2].value as bv64) << 32) == msg.address
      && w[3] == WriteHalf(off + 0xC, msg.data)
  {
    SplitJoin64(msg.address);
  }

  /** A 32-bit only function receives the low address word and the data at offset 8. */
  lemma Msi32Message(off: nat, control: bv16, msg: MsiMessage, vector: bv32)
    requires control & 0x80 == 0
    ensures var w := MsiWrites(off, control, msg, vector);
      && |w| == 5 && w[1].offset == off + 4 && w[1].value as bv64 == msg.address & 0xFFFF_FFFF
      && w[2] == WriteHalf(off + 8, msg.data)
  {
    var w := MsiWrites(off, control, msg, vector);
    var low := (msg.address & 0xFFFF_FFFF) as bv32;
    assert w == [WriteHalf(off + 2, control & !1), WriteWord(off + 4, low), WriteHalf(off + 8, msg.data),
                 WriteHalf(off + 2, 1), WriteByte(INTERRUPT_LINE, (vector & 0xFF) as bv8)];
    LowWord64(msg.address);
  }

  /** An MSI-X table entry: address low, address high, data, vector control. */
  function MsixEntry(msg: MsiMessage): seq<bv32>
  {
    [(msg.address & 0xFFFF_FFFF) as bv32, (msg.address >> 32) as bv32, msg.data as bv32, 0]
  }

  /** A masked, empty MSI-X table entry. */
  const MASKED_ENTRY: seq<bv32> := [0, 0, 0, 1]

  /** n copies of a table entry, back to back. */
  function Repeat(e: seq<bv32>, n: nat): (r: seq<bv32>)
    ensures |r| == n * |e|
  {
    if n == 0 then [] else Repeat(e, n - 1) + e
  }

  /**
   * The MSI-X table after allocate_msix: the first num entries hold the
   * message and are unmasked, entries num..count-1 are masked, the rest of
   * the mapped words are untouched.
   */
  function MsixTable(t: seq<bv32>, count: nat, num: nat, msg: MsiMessage): (r: seq<bv32>)
    requires num <= count && 4 * count <= |t|
    ensures |r| == |t|
  {
    Repeat(MsixEntry(msg), num) + Repeat(MASKED_ENTRY, count - num) + t[4 * count..]
  }

  lemma {:induction false} RepeatEntry(e: seq<bv32>, n: nat, k: nat)
    requires |e| == 4 && k < n
    ensures Repeat(e, n)[4 * k..4 * k + 4] == e
  {
    if k < n - 1 {
      RepeatEntry(e, n - 1, k);
      assert Repeat(e, n)[4 * k..4 * k + 4] == Repeat(e, n - 1)[4 * k..4 * k + 4];
    } else {
      assert Repeat(e, n)[4 * k..] == e;
    }
  }

  /** An entry's two address words join back into the message address. */
  lemma MsixEntryAddress(msg: MsiMessage)
    ensures (MsixEntry(msg)[0] as bv64) | ((MsixEntry(msg)[1] as bv64) << 32) == msg.address
  {
    SplitJoin64(msg.address);
  }

  /**
   * Entry k of the programmed table: a requested vector carries the message
   * and is unmasked; every other entry of the table is masked.
   */
  lemma MsixTableEntries(t: seq<bv32>, count: nat, num: nat, msg: MsiMessage, k: nat)
    requires num <= count && 4 * count <= |t| && k < count
    ensures k < num ==> MsixTable(t, count, num, msg)[4 * k..4 * k + 4] == MsixEntry(msg)
    ensures num <= k ==> MsixTable(t, count, num, msg)[4 * k..4 * k + 4] == MASKED_ENTRY
  {
    var r := MsixTable(t, count, num, msg);
    var a := Repeat(MsixEntry(msg), num);
    var m := Repeat(MASKED_ENTRY, count - num);
    assert |a| == 4 * num;
    assert r == a + (m + t[4 * count..]);
    if k < num {
      RepeatEntry(MsixEntry(msg), num, k);
      assert r[4 * k..4 * k + 4] == a[4 * k..4 * k + 4];
    } else {
      RepeatEntry(MASKED_ENTRY, count - num, k - num);
      assert r[4 * k..4 * k + 4] == m[4 * (k - num)..4 * (k - num) + 4];
    }
  }

  lemma {:induction false} RepeatIndex(e: seq<bv32>, n: nat, j: nat)
    requires |e| == 4 && j < 4 * n
    ensures Repeat(e, n)[j] == e[j % 4]
  {
    if j < 4 * (n - 1) {
      RepeatIndex(e, n - 1, j);
    } else {
      assert j % 4 == j - 4 * (n - 1);
    }
  }

  /** The words from lo to hi, 4n of them, that repeat e word by word are n copies of e. */
  lemma RepeatWindow(r: seq<bv32>, lo: nat, hi: nat, n: nat, e: seq<bv32>)
    requires |e| == 4 && lo % 4 == 0 && lo <= hi <= |r| && hi - lo == 4 * n
    requires forall j :: lo <= j < hi ==> r[j] == e[j % 4]
    ensures r[lo..hi] == Repeat(e, n)
  {
    var w := r[lo..hi];
    forall k | 0 <= k < hi - lo ensures w[k] == Repeat(e, n)[k] {
      RepeatIndex(e, n, k);
      ModShift4(lo, k);
      assert w[k] == r[lo + k];
    }
  }

  lemma ModShift4(lo: nat, k: nat)
    requires lo % 4 == 0
    ensures (lo + k) % 4 == k % 4
  {
    DivModUnique(lo + k, 4, lo / 4 + k / 4, k % 4);
  }

  /** A table whose words are, word by word, those of the programmed table is the programmed table. */
  lemma TableWords(r: seq<bv32>, t: seq<bv32>, count: nat, num: nat, entry: seq<bv32>)
    requires num <= count && 4 * count <= |t| == |r| && |entry| == 4
    requires forall j :: 0 <= j < 4 * num ==> r[j] == entry[j % 4]
    requires forall j :: 4 * num <= j < 4 * count ==> r[j] == MASKED_ENTRY[j % 4]
    requires forall j :: 4 * count <= j < |r| ==> r[j] == t[j]
    ensures r == Repeat(entry, num) + Repeat(MASKED_ENTRY, count - num) + t[4 * count..]
  {
    var lo, hi := 4 * num, 4 * count;
    assert hi - lo == 4 * (count - num);
    RepeatWindow(r, 0, lo, num, entry);
    RepeatWindow(r, lo, hi, count - num, MASKED_ENTRY);
    assert r[hi..] == t[hi..];
    assert r == r[..lo] + r[lo..hi] + r[hi..];
  }

  lemma MsixTableKeepsRest(t: seq<bv32>, count: nat, num: nat, msg: MsiMessage)
    requires num <= count && 4 * count <= |t|
    ensures MsixTable(t, count, num, msg)[4 * count..] == t[4 * count..]
  {
    var r := MsixTable(t, count, num, msg);
    assert r == (Repeat(MsixEntry(msg), num) + Repeat(MASKED_ENTRY, count - num)) + t[4 * count..];
  }

  /** The MSI-X message control register of the capability at off, as read. */
  function MsixControl(space: Space, off: nat): bv16
  {
    space.half(off + 2).value
  }

  /** The number of table entries an MSI-X control register declares (its low six bits plus one). */
  function MsixTableCount(control: bv16): nat
  {
    ((control & 0x3F) as nat) + 1
  }

  lemma MsixTableCountBounds(control: bv16)
    ensures 1 <= MsixTableCount(control) <= 64
  {
  }

  /** A region of a BAR to map: the BAR index, the byte offset into it, and the byte length. */
  datatype Mapping = Mapping(bar: nat, offset: bv32, length: nat)

  /** A table or PBA offset word names its BAR in the low two bits and the offset in the rest. */
  function MappingAt(word: bv32, length: nat): Mapping
  {
    Mapping((word & 3) as nat, word & !3, length)
  }

  /**
   * The BAR index has two bits, so it always names one of the first four
   * slots, and index and offset together give back the word.
   */
  lemma MappingSplitsWord(word: bv32, length: nat)
    ensures MappingAt(word, length).bar < 4
    ensures MappingAt(word, length).offset & 3 == 0
    ensures MappingAt(word, length).offset | (MappingAt(word, length).bar as bv32) == word
  {
  }

  /** allocate_msix's mapping as written: the length is the offset word times 16. */
  function MappingAsWritten(word: bv32): Mapping
  {
    MappingAt(word, (word as nat) * 16)
  }

  /** The MSI-X table of count entries of 16 bytes each. */
  function TableMapping(word: bv32, count: nat): Mapping
  {
    MappingAt(word, 16 * count)
  }

  /** The pending bit array: one bit per entry, in 64-bit words. */
  function PbaMapping(word: bv32, count: nat): Mapping
  {
    MappingAt(word, 8 * ((count + 63) / 64))
  }

  /** map_it's page-aligned window: the offset rounded down, the end rounded up, in bytes from the BAR's base. */
  function MapBase(m: Mapping): nat
  {
    (m.offset as nat) / 4096 * 4096
  }

  function MapLength(m: Mapping): nat
  {
    var end := m.offset as nat + m.length - MapBase(m);
    (end + 4095) / 4096 * 4096
  }

  /** The window mapped for m holds the bytes start..start+len-1 of the BAR. */
  predicate MapCovers(m: Mapping, start: nat, len: nat)
  {
    MapBase(m) <= start && start + len <= MapBase(m) + MapLength(m)
  }

  lemma MapCoversOwnRange(m: Mapping)
    ensures MapCovers(m, m.offset as nat, m.length)
    ensures MapBase(m) % 4096 == 0 && MapLength(m) % 4096 == 0
    ensures MapLength(m) < m.offset as nat - MapBase(m) + m.length + 4096
  {
  }

  /** The corrected table window covers all count entries of the table. */
  lemma TableMappingCoversTable(word: bv32, count: nat)
    ensures MapCovers(TableMapping(word, count), (word & !3) as nat, 16 * count)
  {
    MapCoversOwnRange(TableMapping(word, count));
  }

  /** The corrected PBA window covers one pending bit per entry. */
  lemma PbaMappingCoversPba(word: bv32, count: nat)
    ensures 8 * ((count + 63) / 64) * 8 >= count
    ensures MapCovers(PbaMapping(word, count), (word & !3) as nat, 8 * ((count + 63) / 64))
  {
    MapCoversOwnRange(PbaMapping(word, count));
  }

  /**
   * As written, a table at offset 0 of BAR 0 (offset word 0) gets a window
   * of length 0, which holds not even the first entry.
   */
  lemma AsWrittenTableWindowEmpty(count: nat)
    requires count >= 1
    ensures MapLength(MappingAsWritten(0)) == 0
    ensures !MapCovers(MappingAsWritten(0), 0, 16 * count)
  {
    assert MapBase(MappingAsWritten(0)) == 0;
  }

  /** map_it's check: the BAR a mapping names must be a valid memory BAR. */
  predicate MappableBar(bars: seq<Bar>, m: Mapping)
    requires |bars| == 6 && m.bar < 6
  {
    bars[m.bar].valid && !bars[m.bar].io
  }

  /** The physical address map_it asks to map: the window's base plus the BAR's address, in 64-bit arithmetic. */
  function MapPhysical(b: Bar, m: Mapping): nat
  {
    (b.addr as nat + MapBase(m)) % U64
  }

  /** map_it's outcome for a window: ERR_INVALID_ARGS unless its BAR is a valid memory BAR, else the mapping's status. */
  function MapStatus(bars: seq<Bar>, m: Mapping, vmmMap: (nat, nat) -> Status): Status
    requires |bars| == 6 && m.bar < 6
  {
    if !MappableBar(bars, m) then ErrInvalidArgs else vmmMap(MapPhysical(bars[m.bar], m), MapLength(m))
  }

  /**
   * The first failure of allocate_msix's set-up steps for an MSI-X
   * capability at off, in the order it takes them, or NO_ERROR.
   */
  function MsixSetUp(space: Space, bars: seq<Bar>, off: nat, num: nat, alloc: Read<bv32>, vmmMap: (nat, nat) -> Status): Status
    requires |bars| == 6
  {
    var control := space.half(off + 2);
    var count := MsixTableCount(control.value);
    var tableWord := space.word(off + 4);
    var pbaWord := space.word(off + 8);
    if !Ok(control) then control.status
    else if !Ok(tableWord) then tableWord.status
    else if !Ok(pbaWord) then pbaWord.status
    else if num > count then ErrNoResources
    else if !Ok(alloc) then alloc.status
    else
      MappingSplitsWord(tableWord.value, tableWord.value as nat * 16);
      MappingSplitsWord(pbaWord.value, pbaWord.value as nat * 16);
      var t := MapStatus(bars, MappingAsWritten(tableWord.value), vmmMap);
      if t != NoError then t else MapStatus(bars, MappingAsWritten(pbaWord.value), vmmMap)
  }

  /**
   * allocate_msix's verdict: ERR_NOT_SUPPORTED without an MSI-X capability,
   * then the first set-up failure, then the failure of computing the
   * message for the allocated vector, or NO_ERROR.
   */
  function MsixAllocStatus(space: Space, bars: seq<Bar>, msixCap: Option<Capability>, num: nat, alloc: Read<bv32>,
                           vmmMap: (nat, nat) -> Status, compute: bv32 -> Read<MsiMessage>): Status
    requires |bars| == 6
  {
    if msixCap == None then ErrNotSupported
    else
      var setUp := MsixSetUp(space, bars, msixCap.value.offset, num, alloc, vmmMap);
      if setUp != NoError then setUp
      else compute(alloc.value).status
  }

  /**
   * Set-up succeeds only when every read succeeded, the table has room for
   * the vectors requested, and both windows, each offset word times 16
   * bytes long, lie in valid memory BARs and were mapped without error. The
   * table window covers the table only when its offset word is at least
   * the table count: AsWrittenTableWindowEmpty is a table it misses.
   */
  lemma MsixSetUpSucceeds(space: Space, bars: seq<Bar>, off: nat, num: nat, alloc: Read<bv32>, vmmMap: (nat, nat) -> Status)
    requires |bars| == 6 && MsixSetUp(space, bars, off, num, alloc, vmmMap) == NoError
    ensures Ok(space.half(off + 2)) && Ok(space.word(off + 4)) && Ok(space.word(off + 8)) && Ok(alloc)
    ensures var count := MsixTableCount(space.half(off + 2).value);
      var tmap := MappingAsWritten(space.word(off + 4).value);
      var pmap := MappingAsWritten(space.word(off + 8).value);
      && num <= count && tmap.bar < 4 && pmap.bar < 4
      && tmap.length == space.word(off + 4).value as nat * 16 && pmap.length == space.word(off + 8).value as nat * 16
      && MappableBar(bars, tmap) && vmmMap(MapPhysical(bars[tmap.bar], tmap), MapLength(tmap)) == NoError
      && MappableBar(bars, pmap) && vmmMap(MapPhysical(bars[pmap.bar], pmap), MapLength(pmap)) == NoError
      && MapCovers(tmap, tmap.offset as nat, tmap.length)
      && MapCovers(pmap, pmap.offset as nat, pmap.length)
      && (space.word(off + 4).value as nat >= count ==> MapCovers(tmap, tmap.offset as nat, 16 * count))
  {
    var tword := space.word(off + 4).value;
    MappingSplitsWord(tword, tword as nat * 16);
    MappingSplitsWord(space.word(off + 8).value, space.word(off + 8).value as nat * 16);
    MapCoversOwnRange(MappingAsWritten(tword));
    MapCoversOwnRange(MappingAsWritten(space.word(off + 8).value));
  }

  /**
   * probe's verdict on the live registers: ERR_NOT_FOUND when the vendor id,
   * class or header type cannot be read, no function answers (vendor id
   * 0xFFFF) or the header layout is not 0; ERR_NOT_SUPPORTED for a
   * PCI-to-PCI bridge, which the bridge code probes instead.
   */
  function ProbeLiveStatus(space: Space): Status
  {
    var vendor := space.half(VENDOR_ID);
    var base := space.byte(CLASS_CODE_BASE);
    var sub := space.byte(CLASS_CODE_SUB);
    var header := space.byte(HEADER_TYPE);
    if !Ok(vendor) || vendor.value == 0xFFFF || !Ok(base) || !Ok(sub) || !Ok(header) || header.value & HEADER_TYPE_MASK != 0
    then ErrNotFound
    else if base.value == CLASS_BRIDGE && sub.value == SUBCLASS_PCI_BRIDGE then ErrNotSupported
    else NoError
  }

  /** probe's status: the live checks' verdict, then the status of loading the header. */
  function ProbeStatus(space: Space, loadConfig: Read<Config>): Status
  {
    if ProbeLiveStatus(space) != NoError then ProbeLiveStatus(space) else loadConfig.status
  }

  /**
   * probe accepts exactly the functions that answer with a type 0 header and
   * are not PCI-to-PCI bridges, and whose header loads.
   */
  lemma ProbeAccepts(space: Space, loadConfig: Read<Config>)
    ensures ProbeStatus(space, loadConfig) == NoError <==>
      && Ok(space.half(VENDOR_ID)) && space.half(VENDOR_ID).value != 0xFFFF
      && Ok(space.byte(CLASS_CODE_BASE)) && Ok(space.byte(CLASS_CODE_SUB))
      && Ok(space.byte(HEADER_TYPE)) && space.byte(HEADER_TYPE).value & HEADER_TYPE_MASK == 0
      && !(space.byte(CLASS_CODE_BASE).value == CLASS_BRIDGE && space.byte(CLASS_CODE_SUB).value == SUBCLASS_PCI_BRIDGE)
      && Ok(loadConfig)
    ensures space.byte(CLASS_CODE_BASE).value == CLASS_BRIDGE && space.byte(CLASS_CODE_SUB).value == SUBCLASS_PCI_BRIDGE ==>
      ProbeStatus(space, loadConfig) != NoError
  {
  }

  // ---------------------------------------------------------------------------
  // The device.

  class Device {
    /** config_: the cached 256-byte header. */
    var config: Config
    /** bars_: the six decoded BARs. */
    var bars: seq<Bar>
    /** capability_list_, in list order. */
    var caps: seq<Capability>
    var msiCap: Option<Capability>
    var msixCap: Option<Capability>
    /** Every configuration write issued for this function, oldest first. */
    var log: seq<Write>

    ghost predicate Valid()
      reads this
    {
      |bars| == 6
    }

    /** device::device: no BARs, no capabilities; the header is zero until load_config fills it. */
    constructor()
      ensures Valid()
      ensures config == seq(256, _ => 0) && bars == seq(6, _ => EMPTY_BAR)
      ensures caps == [] && msiCap == None && msixCap == None && log == []
    {
      config := seq(256, _ => 0);
      bars := seq(6, _ => EMPTY_BAR);
      caps := [];
      msiCap := None;
      msixCap := None;
      log := [];
    }

    /**
     * device::probe: check the live vendor id, class and header type; refuse
     * an absent function, a header layout other than 0 and a PCI-to-PCI
     * bridge; otherwise create the device, load its header (loadConfig:
     * what pci_read_config returns), its BARs and its capability list.
     */
    static method Probe(space: Space, loadConfig: Read<Config>, readback: seq<bv32>, fuel: nat) returns (status: Status, d: Device?)
      requires |readback| == 6
      ensures status == NoError <==> d != null
      ensures status == ProbeStatus(space, loadConfig)
      ensures d != null ==>
        && fresh(d) && d.Valid() && d.config == loadConfig.value
        && (NumBars(d.config).Some? ==>
              d.bars == DecodeFrom(BarWords(d.config), readback, NumBars(d.config).value, 0)
                        + seq(6 - NumBars(d.config).value, _ => EMPTY_BAR))
        && (NumBars(d.config).None? ==> d.bars == seq(6, _ => EMPTY_BAR))
        && (StatusReg(d.config) & STATUS_NEW_CAPS != 0 ==>
              d.caps == CapWalk(space, CapabilitiesPtr(d.config) as nat, fuel).caps)
        && (StatusReg(d.config) & STATUS_NEW_CAPS == 0 ==> d.caps == [])
    {
      status := ProbeChecks(space);
      if status != NoError {
        return status, null;
      }
      d := new Device();
      if !Ok(loadConfig) {
        return loadConfig.status, null;
      }
      d.config := loadConfig.value;
      var _ := d.LoadBars(space, readback);
      var _, _ := d.ProbeCapabilities(space, fuel);
      return NoError, d;
    }

    /** probe's checks of the live registers, before the device is created. */
    static method ProbeChecks(space: Space) returns (status: Status)
      ensures status == ProbeLiveStatus(space)
    {
      var vendor := space.half(VENDOR_ID);
      if !Ok(vendor) || vendor.value == 0xFFFF {
        return ErrNotFound;
      }
      var base := space.byte(CLASS_CODE_BASE);
      if !Ok(base) {
        return ErrNotFound;
      }
      var sub := space.byte(CLASS_CODE_SUB);
      if !Ok(sub) {
        return ErrNotFound;
      }
      var header := space.byte(HEADER_TYPE);
      if !Ok(header) || header.value & HEADER_TYPE_MASK != 0 {
        return ErrNotFound;
      }
      if base.value == CLASS_BRIDGE && sub.value == SUBCLASS_PCI_BRIDGE {
        return ErrNotSupported;
      }
      return NoError;
    }

    /**
     * device::load_bars. `readback[i]` is what slot i's register reads after
     * all ones were written to it (for a 64-bit BAR, slot i+1 holds the high
     * half's read-back).
     */
    method LoadBars(space: Space, readback: seq<bv32>) returns (status: Status)
      requires Valid() && |readback| == 6
      modifies this
      ensures Valid()
      ensures config == old(config) && caps == old(caps) && msiCap == old(msiCap) && msixCap == old(msixCap)
      ensures NumBars(config) == None ==> status == ErrNotSupported && bars == old(bars) && log == old(log)
      ensures NumBars(config).Some? ==>
        var n := NumBars(config).value;
        var command := space.half(COMMAND).value;
        && status == NoError
        && bars == DecodeFrom(BarWords(config), readback, n, 0) + old(bars)[n..]
        && log == old(log) + [WriteHalf(COMMAND, DecodeOff(command))]
                  + SizingWritesFrom(BarWords(config), n, 0) + [WriteHalf(COMMAND, command)]
    {
      if NumBars(config) == None {
        return ErrNotSupported;
      }
      var n := NumBars(config).value;
      var words := BarWords(config);
      var command := space.half(COMMAND).value;
      log := log + [WriteHalf(COMMAND, DecodeOff(command))];
      var sized, writes := SizeBars(words, readback, n, bars);
      bars := sized;
      log := log + writes;
      log := log + [WriteHalf(COMMAND, command)];
      return NoError;
    }

    /**
     * load_bars' loop over slots 0..n-1 of `bars`: the slots it decodes, the
     * untouched slots past n, and the sizing writes in issue order.
     */
    static method SizeBars(words: seq<bv32>, readback: seq<bv32>, n: nat, bars0: seq<Bar>)
      returns (bars: seq<Bar>, writes: seq<Write>)
      requires n <= |words| && n <= |readback| && n <= |bars0|
      ensures bars == DecodeFrom(words, readback, n, 0) + bars0[n..]
      ensures writes == SizingWritesFrom(words, n, 0)
    {
      var decoded := [];
      writes := [];
      var i := 0;
      while i < n
        invariant i <= n
        invariant decoded + DecodeFrom(words, readback, n, i) == DecodeFrom(words, readback, n, 0)
        invariant writes + SizingWritesFrom(words, n, i) == SizingWritesFrom(words, n, 0)
        decreases n - i
      {
        var slot, slotWrites := SizeSlot(words, readback, n, i);
        DecodeAdvance(words, readback, n, i, decoded, writes);
        decoded := decoded + slot;
        writes := writes + slotWrites;
        i := i + |slot|;
      }
      bars := decoded + bars0[n..];
    }

    /**
     * One iteration of load_bars' loop: the BAR(s) slot i decodes to and
     * the sizing writes it issues.
     */
    static method SizeSlot(words: seq<bv32>, readback: seq<bv32>, n: nat, i: nat) returns (slot: seq<Bar>, writes: seq<Write>)
      requires n <= |words| && n <= |readback| && i < n
      ensures slot == SlotBars(words, readback, n, i) && writes == SlotWrites(words, n, i)
    {
      var w := words[i];
      var off := BarOffset(i);
      if IsIoBar(w) {
        slot := [IoBar(w, readback[i])];
        writes := [WriteWord(off, 0xFFFF), WriteWord(off, w & !3)];
      } else if IsMem32Bar(w) {
        slot := [Mem32Bar(w, readback[i])];
        writes := [WriteWord(off, 0xFFFF_FFFF), WriteWord(off, w & !0xF)];
      } else if IsMem64Bar(w) && i + 1 < n {
        // the slot after a 64-bit BAR holds its upper half and is cleared
        slot := [Mem64Bar(w, words[i + 1], readback[i], readback[i + 1]), EMPTY_BAR];
        writes := [WriteWord(off, 0xFFFF_FFFF), WriteWord(off + 4, 0xFFFF_FFFF),
                   WriteWord(off, w & !0xF), WriteWord(off + 4, words[i + 1])];
      } else {
        slot := [EMPTY_BAR];
        writes := [];
      }
    }

    /** device::read_bars: a copy of the six cached BARs. */
    method ReadBars() returns (r: seq<Bar>)
      requires Valid()
      ensures |r| == 6 && forall i :: 0 <= i < 6 ==> r[i] == bars[i]
    {
      r := bars;
    }

    /**
     * device::enable: a failed read of the command register is returned and
     * nothing is written; otherwise the command register is rewritten with the
     * three enable bits set and the backend's write status is returned.
     */
    method Enable(space: Space, writeStatus: Status) returns (status: Status)
      modifies this
      ensures config == old(config) && bars == old(bars) && caps == old(caps)
      ensures msiCap == old(msiCap) && msixCap == old(msixCap)
      ensures !Ok(space.half(COMMAND)) ==> status == space.half(COMMAND).status && log == old(log)
      ensures Ok(space.half(COMMAND)) ==>
        && status == writeStatus
        && |log| == |old(log)| + 1 && log[..|old(log)|] == old(log)
        && log[|old(log)|].width == Half && log[|old(log)|].offset == COMMAND
        && log[|old(log)|].value & 7 == 7
        && log[|old(log)|].value & !7 == (space.half(COMMAND).value as bv32) & !7
    {
      var command := space.half(COMMAND);
      if !Ok(command) {
        return command.status;
      }
      EnabledKeepsOtherBits(command.value);
      log := log + [WriteHalf(COMMAND, Enabled(command.value))];
      return writeStatus;
    }

    /**
     * device::compute_bar_sizes: accumulate every valid BAR's rounded size
     * and alignment into its window of `sizes`.
     */
    method ComputeBarSizes(sizes: BarSizes) returns (r: BarSizes)
      requires Valid()
      ensures r == SizesFrom(bars, 0, sizes)
    {
      r := sizes;
      var i := 0;
      while i < 6
        invariant i <= 6
        invariant SizesFrom(bars, i, r) == SizesFrom(bars, 0, sizes)
      {
        r := AddBar(r, bars[i]);
        i := i + 1;
      }
    }

    /** device::get_bar_alloc_requests: append one request per valid BAR to `reqs`. */
    method GetBarAllocRequests(reqs: seq<Request>) returns (r: seq<Request>)
      requires Valid()
      ensures r == reqs + RequestsFrom(bars, 0)
    {
      r := reqs;
      var i := 0;
      while i < 6
        invariant i <= 6
        invariant r + RequestsFrom(bars, i) == reqs + RequestsFrom(bars, 0)
      {
        if bars[i].valid {
          r := r + [RequestFor(bars[i], i)];
        }
        i := i + 1;
      }
    }

    /**
     * device::probe_capabilities, allowed at most fuel nodes: when the status
     * register announces a list, walk it from the cached capabilities
     * pointer, appending every node and remembering the last MSI and MSI-X
     * nodes; a failed read ends the walk with its status.
     */
    method ProbeCapabilities(space: Space, fuel: nat) returns (status: Status, finished: bool)
      modifies this
      ensures config == old(config) && bars == old(bars) && log == old(log)
      ensures StatusReg(config) & STATUS_NEW_CAPS == 0 ==>
        status == NoError && finished && caps == old(caps) && msiCap == old(msiCap) && msixCap == old(msixCap)
      ensures StatusReg(config) & STATUS_NEW_CAPS != 0 ==>
        var w := CapWalk(space, CapabilitiesPtr(config) as nat, fuel);
        && status == w.status && finished == w.finished
        && caps == old(caps) + w.caps
        && msiCap == LastWithId(w.caps, CAP_MSI, old(msiCap))
        && msixCap == LastWithId(w.caps, CAP_MSIX, old(msixCap))
    {
      if StatusReg(config) & STATUS_NEW_CAPS == 0 {
        return NoError, true;
      }
      status, finished := WalkCapabilities(space, CapabilitiesPtr(config) as nat, fuel);
    }

    /** probe_capabilities' loop from pointer ptr0. */
    method WalkCapabilities(space: Space, ptr0: nat, fuel: nat) returns (status: Status, finished: bool)
      modifies this
      ensures config == old(config) && bars == old(bars) && log == old(log)
      ensures status == CapWalk(space, ptr0, fuel).status && finished == CapWalk(space, ptr0, fuel).finished
      ensures caps == old(caps) + CapWalk(space, ptr0, fuel).caps
      ensures msiCap == LastWithId(CapWalk(space, ptr0, fuel).caps, CAP_MSI, old(msiCap))
      ensures msixCap == LastWithId(CapWalk(space, ptr0, fuel).caps, CAP_MSIX, old(msixCap))
    {
      ghost var walk := CapWalk(space, ptr0, fuel);
      ghost var found: seq<Capability> := [];
      var ptr := ptr0;
      var steps := 0;
      var stop := false;
      status, finished := NoError, true;
      while ptr != 0 && steps < fuel && !stop
        invariant steps <= fuel
        invariant config == old(config) && bars == old(bars) && log == old(log)
        invariant caps == old(caps) + found
        invariant msiCap == LastWithId(found, CAP_MSI, old(msiCap))
        invariant msixCap == LastWithId(found, CAP_MSIX, old(msixCap))
        invariant !stop ==> status == NoError && walk == Prepend(found, CapWalk(space, ptr, fuel - steps))
        invariant stop ==> walk == WalkResult(found, status, true) && finished
        decreases fuel - steps, if stop then 0 else 1
      {
        var id := space.byte(ptr);
        if !Ok(id) {
          WalkHalts(space, ptr, fuel - steps, found);
          status, stop := id.status, true;
        } else {
          var cap := Capability(id.value, ptr);
          WalkAdvance(space, ptr, fuel - steps, found);
          LastWithIdSnoc(found, cap, CAP_MSI, old(msiCap));
          LastWithIdSnoc(found, cap, CAP_MSIX, old(msixCap));
          AddCapability(cap);
          found := found + [cap];
          var next := space.byte(ptr + 1);
          if !Ok(next) {
            status, stop := next.status, true;
          } else {
            ptr := next.value as nat;
            steps := steps + 1;
          }
        }
      }
      if !stop {
        WalkHalts(space, ptr, fuel - steps, found);
        finished := ptr == 0;
      }
    }

    /**
     * Append a node to the list; an MSI or MSI-X node becomes the function's
     * MSI or MSI-X capability (init_msi_capability and init_msix_capability
     * only read the capability and always succeed).
     */
    method AddCapability(cap: Capability)
      modifies this
      ensures config == old(config) && bars == old(bars) && log == old(log)
      ensures caps == old(caps) + [cap]
      ensures msiCap == (if cap.id == CAP_MSI then Some(cap) else old(msiCap))
      ensures msixCap == (if cap.id == CAP_MSIX then Some(cap) else old(msixCap))
    {
      caps := caps + [cap];
      if cap.id == CAP_MSI {
        msiCap := Some(cap);
      } else if cap.id == CAP_MSIX {
        msixCap := Some(cap);
      }
    }

    /**
     * device::read_vendor_capability: copy the index-th vendor capability
     * into buf and return its length byte, or ERR_NOT_FOUND (None). The
     * reads' statuses are ignored.
     */
    method ReadVendorCapability(space: Space, index: nat, buf: array<bv8>, buflen: nat) returns (r: Option<bv8>)
      requires buflen <= buf.Length
      modifies buf
      ensures VendorRead(space, caps, index, buflen) == VendorNotFound ==> r == None && buf[..] == old(buf[..])
      ensures VendorRead(space, caps, index, buflen).VendorCap? ==>
        var data := VendorRead(space, caps, index, buflen).data;
        && r == Some(VendorRead(space, caps, index, buflen).len)
        && buf[..|data|] == data && buf[|data|..] == old(buf[|data|..])
    {
      var cap := FindVendorCap(index);
      if cap == None {
        return None;
      }
      var off := cap.value.offset;
      var len := space.byte(off + 2).value;
      var readlen := if (len as nat) < buflen then len as nat else buflen;
      CopyConfigBytes(space, off, buf, readlen);
      return Some(len);
    }

    /** The list walk of read_vendor_capability: the index-th vendor capability, counting down index at each one. */
    method FindVendorCap(index: nat) returns (cap: Option<Capability>)
      ensures index < |VendorCaps(caps)| ==> cap == Some(VendorCaps(caps)[index])
      ensures index >= |VendorCaps(caps)| ==> cap == None
    {
      var i := 0;
      var idx: nat := index;
      assert caps[0..] == caps;
      while i < |caps|
        invariant i <= |caps|
        invariant (idx < |VendorCaps(caps[i..])|) <==> (index < |VendorCaps(caps)|)
        invariant (idx < |VendorCaps(caps[i..])|) ==> VendorCaps(caps[i..])[idx] == VendorCaps(caps)[index]
      {
        VendorCapsStep(caps, i);
        if caps[i].id == CAP_VENDOR {
          if idx == 0 {
            return Some(caps[i]);
          }
          idx := idx - 1;
        }
        i := i + 1;
      }
      assert caps[i..] == [];
      return None;
    }

    /** read_vendor_capability's copy loop: bytes off..off+n-1 into buf[0..n-1], statuses ignored. */
    static method CopyConfigBytes(space: Space, off: nat, buf: array<bv8>, n: nat)
      requires n <= buf.Length
      modifies buf
      ensures buf[..n] == seq(n, i requires 0 <= i < n => space.byte(off + i).value)
      ensures buf[n..] == old(buf[n..])
    {
      var k := 0;
      while k < n
        invariant k <= n
        invariant forall j :: 0 <= j < k ==> buf[j] == space.byte(off + j).value
        invariant forall j :: k <= j < buf.Length ==> buf[j] == old(buf[j])
      {
        buf[k] := space.byte(off + k).value;
        k := k + 1;
      }
      assert buf[..n] == seq(n, i requires 0 <= i < n => space.byte(off + i).value);
    }

    /**
     * device::allocate_irq: read the interrupt pin (pin 0 means no legacy
     * interrupt), map it to a platform vector with toVector
     * (platform_pci_int_to_vector), and write the vector's low byte to the
     * interrupt line register.
     */
    method AllocateIrq(space: Space, toVector: bv8 -> Read<bv32>) returns (status: Status, irq: bv32)
      modifies this
      ensures config == old(config) && bars == old(bars) && caps == old(caps)
      ensures msiCap == old(msiCap) && msixCap == old(msixCap)
      ensures var pin := space.byte(INTERRUPT_PIN);
        && (!Ok(pin) ==> status == pin.status && log == old(log))
        && (Ok(pin) && pin.value == 0 ==> status == ErrNoResources && log == old(log))
        && (Ok(pin) && pin.value != 0 && !Ok(toVector(pin.value)) ==>
              status == toVector(pin.value).status && log == old(log))
        && (Ok(pin) && pin.value != 0 && Ok(toVector(pin.value)) ==>
              && status == NoError && irq == toVector(pin.value).value
              && log == old(log) + [WriteByte(INTERRUPT_LINE, (irq & 0xFF) as bv8)])
    {
      var pin := space.byte(INTERRUPT_PIN);
      if !Ok(pin) {
        return pin.status, 0;
      }
      if pin.value == 0 {
        return ErrNoResources, 0;
      }
      var vector := toVector(pin.value);
      if !Ok(vector) {
        return vector.status, vector.value;
      }
      irq := vector.value;
      log := log + [WriteByte(INTERRUPT_LINE, (irq & 0xFF) as bv8)];
      return NoError, irq;
    }

    /**
     * device::allocate_msi: alloc is what platform_allocate_interrupts
     * returns and compute what platform_compute_msi_values returns for a
     * vector. The message is programmed into the MSI capability while it is
     * disabled, then MSI is enabled and the vector's low byte written to the
     * interrupt line. The control register read is not checked.
     */
    method AllocateMsi(space: Space, alloc: Read<bv32>, compute: bv32 -> Read<MsiMessage>) returns (status: Status, vector: bv32)
      modifies this
      ensures config == old(config) && bars == old(bars) && caps == old(caps)
      ensures msiCap == old(msiCap) && msixCap == old(msixCap)
      ensures msiCap == None ==> status == ErrNotSupported && log == old(log)
      ensures msiCap.Some? && !Ok(alloc) ==> status == alloc.status && log == old(log)
      ensures msiCap.Some? && Ok(alloc) && !Ok(compute(alloc.value)) ==>
        status == compute(alloc.value).status && log == old(log)
      ensures msiCap.Some? && Ok(alloc) && Ok(compute(alloc.value)) ==>
        var off := msiCap.value.offset;
        && status == NoError && vector == alloc.value
        && log == old(log) + MsiWrites(off, space.half(off + 2).value, compute(alloc.value).value, vector)
    {
      if msiCap == None {
        return ErrNotSupported, 0;
      }
      if !Ok(alloc) {
        return alloc.status, 0;
      }
      vector := alloc.value;
      var msg := compute(vector);
      if !Ok(msg) {
        return msg.status, vector;
      }
      var off := msiCap.value.offset;
      var control := space.half(off + 2).value;
      log := log + MsiWrites(off, control, msg.value, vector);
      return NoError, vector;
    }

    /**
     * device::allocate_msix. alloc and compute stand for the platform as in
     * AllocateMsi; vmmMap gives vmm_alloc_physical's status for a physical
     * address and a length; `table` holds the words of the mapped MSI-X
     * table. The table and PBA windows are mapped as the code sizes them,
     * offset_bar_word * 16 bytes each.
     */
    method AllocateMsix(space: Space, num: nat, alloc: Read<bv32>, vmmMap: (nat, nat) -> Status,
                        compute: bv32 -> Read<MsiMessage>, table: array<bv32>) returns (status: Status, vector: bv32)
      requires Valid()
      requires msixCap.Some? ==> 4 * MsixTableCount(MsixControl(space, msixCap.value.offset)) <= table.Length
      modifies this, table
      ensures Valid()
      ensures config == old(config) && bars == old(bars) && caps == old(caps)
      ensures msiCap == old(msiCap) && msixCap == old(msixCap)
      ensures status == MsixAllocStatus(space, bars, msixCap, num, alloc, vmmMap, compute)
      ensures status != NoError ==> log == old(log) && table[..] == old(table[..])
      ensures status == NoError ==>
        var off := msixCap.value.offset;
        var control := MsixControl(space, off);
        && vector == alloc.value && num <= MsixTableCount(control)
        && table[..] == MsixTable(old(table[..]), MsixTableCount(control), num, compute(alloc.value).value)
        && log == old(log) + MsixEnableWrites(off, control, vector)
    {
      if msixCap == None {
        return ErrNotSupported, 0;
      }
      var off := msixCap.value.offset;
      var control;
      status, control := SetUpMsix(space, off, num, alloc, vmmMap);
      if status != NoError {
        return status, 0;
      }
      vector := alloc.value;
      var msg := compute(vector);
      if !Ok(msg) {
        return msg.status, vector;
      }
      ProgramMsix(off, control, num, msg.value, vector, table);
      return NoError, vector;
    }

    /**
     * allocate_msix from the point the message is known: program the table,
     * enable MSI-X in the control register and write the interrupt line.
     */
    method ProgramMsix(off: nat, control: bv16, num: nat, msg: MsiMessage, vector: bv32, table: array<bv32>)
      requires num <= MsixTableCount(control) && 4 * MsixTableCount(control) <= table.Length
      modifies this, table
      ensures config == old(config) && bars == old(bars) && caps == old(caps)
      ensures msiCap == old(msiCap) && msixCap == old(msixCap)
      ensures table[..] == MsixTable(old(table[..]), MsixTableCount(control), num, msg)
      ensures log == old(log) + MsixEnableWrites(off, control, vector)
    {
      ProgramMsixTable(table, MsixTableCount(control), num, MsixEntry(msg));
      log := log + MsixEnableWrites(off, control, vector);
    }

    /**
     * allocate_msix up to the point where the message is computed: read the
     * control register and the table and PBA words, check the vector count,
     * allocate vectors and map both windows.
     */
    method SetUpMsix(space: Space, off: nat, num: nat, alloc: Read<bv32>, vmmMap: (nat, nat) -> Status) returns (status: Status, control: bv16)
      requires Valid()
      ensures status == MsixSetUp(space, bars, off, num, alloc, vmmMap)
      ensures control == MsixControl(space, off) && (status == NoError ==> num <= MsixTableCount(control))
    {
      var controlRead := space.half(off + 2);
      control := controlRead.value;
      var count := MsixTableCount(control);
      if !Ok(controlRead) {
        return controlRead.status, control;
      }
      var tableWord := space.word(off + 4);
      if !Ok(tableWord) {
        return tableWord.status, control;
      }
      var pbaWord := space.word(off + 8);
      if !Ok(pbaWord) {
        return pbaWord.status, control;
      }
      if num > count {
        return ErrNoResources, control;
      }
      if !Ok(alloc) {
        return alloc.status, control;
      }
      MappingSplitsWord(tableWord.value, tableWord.value as nat * 16);
      MappingSplitsWord(pbaWord.value, pbaWord.value as nat * 16);
      status := MapIt(MappingAsWritten(tableWord.value), vmmMap);
      if status != NoError {
        return;
      }
      status := MapIt(MappingAsWritten(pbaWord.value), vmmMap);
    }

    /** allocate_msix's map_it: the BAR must be a valid memory BAR, then the window is mapped. */
    method MapIt(m: Mapping, vmmMap: (nat, nat) -> Status) returns (status: Status)
      requires Valid() && m.bar < 6
      ensures status == MapStatus(bars, m, vmmMap)
    {
      if !bars[m.bar].valid || bars[m.bar].io {
        return ErrInvalidArgs;
      }
      return vmmMap(MapPhysical(bars[m.bar], m), MapLength(m));
    }

    /**
     * allocate_msix's two loops: mask every entry, then store entry into the
     * first num and unmask them.
     */
    static method ProgramMsixTable(table: array<bv32>, count: nat, num: nat, entry: seq<bv32>)
      requires num <= count && 4 * count <= table.Length && |entry| == 4
      modifies table
      ensures table[..] == Repeat(entry, num) + Repeat(MASKED_ENTRY, count - num) + old(table[..])[4 * count..]
    {
      ghost var t := table[..];
      MaskEntries(table, count);
      FillEntries(table, count, num, entry);
      TableWords(table[..], t, count, num, entry);
    }

    /** The masking loop: every entry of the table masked, the words past it untouched. */
    static method MaskEntries(table: array<bv32>, count: nat)
      requires 4 * count <= table.Length
      modifies table
      ensures forall j :: 0 <= j < 4 * count ==> table[j] == MASKED_ENTRY[j % 4]
      ensures forall j :: 4 * count <= j < table.Length ==> table[j] == old(table[j])
    {
      var i := 0;
      while i < count
        invariant i <= count
        invariant forall j :: 0 <= j < 4 * i ==> table[j] == MASKED_ENTRY[j % 4]
        invariant forall j :: 4 * i <= j < table.Length ==> table[j] == old(table[j])
      {
        table[4 * i] := 0;
        table[4 * i + 1] := 0;
        table[4 * i + 2] := 0;
        table[4 * i + 3] := 1;
        i := i + 1;
      }
    }

    /** The request loop: the first num entries replaced by entry, the rest as they were. */
    static method FillEntries(table: array<bv32>, count: nat, num: nat, entry: seq<bv32>)
      requires num <= count && 4 * count <= table.Length && |entry| == 4
      modifies table
      ensures forall j :: 0 <= j < 4 * num ==> table[j] == entry[j % 4]
      ensures forall j :: 4 * num <= j < table.Length ==> table[j] == old(table[j])
    {
      var i := 0;
      while i < num
        invariant i <= num
        invariant forall j :: 0 <= j < 4 * i ==> table[j] == entry[j % 4]
        invariant forall j :: 4 * i <= j < table.Length ==> table[j] == old(table[j])
      {
        table[4 * i] := entry[0];
        table[4 * i + 1] := entry[1];
        table[4 * i + 2] := entry[2];
        table[4 * i + 3] := entry[3];
        i := i + 1;
      }
    }

    /**
     * device::assign_resource: program the assigned address into the BAR
     * (the low 16 bits, low two clear, for I/O; the low word, low four
     * clear, for memory; and the high word into the next slot for a 64-bit
     * BAR), then reload the header (reload: what pci_read_config left in
     * it; its status is ignored) and the BARs.
     */
    method AssignResource(req: Request, address: bv64, reload: Read<Config>, space: Space, readback: seq<bv32>) returns (status: Status)
      requires Valid() && |readback| == 6
      requires req.align < 64 && address & (((1 as bv64) << req.align) - 1) == 0
      modifies this
      ensures Valid() && status == NoError
      ensures config == reload.value && caps == old(caps) && msiCap == old(msiCap) && msixCap == old(msixCap)
      ensures var written := old(log) + AssignWrites(req, address);
        match NumBars(config)
        case None => bars == old(bars) && log == written
        case Some(n) =>
          var command := space.half(COMMAND).value;
          && bars == DecodeFrom(BarWords(config), readback, n, 0) + old(bars)[n..]
          && log == written + [WriteHalf(COMMAND, DecodeOff(command))]
                    + SizingWritesFrom(BarWords(config), n, 0) + [WriteHalf(COMMAND, command)]
    {
      log := log + AssignWrites(req, address);
      config := reload.value;
      var _ := LoadBars(space, readback);
      return NoError;
    }
  }

  /** The BAR writes assign_resource issues for a request. */
  function AssignWrites(req: Request, address: bv64): seq<Write>
  {
    var off := BarOffset(req.barNum);
    match req.rtype
    case IoRange => [WriteWord(off, (address & 0xFFFC) as bv32)]
    case MmioRange => [WriteWord(off, (address & 0xFFFF_FFF0) as bv32)]
    case Mmio64Range => [WriteWord(off, (address & 0xFFFF_FFF0) as bv32), WriteWord(off + 4, (address >> 32) as bv32)]
  }
}
