/**
 * The split virtqueues of lk's virtio devices (dev/virtio/virtio-device.cpp),
 * VIRTIO 1.1 sections 2.6.5-2.6.8: the descriptor free list threaded through
 * the descriptor table's next fields, chain allocation, publication on the
 * available ring, and the walk of the used ring in the interrupt handler.
 *
 * Ring indices are 16-bit. The source masks with num_mask = num - 1 for a
 * power-of-two num; the model writes that mask as `% num`.
 */
module VirtioDevice {
  import opened Lk

  const MAX_VIRTIO_RINGS: nat := 4
  /** The free-list terminator. */
  const NO_DESC: nat := 0xFFFF
  const VRING_DESC_F_NEXT: bv16 := 1
  const PAGE_SIZE: nat := 4096

  /** One entry of the descriptor table (struct vring_desc); next is a 16-bit index. */
  datatype Desc = Desc(addr: bv64, len: bv32, flags: bv16, next: nat)

  /** One entry of the used ring (struct vring_used_elem). */
  datatype UsedElem = UsedElem(id: bv32, len: bv32)

  /** Register writes the device layer issues to its MMIO block. */
  datatype MmioReg = GuestPageSize | QueueSel | QueueNum | QueueAlign | QueuePfn | InterruptAck
  datatype MmioWrite = MmioWrite(reg: MmioReg, value: nat)

  const ZeroDesc := Desc(0, 0, 0, 0)

  /** lk's ispow2 on a 16-bit length: (len - 1) & len == 0. */
  predicate IsPow2(len: nat)
    requires len < U16
  {
    var x := len as bv16;
    (x - 1) & x == 0
  }

  /** The entry after position k of the free list, or the terminator. */
  function Successor(free: seq<nat>, k: nat): nat
    requires k < |free|
  {
    if k + 1 < |free| then free[k + 1] else NO_DESC
  }

  predicate Distinct(s: seq<nat>) {
    forall k, l :: 0 <= k < l < |s| ==> s[k] != s[l]
  }

  /** A duplicate-free list of indices below n holds at most n of them. */
  lemma {:induction false} DistinctBelow(s: seq<nat>, n: nat)
    requires Distinct(s) && forall k :: 0 <= k < |s| ==> s[k] < n
    ensures |s| <= n
    decreases n
  {
    if n > 0 {
      var j := 0;
      while j < |s| && s[j] != n - 1
        invariant j <= |s| && forall i :: 0 <= i < j ==> s[i] != n - 1
      {
        j := j + 1;
      }
      var rest := if j < |s| then s[..j] + s[j + 1..] else s;
      assert |rest| >= |s| - 1;
      forall k | 0 <= k < |rest| ensures rest[k] < n - 1 {
        if j < |s| {
          if k < j {
            assert rest[k] == s[k] && s[k] != s[j];
          } else {
            assert rest[k] == s[k + 1] && s[k + 1] != s[j];
          }
        } else {
          assert rest[k] == s[k];
        }
      }
      forall k, l | 0 <= k < l < |rest| ensures rest[k] != rest[l] {
        if j < |s| {
          var k' := if k < j then k else k + 1;
          var l' := if l < j then l else l + 1;
          assert rest[k] == s[k'] && rest[l] == s[l'];
        }
      }
      DistinctBelow(rest, n - 1);
    }
  }

  /**
   * The descriptor table after the first m indices of p have been popped
   * for a chain, in that order.
   */
  function Linked(d: seq<Desc>, p: seq<nat>, m: nat): (r: seq<Desc>)
    requires m <= |p| && forall k :: 0 <= k < |p| ==> p[k] < |d|
    ensures |r| == |d|
  {
    if m == 0 then d
    else Linked(d, p, m - 1)[p[m - 1] := ChainEntry(d[p[m - 1]], m - 1, if m == 1 then 0 else p[m - 2])]
  }

  /** The k-th descriptor popped for a chain: the first ends the chain, each later one links to the one before. */
  function ChainEntry(e: Desc, k: nat, prev: nat): Desc {
    if k == 0 then e.(flags := 0, next := 0) else e.(flags := VRING_DESC_F_NEXT, next := prev)
  }

  /** Popping a chain touches only the popped descriptors. */
  lemma {:induction false} LinkedElsewhere(d: seq<Desc>, p: seq<nat>, m: nat, j: nat)
    requires m <= |p| && forall k :: 0 <= k < |p| ==> p[k] < |d|
    requires j < |d| && forall k :: 0 <= k < m ==> p[k] != j
    ensures Linked(d, p, m)[j] == d[j]
  {
    if m > 0 {
      LinkedElsewhere(d, p, m - 1, j);
    }
  }

  /**
   * The chain the table holds after m pops: starting from the last index
   * popped and following next, the popped descriptors come back in reverse
   * order, each but the first popped flagged VRING_DESC_F_NEXT, and the first
   * popped ends the chain with flags 0.
   */
  lemma {:induction false} LinkedChain(d: seq<Desc>, p: seq<nat>, m: nat, k: nat)
    requires m <= |p| && forall i :: 0 <= i < |p| ==> p[i] < |d|
    requires Distinct(p) && k < m
    ensures k == 0 ==> Linked(d, p, m)[p[k]].flags == 0 && Linked(d, p, m)[p[k]].next == 0
    ensures k > 0 ==> Linked(d, p, m)[p[k]].flags == VRING_DESC_F_NEXT && Linked(d, p, m)[p[k]].next == p[k - 1]
    ensures Linked(d, p, m)[p[k]].addr == d[p[k]].addr && Linked(d, p, m)[p[k]].len == d[p[k]].len
  {
    if k < m - 1 {
      LinkedChain(d, p, m - 1, k);
      assert p[m - 1] != p[k];
    }
  }

  /** x reduced once around a ring of n: what masking with n - 1 does to an index below 2n. */
  function Wrap(x: nat, n: nat): (r: nat)
    requires x < 2 * n
    ensures r < n
  {
    if x < n then x else x - n
  }

  /** The next slot of a ring of n, as `(i + 1) & num_mask` computes it for a power-of-two n. */
  function Advance(i: nat, n: nat): (r: nat)
    requires i < n
    ensures r == Wrap(i + 1, n) && r < n
  {
    ModBelowTwice(i + 1, n);
    (i + 1) % n
  }

  /** How many slots the used-ring walk visits going from `from` up to `to` around a ring of n. */
  function Distance(from: nat, to: nat, n: nat): (r: nat)
    requires from < n && to < n
    ensures r < n
  {
    if from <= to then to - from else to + n - from
  }

  /** The indices the used-ring walk visits going from `from` up to (not including) `to` around a ring of n. */
  function Walk(from: nat, to: nat, n: nat): (r: seq<nat>)
    requires from < n && to < n
    ensures |r| == Distance(from, to, n) < n
    ensures forall k :: 0 <= k < |r| ==> r[k] == Wrap(from + k, n)
  {
    seq(Distance(from, to, n), k requires 0 <= k < Distance(from, to, n) => if from + k < n then from + k else from + k - n)
  }

  /** The k-th slot of a walk is `from + k` modulo the ring size. */
  lemma WalkMod(from: nat, to: nat, n: nat, k: nat)
    requires from < n && to < n && k < |Walk(from, to, n)|
    ensures Walk(from, to, n)[k] == (from + k) % n
  {
    ModBelowTwice(from + k, n);
  }

  /** A walk never meets the same slot twice, and stops just before `to`. */
  lemma WalkDistinct(from: nat, to: nat, n: nat)
    requires from < n && to < n
    ensures Distinct(Walk(from, to, n))
    ensures forall k :: 0 <= k < |Walk(from, to, n)| ==> Walk(from, to, n)[k] != to
  {
  }

  lemma ModBelowTwice(x: nat, n: nat)
    requires 0 < n && x < 2 * n
    ensures x % n == if x < n then x else x - n
  {
  }

  /** Some slot of s carries a used element whose callback asks for a reschedule. */
  predicate Resched(r: nat, used: seq<UsedElem>, handler: (nat, UsedElem) -> bool, s: seq<nat>)
    requires forall k :: 0 <= k < |s| ==> s[k] < |used|
  {
    |s| > 0 && (Resched(r, used, handler, s[..|s| - 1]) || handler(r, used[s[|s| - 1]]))
  }

  /** Resched is the existential it stands for. */
  lemma {:induction false} ReschedExists(r: nat, used: seq<UsedElem>, handler: (nat, UsedElem) -> bool, s: seq<nat>)
    requires forall k :: 0 <= k < |s| ==> s[k] < |used|
    ensures Resched(r, used, handler, s) <==> exists k :: 0 <= k < |s| && handler(r, used[s[k]])
  {
    if |s| > 0 {
      var front := s[..|s| - 1];
      ReschedExists(r, used, handler, front);
      if exists k :: 0 <= k < |s| && handler(r, used[s[k]]) {
        var k :| 0 <= k < |s| && handler(r, used[s[k]]);
        if k < |s| - 1 {
          assert front[k] == s[k];
        }
      }
      if exists k :: 0 <= k < |front| && handler(r, used[front[k]]) {
        var k :| 0 <= k < |front| && handler(r, used[front[k]]);
        assert s[k] == front[k];
      }
    }
  }

  /**
   * The free list `free` is threaded through the table: distinct in-range
   * indices, each descriptor's next naming the following one, the last
   * naming the terminator.
   */
  ghost predicate Links(d: seq<Desc>, free: seq<nat>) {
    && (forall k :: 0 <= k < |free| ==> free[k] < |d|)
    && Distinct(free)
    && (forall k :: 0 <= k < |free| ==> d[free[k]].next == Successor(free, k))
  }

  /** Pushing an index that is not yet free keeps the list threaded. */
  lemma PushLinks(d: seq<Desc>, free: seq<nat>, i: nat, head: nat)
    requires Links(d, free) && i < |d| && i !in free
    requires free != [] ==> head == free[0]
    requires free == [] ==> head == NO_DESC
    ensures Links(d[i := d[i].(next := head)], [i] + free)
  {
    var d' := d[i := d[i].(next := head)];
    var f' := [i] + free;
    forall k | 0 <= k < |f'| ensures f'[k] < |d'| && d'[f'[k]].next == Successor(f', k) {
      if k > 0 {
        PushedEntry(d, free, i, head, k - 1);
      }
    }
    forall k, l | 0 <= k < l < |f'| ensures f'[k] != f'[l] {
      assert f'[l] == free[l - 1];
      if k > 0 {
        assert f'[k] == free[k - 1];
      }
    }
  }

  /** The entry of a pushed list behind the new head: unchanged, and still linked to its old successor. */
  lemma PushedEntry(d: seq<Desc>, free: seq<nat>, i: nat, head: nat, k: nat)
    requires Links(d, free) && i < |d| && i !in free && k < |free|
    ensures ([i] + free)[k + 1] == free[k] != i
    ensures d[i := d[i].(next := head)][free[k]] == d[free[k]]
    ensures Successor([i] + free, k + 1) == Successor(free, k)
  {
  }

  /** Popping the head keeps the rest of the list threaded. */
  lemma PopLinks(d: seq<Desc>, free: seq<nat>)
    requires Links(d, free) && free != []
    ensures Links(d, free[1..])
    ensures d[free[0]].next == (if |free| > 1 then free[1] else NO_DESC)
  {
    var f' := free[1..];
    forall k | 0 <= k < |f'| ensures d[f'[k]].next == Successor(f', k) {
      assert f'[k] == free[k + 1];
    }
    forall k, l | 0 <= k < l < |f'| ensures f'[k] != f'[l] {
      assert f'[k] == free[k + 1] && f'[l] == free[l + 1];
    }
  }

  /** The free list of a fresh ring: every index, highest first. */
  function Descending(len: nat): (r: seq<nat>)
    ensures |r| == len
    ensures forall k :: 0 <= k < len ==> r[k] == len - 1 - k
  {
    if len == 0 then [] else [len - 1] + Descending(len - 1)
  }

  /** One split virtqueue (struct vring) with its length ring_len_[i]. */
  class Ring {
    var num: nat
    var desc: array<Desc>
    var freeList: nat
    var freeCount: nat
    var availIdx: nat
    var avail: array<nat>
    var lastUsed: nat
    /** The free list in order from its head. */
    ghost var free: seq<nat>

    ghost predicate Valid()
      reads this, desc
    {
      && desc.Length == num && avail.Length == num && num < U16
      && freeCount == |free|
      && (free != [] ==> freeList == free[0])
      && (free == [] && num > 0 ==> freeList == NO_DESC)
      && Links(desc[..], free)
      && availIdx < U16
      && (num == 0 || lastUsed < num)
    }

    /** A zero-initialised ring, as in the device's ring_ array before virtio_alloc_ring. */
    constructor()
      ensures Valid() && num == 0 && free == [] && freeCount == 0
    {
      num := 0;
      desc := new Desc[0];
      avail := new nat[0];
      freeList := 0;
      freeCount := 0;
      availIdx := 0;
      lastUsed := 0;
      free := [];
    }

    /**
     * vring_init followed by the free-list reset of virtio_alloc_ring: a
     * zeroed table and rings of len entries, an empty free list.
     */
    method Reset(len: nat)
      requires 0 < len < U16
      modifies this
      ensures Valid() && num == len && free == [] && freeCount == 0 && freeList == NO_DESC
      ensures availIdx == 0 && lastUsed == 0 && fresh(desc) && fresh(avail)
      ensures forall k :: 0 <= k < len ==> desc[k] == ZeroDesc && avail[k] == 0
    {
      num := len;
      desc := new Desc[len](_ => ZeroDesc);
      avail := new nat[len](_ => 0);
      freeList := NO_DESC;
      freeCount := 0;
      availIdx := 0;
      lastUsed := 0;
      free := [];
    }

    /**
     * virtio_free_desc: the descriptor is pushed on the head of the free
     * list, its next pointing at the old head, and free_count grows by one.
     */
    method FreeDesc(i: nat)
      requires Valid() && i < num && i !in free
      modifies this, desc
      ensures Valid() && free == [i] + old(free) && freeList == i && freeCount == old(freeCount) + 1
      ensures desc == old(desc) && desc[..] == old(desc[..])[i := old(desc[i]).(next := old(freeList))]
      ensures num == old(num) && avail == old(avail) && availIdx == old(availIdx) && lastUsed == old(lastUsed)
    {
      ghost var d0 := desc[..];
      ghost var f' := [i] + free;
      PushLinks(d0, free, i, freeList);
      DistinctBelow(f', num);
      desc[i] := desc[i].(next := freeList);
      assert desc[..] == d0[i := d0[i].(next := old(freeList))];
      freeList := i;
      freeCount := (freeCount + 1) % U16;
      free := f';
    }

    /** The loop of virtio_alloc_ring that frees every descriptor of a fresh ring, lowest index first. */
    method FreeAll()
      requires Valid() && free == [] && availIdx == 0 && lastUsed == 0
      modifies this, desc
      ensures Valid() && free == Descending(num) && freeCount == num
      ensures num == old(num) && availIdx == 0 && lastUsed == 0 && desc == old(desc)
    {
      var i := 0;
      while i < num
        invariant i <= num && Valid() && free == Descending(i)
        invariant num == old(num) && availIdx == 0 && lastUsed == 0 && desc == old(desc)
      {
        FreeDesc(i);
        i := i + 1;
      }
    }

    /**
     * virtio_alloc_desc: 0xFFFF with nothing changed when the free list is
     * empty; otherwise the head is popped (last in, first out).
     */
    method AllocDesc() returns (i: nat)
      requires Valid()
      modifies this
      ensures Valid() && desc == old(desc) && num == old(num)
      ensures avail == old(avail) && availIdx == old(availIdx) && lastUsed == old(lastUsed)
      ensures old(free) == [] ==> i == NO_DESC && free == old(free) && freeList == old(freeList) && freeCount == old(freeCount)
      ensures old(free) != [] ==> i == old(free)[0] && free == old(free)[1..] && freeCount == old(freeCount) - 1
    {
      if freeCount == 0 {
        return NO_DESC;
      }
      PopLinks(desc[..], free);
      i := freeList;
      freeList := desc[i].next;
      freeCount := freeCount - 1;
      free := free[1..];
    }

    /**
     * virtio_alloc_desc_chain: nothing happens unless count descriptors are
     * free. Otherwise count are popped and linked so that the last one popped
     * heads a chain back to the first. The result is the chain's head (none
     * for an empty chain) and the index written to *start_index.
     */
    method AllocDescChain(count: nat) returns (head: Option<nat>, startIndex: Option<nat>)
      requires Valid()
      modifies this, desc
      ensures Valid() && desc == old(desc) && num == old(num)
      ensures avail == old(avail) && availIdx == old(availIdx) && lastUsed == old(lastUsed)
      ensures old(freeCount) < count ==>
        head == None && startIndex == None && free == old(free) && freeList == old(freeList) && desc[..] == old(desc[..])
      ensures old(freeCount) >= count ==>
        && free == old(free)[count..]
        && desc[..] == Linked(old(desc[..]), old(free), count)
        && head == (if count == 0 then None else Some(old(free)[count - 1]))
        && startIndex == Some(if count == 0 then 0 else old(free)[count - 1])
    {
      if freeCount < count {
        return None, None;
      }
      ghost var d0 := desc[..];
      ghost var f0 := free;
      var lastIndex;
      head, lastIndex := PopChain(count);
      ChainLinks(d0, f0, count);
      if count > 0 {
        ChainHead(f0, count);
      }
      startIndex := Some(lastIndex);
    }

    /** The pop-and-link loop of virtio_alloc_desc_chain, once enough descriptors are known to be free. */
    method PopChain(count: nat) returns (last: Option<nat>, lastIndex: nat)
      requires count <= |free| && Links(desc[..], free) && freeCount == |free|
      requires free != [] ==> freeList == free[0]
      modifies this, desc
      ensures desc == old(desc) && desc[..] == Linked(old(desc[..]), old(free), count)
      ensures free == old(free)[count..] && freeCount == |free|
      ensures last == (if count == 0 then None else Some(old(free)[count - 1]))
      ensures lastIndex == (if count == 0 then 0 else old(free)[count - 1])
      ensures count > 0 ==> freeList == Successor(old(free), count - 1)
      ensures count == 0 ==> freeList == old(freeList)
      ensures num == old(num) && avail == old(avail) && availIdx == old(availIdx) && lastUsed == old(lastUsed)
    {
      ghost var d0 := desc[..];
      ghost var f0 := free;
      var remaining: nat := count;
      ghost var m: nat := 0;
      last := None;
      lastIndex := 0;
      while remaining > 0
        invariant m + remaining == count && count <= |f0|
        invariant free == f0[m..] && desc == old(desc) && freeCount == |free|
        invariant desc[..] == Linked(d0, f0, m)
        invariant last == (if m == 0 then None else Some(f0[m - 1]))
        invariant lastIndex == (if m == 0 then 0 else f0[m - 1])
        invariant m > 0 ==> freeList == Successor(f0, m - 1)
        invariant m == 0 ==> freeList == old(freeList)
        invariant num == old(num) && avail == old(avail) && availIdx == old(availIdx) && lastUsed == old(lastUsed)
      {
        ChainStep(d0, f0, m);
        var i := PopLink(d0, f0, m, last, lastIndex);
        last := Some(i);
        lastIndex := i;
        remaining := remaining - 1;
        m := m + 1;
      }
      assert m == count && d0 == old(desc[..]) && f0 == old(free);
    }

    /** One iteration of the chain loop: pop the head and link it behind the previous pop. */
    method PopLink(ghost d0: seq<Desc>, ghost f0: seq<nat>, ghost m: nat, last: Option<nat>, lastIndex: nat) returns (i: nat)
      requires Links(d0, f0) && m < |f0| && free == f0[m..] && freeCount == |free| && freeList == f0[m]
      requires desc[..] == Linked(d0, f0, m) && Linked(d0, f0, m)[f0[m]] == d0[f0[m]]
      requires last == (if m == 0 then None else Some(f0[m - 1])) && lastIndex == (if m == 0 then 0 else f0[m - 1])
      requires d0[f0[m]].next == Successor(f0, m)
      requires Linked(d0, f0, m + 1) == Linked(d0, f0, m)[f0[m] := ChainEntry(d0[f0[m]], m, if m == 0 then 0 else f0[m - 1])]
      modifies this, desc
      ensures i == f0[m] && free == f0[m + 1..] && freeCount == |free| && freeList == Successor(f0, m)
      ensures desc == old(desc) && desc[..] == Linked(d0, f0, m + 1)
      ensures num == old(num) && avail == old(avail) && availIdx == old(availIdx) && lastUsed == old(lastUsed)
    {
      i := freeList;
      freeList := desc[i].next;
      freeCount := freeCount - 1;
      if last.Some? {
        desc[i] := desc[i].(flags := VRING_DESC_F_NEXT, next := lastIndex);
      } else {
        desc[i] := desc[i].(flags := 0, next := 0);
      }
      free := free[1..];
    }

    /** One pop of a chain allocation, on the table as a value. */
    static lemma ChainStep(d: seq<Desc>, f: seq<nat>, m: nat)
      requires Links(d, f) && m < |f|
      ensures f[m..] != [] && f[m..][0] == f[m] && f[m..][1..] == f[m + 1..]
      ensures Linked(d, f, m)[f[m]] == d[f[m]]
      ensures d[f[m]].next == Successor(f, m)
      ensures m > 0 ==> Successor(f, m - 1) == f[m]
      ensures Linked(d, f, m + 1) == Linked(d, f, m)[f[m] := ChainEntry(d[f[m]], m, if m == 0 then 0 else f[m - 1])]
    {
      LinkedElsewhere(d, f, m, f[m]);
    }

    /** The head of the free list after count pops. */
    static lemma ChainHead(f: seq<nat>, count: nat)
      requires 0 < count <= |f|
      ensures f[count..] != [] ==> Successor(f, count - 1) == f[count..][0]
      ensures f[count..] == [] ==> Successor(f, count - 1) == NO_DESC
    {
    }

    /** After a chain allocation the descriptors still on the free list are untouched and still threaded. */
    static lemma ChainLinks(d: seq<Desc>, f: seq<nat>, count: nat)
      requires Links(d, f) && count <= |f|
      ensures Links(Linked(d, f, count), f[count..])
    {
      var d' := Linked(d, f, count);
      var f' := f[count..];
      forall j | 0 <= j < |f'| ensures d'[f'[j]] == d[f'[j]] && d'[f'[j]].next == Successor(f', j) {
        assert f'[j] == f[count + j];
        LinkedElsewhere(d, f, count, f'[j]);
        if j + 1 < |f'| {
          assert f'[j + 1] == f[count + j + 1];
        }
      }
      forall k, l | 0 <= k < l < |f'| ensures f'[k] != f'[l] {
        assert f'[k] == f[count + k] && f'[l] == f[count + l];
      }
    }

    /**
     * virtio_submit_chain: the chain's head goes into the available ring at
     * avail->idx masked to the ring, and the 16-bit idx is incremented.
     */
    method SubmitChain(descIndex: nat)
      requires Valid() && descIndex < num
      modifies this, avail
      ensures Valid() && free == old(free) && desc == old(desc) && avail == old(avail)
      ensures avail[..] == old(avail[..])[old(availIdx) % num := descIndex]
      ensures availIdx == (old(availIdx) + 1) % U16
      ensures num == old(num) && freeList == old(freeList) && freeCount == old(freeCount) && lastUsed == old(lastUsed)
    {
      avail[availIdx % num] := descIndex;
      availIdx := (availIdx + 1) % U16;
    }

    /** Every field but last_used is as it was (the tables themselves are outside `this`). */
    twostate predicate Kept()
      reads this
    {
      && num == old(num) && desc == old(desc) && avail == old(avail)
      && free == old(free) && freeList == old(freeList) && freeCount == old(freeCount) && availIdx == old(availIdx)
    }

    /** A ring that only moved last_used within its slots, its descriptor table untouched, is still well formed. */
    twostate lemma KeptValid()
      requires old(Valid()) && Kept() && unchanged(desc) && (num == 0 || lastUsed < num)
      ensures Valid()
    {
    }

    /**
     * The used-ring walk of the interrupt handler for ring r: each used
     * element from last_used up to used->idx masked to the ring goes to the
     * driver's callback, and last_used follows. The result says whether any
     * callback asked for a reschedule; `visited` lists the slots in order.
     */
    method ProcessUsed(r: nat, usedIdx: nat, used: seq<UsedElem>, handler: (nat, UsedElem) -> bool)
      returns (reschedule: bool, visited: seq<nat>)
      requires lastUsed < num && |used| == num
      modifies this
      ensures Kept() && lastUsed == usedIdx % num
      ensures visited == Walk(old(lastUsed), usedIdx % num, num)
      ensures reschedule == Resched(r, used, handler, visited)
    {
      var curIdx := usedIdx % num;
      ghost var from := lastUsed;
      ghost var w := Walk(from, curIdx, num);
      reschedule := false;
      visited := [];
      var i := lastUsed;
      while i != curIdx
        invariant from < num && |w| < num
        invariant i == lastUsed && |visited| <= |w| && visited == w[..|visited|]
        invariant i == Wrap(from + |visited|, num)
        invariant reschedule == Resched(r, used, handler, visited)
        invariant Kept()
        decreases |w| - |visited|
      {
        WalkStep(from, curIdx, num, |visited|);
        if handler(r, used[i]) {
          reschedule := true;
        }
        assert (visited + [i])[..|visited|] == visited;
        visited := visited + [i];
        lastUsed := Advance(lastUsed, num);
        i := Advance(i, num);
      }
      WalkEnd(from, curIdx, num, |visited|);
    }

    static lemma WalkStep(from: nat, to: nat, n: nat, v: nat)
      requires from < n && to < n && v <= |Walk(from, to, n)| && Wrap(from + v, n) != to
      ensures v < |Walk(from, to, n)| && Walk(from, to, n)[v] == Wrap(from + v, n)
      ensures Walk(from, to, n)[..v + 1] == Walk(from, to, n)[..v] + [Wrap(from + v, n)]
      ensures Wrap(Wrap(from + v, n) + 1, n) == Wrap(from + v + 1, n)
    {
    }

    static lemma WalkEnd(from: nat, to: nat, n: nat, v: nat)
      requires from < n && to < n && v <= |Walk(from, to, n)| && Wrap(from + v, n) == to
      ensures v == |Walk(from, to, n)|
    {
    }
  }

  /** Bit 0 of the interrupt status: the device has updated a used ring. */
  predicate UsedRingUpdate(irqStatus: bv32) {
    irqStatus & 1 != 0
  }

  /** Bit 1 of the interrupt status: the device configuration has changed. */
  predicate ConfigChange(irqStatus: bv32) {
    irqStatus & 2 != 0
  }

  /** The bit of active_rings_bitmap_ that marks ring r. */
  function RingBit(r: nat): bv32
    requires r < MAX_VIRTIO_RINGS
  {
    1 << r
  }

  /** Bit r of active_rings_bitmap_. */
  predicate Active(bitmap: bv32, r: nat)
    requires r < MAX_VIRTIO_RINGS
  {
    bitmap & RingBit(r) != 0
  }

  /** The last_used of a ring once the ring loop has passed it: used->idx masked to the ring when the ring is active. */
  function Serviced(active: bool, last: nat, size: nat, usedIdx: nat): nat
    requires active ==> 0 < size
  {
    if active then usedIdx % size else last
  }

  /** Whether some callback of ring r's used-ring walk asks for a reschedule; never for an inactive ring. */
  predicate RingResched(active: bool, r: nat, last: nat, size: nat, usedIdx: nat, used: seq<UsedElem>, handler: (nat, UsedElem) -> bool)
    requires active ==> last < size && |used| == size
  {
    active && Resched(r, used, handler, Walk(last, usedIdx % size, size))
  }

  /** Bits 0..3 of active_rings_bitmap_, ring by ring. */
  function ActiveRings(bitmap: bv32): (s: seq<bool>)
    ensures |s| == MAX_VIRTIO_RINGS
  {
    [Active(bitmap, 0), Active(bitmap, 1), Active(bitmap, 2), Active(bitmap, 3)]
  }

  lemma ActiveAt(bitmap: bv32, r: nat)
    requires r < MAX_VIRTIO_RINGS
    ensures ActiveRings(bitmap)[r] == Active(bitmap, r)
  {
  }

  /** Every active ring has a last_used inside it and a used ring of its size. */
  predicate Serviceable(act: seq<bool>, from: seq<nat>, sizes: seq<nat>, used: seq<seq<UsedElem>>) {
    && |act| == |from| == |sizes| == |used| == MAX_VIRTIO_RINGS
    && forall r :: 0 <= r < MAX_VIRTIO_RINGS && act[r] ==> from[r] < sizes[r] && |used[r]| == sizes[r]
  }

  /** Some callback of the used-ring walk of some active ring asks for a reschedule. */
  predicate AnyRingResched(act: seq<bool>, from: seq<nat>, sizes: seq<nat>, usedIdx: seq<nat>, used: seq<seq<UsedElem>>,
                           handler: (nat, UsedElem) -> bool)
    requires Serviceable(act, from, sizes, used) && |usedIdx| == MAX_VIRTIO_RINGS
  {
    || RingResched(act[0], 0, from[0], sizes[0], usedIdx[0], used[0], handler)
    || RingResched(act[1], 1, from[1], sizes[1], usedIdx[1], used[1], handler)
    || RingResched(act[2], 2, from[2], sizes[2], usedIdx[2], used[2], handler)
    || RingResched(act[3], 3, from[3], sizes[3], usedIdx[3], used[3], handler)
  }

  lemma AnyRingReschedExists(act: seq<bool>, from: seq<nat>, sizes: seq<nat>, usedIdx: seq<nat>, used: seq<seq<UsedElem>>,
                             handler: (nat, UsedElem) -> bool)
    requires Serviceable(act, from, sizes, used) && |usedIdx| == MAX_VIRTIO_RINGS
    ensures AnyRingResched(act, from, sizes, usedIdx, used, handler) <==>
      (exists r :: 0 <= r < MAX_VIRTIO_RINGS &&
         RingResched(act[r], r, from[r], sizes[r], usedIdx[r], used[r], handler))
  {
  }

  /** The device's ring bookkeeping (class virtio_device) over an MMIO transport. */
  class VirtioDevice {
    const rings: seq<Ring>
    var activeRings: bv32
    var mmio: seq<MmioWrite>

    constructor()
      ensures |rings| == MAX_VIRTIO_RINGS && fresh(rings[0]) && fresh(rings[1]) && fresh(rings[2]) && fresh(rings[3])
      ensures forall r :: 0 <= r < |rings| ==> rings[r].Valid() && rings[r].num == 0
      ensures activeRings == 0 && mmio == []
    {
      var r0 := new Ring();
      var r1 := new Ring();
      var r2 := new Ring();
      var r3 := new Ring();
      rings := [r0, r1, r2, r3];
      activeRings := 0;
      mmio := [];
    }

    /** The register writes that hand a new ring to the device. */
    static function RegisterWrites(index: nat, len: nat, pa: nat): seq<MmioWrite> {
      [MmioWrite(GuestPageSize, PAGE_SIZE), MmioWrite(QueueSel, index), MmioWrite(QueueNum, len),
       MmioWrite(QueueAlign, PAGE_SIZE), MmioWrite(QueuePfn, pa / PAGE_SIZE)]
    }

    /** The outcome of virtio_alloc_ring's checks; `pa` is the physical address of the allocation, if any. */
    static function AllocRingStatus(len: nat, pa: Option<nat>): Status
      requires len < U16
    {
      if len == 0 || !IsPow2(len) || len >= 0xFFFF then ErrInvalidArgs
      else if pa == None || pa.value == 0 then ErrNoMemory
      else NoError
    }


    /**
     * virtio_alloc_ring: rejects len 0, a non-power-of-two or len >= 0xFFFF,
     * and fails when the allocation does; otherwise the ring is reset,
     * every descriptor index is on the free list, the ring is registered with
     * the device and marked active.
     */
    method AllocRing(index: nat, len: nat, pa: Option<nat>) returns (status: Status)
      requires len < U16 && index < MAX_VIRTIO_RINGS && |rings| == MAX_VIRTIO_RINGS && rings[index].Valid()
      modifies this, rings[index]
      ensures status == AllocRingStatus(len, pa)
      ensures rings[index].Valid()
      ensures status != NoError ==> activeRings == old(activeRings) && mmio == old(mmio)
      ensures status == NoError ==>
        && rings[index].num == len && rings[index].free == Descending(len) && rings[index].freeCount == len
        && rings[index].availIdx == 0 && rings[index].lastUsed == 0
        && mmio == old(mmio) + RegisterWrites(index, len, pa.value)
        && activeRings == old(activeRings) | RingBit(index)
    {
      if len == 0 || !IsPow2(len) || len >= 0xFFFF {
        return ErrInvalidArgs;
      }
      if pa == None || pa.value == 0 {
        return ErrNoMemory;
      }
      var ring := rings[index];
      ring.Reset(len);
      ring.FreeAll();
      mmio := mmio + RegisterWrites(index, len, pa.value);
      activeRings := activeRings | RingBit(index);
      status := NoError;
    }

    /** One pass of the ring loop of virtio_mmio_irq: an inactive ring is skipped, an active one has its used ring walked. */
    method ServiceRing(r: nat, usedIdx: seq<nat>, used: seq<seq<UsedElem>>, handler: (nat, UsedElem) -> bool)
      returns (reschedule: bool)
      requires |rings| == MAX_VIRTIO_RINGS && r < MAX_VIRTIO_RINGS && |usedIdx| == MAX_VIRTIO_RINGS && |used| == MAX_VIRTIO_RINGS
      requires ActiveRings(activeRings)[r] ==> rings[r].lastUsed < rings[r].num && |used[r]| == rings[r].num
      requires forall q, s :: 0 <= q < s < MAX_VIRTIO_RINGS ==> rings[q] != rings[s]
      modifies rings[r]
      ensures forall q :: 0 <= q < MAX_VIRTIO_RINGS ==> rings[q].Kept()
      ensures forall q :: 0 <= q < MAX_VIRTIO_RINGS && q != r ==> rings[q].lastUsed == old(rings[q].lastUsed)
      ensures rings[r].lastUsed == Serviced(ActiveRings(activeRings)[r], old(rings[r].lastUsed), old(rings[r].num), usedIdx[r])
      ensures reschedule == RingResched(ActiveRings(activeRings)[r], r, old(rings[r].lastUsed), old(rings[r].num), usedIdx[r], used[r], handler)
    {
      reschedule := false;
      ActiveAt(activeRings, r);
      if Active(activeRings, r) {
        var ring := rings[r];
        var visited;
        reschedule, visited := ring.ProcessUsed(r, usedIdx[r], used[r], handler);
      }
    }

    /** The last_used index of every ring. */
    ghost function LastUsed(): seq<nat>
      requires |rings| == MAX_VIRTIO_RINGS
      reads rings
    {
      [rings[0].lastUsed, rings[1].lastUsed, rings[2].lastUsed, rings[3].lastUsed]
    }

    /** The size of every ring. */
    ghost function Sizes(): seq<nat>
      requires |rings| == MAX_VIRTIO_RINGS
      reads rings
    {
      [rings[0].num, rings[1].num, rings[2].num, rings[3].num]
    }

    /**
     * The ring loop of virtio_mmio_irq: every active ring has its used ring
     * walked, in ring order; `from` and `sizes` are every ring's last_used
     * and size on entry.
     */
    method ServiceRings(usedIdx: seq<nat>, used: seq<seq<UsedElem>>, handler: (nat, UsedElem) -> bool,
                        ghost act: seq<bool>, ghost from: seq<nat>, ghost sizes: seq<nat>)
      returns (reschedule: bool)
      requires |rings| == MAX_VIRTIO_RINGS && |usedIdx| == MAX_VIRTIO_RINGS
      requires act == ActiveRings(activeRings) && from == LastUsed() && sizes == Sizes() && Serviceable(act, from, sizes, used)
      requires forall r, s :: 0 <= r < s < MAX_VIRTIO_RINGS ==> rings[r] != rings[s]
      modifies rings
      ensures forall r :: 0 <= r < MAX_VIRTIO_RINGS ==> rings[r].Kept() && rings[r].num == sizes[r]
      ensures forall r :: 0 <= r < MAX_VIRTIO_RINGS ==>
        rings[r].lastUsed == Serviced(act[r], from[r], sizes[r], usedIdx[r])
      ensures reschedule == AnyRingResched(act, from, sizes, usedIdx, used, handler)
    {
      reschedule := false;
      var r := 0;
      while r < MAX_VIRTIO_RINGS
        invariant r <= MAX_VIRTIO_RINGS
        invariant forall q :: 0 <= q < MAX_VIRTIO_RINGS ==> rings[q].Kept() && rings[q].num == sizes[q]
        invariant forall q :: 0 <= q < r ==> rings[q].lastUsed == Serviced(act[q], from[q], sizes[q], usedIdx[q])
        invariant forall q :: r <= q < MAX_VIRTIO_RINGS ==> rings[q].lastUsed == from[q]
        invariant reschedule <==> (exists q :: 0 <= q < r &&
                                     RingResched(act[q], q, from[q], sizes[q], usedIdx[q], used[q], handler))
      {
        var resched := ServiceRing(r, usedIdx, used, handler);
        if resched {
          reschedule := true;
        }
        r := r + 1;
      }
      AnyRingReschedExists(act, from, sizes, usedIdx, used, handler);
    }

    /**
     * virtio_mmio_irq: bit 0 of the interrupt status acknowledges and walks
     * the used ring of every active ring; bit 1 acknowledges and calls the
     * config-change callback when there is one. The result is INT_RESCHEDULE
     * iff some callback asked for it.
     */
    method Irq(irqStatus: bv32, usedIdx: seq<nat>, used: seq<seq<UsedElem>>,
               handler: (nat, UsedElem) -> bool, configHandler: Option<bool>)
      returns (reschedule: bool)
      requires |rings| == MAX_VIRTIO_RINGS && |usedIdx| == MAX_VIRTIO_RINGS && |used| == MAX_VIRTIO_RINGS
      requires Serviceable(ActiveRings(activeRings), LastUsed(), Sizes(), used)
      requires forall r, s :: 0 <= r < s < MAX_VIRTIO_RINGS ==> rings[r] != rings[s]
      modifies this, rings
      ensures activeRings == old(activeRings)
      ensures mmio == old(mmio) + (if UsedRingUpdate(irqStatus) then [MmioWrite(InterruptAck, 1)] else [])
                                + (if ConfigChange(irqStatus) then [MmioWrite(InterruptAck, 2)] else [])
      ensures forall r :: 0 <= r < MAX_VIRTIO_RINGS ==> rings[r].Kept()
      ensures forall r :: 0 <= r < MAX_VIRTIO_RINGS ==>
        rings[r].lastUsed == if UsedRingUpdate(irqStatus) then Serviced(ActiveRings(activeRings)[r], old(LastUsed())[r], old(Sizes())[r], usedIdx[r])
                             else old(rings[r].lastUsed)
      ensures reschedule <==>
        || (UsedRingUpdate(irqStatus) && AnyRingResched(ActiveRings(activeRings), old(LastUsed()), old(Sizes()), usedIdx, used, handler))
        || (ConfigChange(irqStatus) && configHandler == Some(true))
    {
      reschedule := false;
      if UsedRingUpdate(irqStatus) {
        mmio := mmio + [MmioWrite(InterruptAck, 1)];
        reschedule := ServiceRings(usedIdx, used, handler, ActiveRings(activeRings), LastUsed(), Sizes());
      }
      if ConfigChange(irqStatus) {
        mmio := mmio + [MmioWrite(InterruptAck, 2)];
        if configHandler.Some? && configHandler.value {
          reschedule := true;
        }
      }
    }

  }
}
