/**
 * bcache_block_ref (lib/bcache/include/lib/bcache/bcache_block_ref.h): a
 * holder for at most one block of a block cache, which puts the block back
 * when it lets go of it. The block cache itself is outside this model: what
 * it answers is passed in, and every call the holder makes into it is
 * handed back, in order, so that the references the holder takes and
 * returns can be counted.
 */
module BcacheRef {
  /** A call into the block cache: a get (and whether it succeeded), a put, a mark-dirty. */
  datatype CacheCall = Get(block: nat, ok: bool) | Put(block: nat) | Dirty(block: nat)

  /** The fields cache_, ptr_ (0 is nullptr) and block_num_. */
  datatype RefState = RefState(cache: nat, ptr: nat, blockNum: nat)

  const Empty := RefState(0, 0, 0)

  /** The block references a holder stands for: its block while ptr_ is set, none otherwise. */
  function Held(s: RefState): multiset<nat>
  {
    if s.ptr != 0 then multiset{s.blockNum} else multiset{}
  }

  /** The references the cache has handed out, after calls: a successful get adds one, a put returns one. */
  function Apply(out: multiset<nat>, calls: seq<CacheCall>): multiset<nat>
    decreases |calls|
  {
    if calls == [] then out
    else match calls[0]
      case Get(b, ok) => Apply(if ok then out + multiset{b} else out, calls[1..])
      case Put(b) => Apply(out - multiset{b}, calls[1..])
      case Dirty(_) => Apply(out, calls[1..])
  }

  lemma {:induction false} ApplyAppend(out: multiset<nat>, c1: seq<CacheCall>, c2: seq<CacheCall>)
    ensures Apply(out, c1 + c2) == Apply(Apply(out, c1), c2)
    decreases |c1|
  {
    if c1 == [] {
      assert c1 + c2 == c2;
    } else {
      assert (c1 + c2)[0] == c1[0] && (c1 + c2)[1..] == c1[1..] + c2;
      match c1[0]
      case Get(b, ok) => ApplyAppend(if ok then out + multiset{b} else out, c1[1..], c2);
      case Put(b) => ApplyAppend(out - multiset{b}, c1[1..], c2);
      case Dirty(_) => ApplyAppend(out, c1[1..], c2);
    }
  }

  /** close(): with a block held, the block is put and ptr_ cleared; the put's error is returned. */
  function Close(s: RefState, putErr: int): (RefState, int, seq<CacheCall>)
  {
    if s.ptr != 0 then (s.(ptr := 0), putErr, [Put(s.blockNum)]) else (s, 0, [])
  }

  /**
   * get_block(block): the block already held is NO_ERROR with no call into
   * the cache; otherwise the held block is closed, a close error returned
   * at once, then the new block fetched: a negative answer is returned with
   * nothing held, any other answer leaves the fetched pointer and block held.
   */
  function GetBlock(s: RefState, block: nat, putErr: int, getErr: int, newPtr: nat): (RefState, int, seq<CacheCall>)
  {
    if s.ptr != 0 && s.blockNum == block then (s, 0, [])
    else
      var (c, err, calls) := Close(s, putErr);
      if err != 0 then (c, err, calls)
      else if getErr < 0 then (c, getErr, calls + [Get(block, false)])
      else (c.(ptr := newPtr, blockNum := block), getErr, calls + [Get(block, true)])
  }

  /** mark_dirty(): a call into the cache only while a block is held. */
  function MarkDirty(s: RefState): seq<CacheCall>
  {
    if s.ptr != 0 then [Dirty(s.blockNum)] else []
  }

  /** The holder's contract, case by case. */
  lemma GetBlockCases(s: RefState, block: nat, putErr: int, getErr: int, newPtr: nat)
    ensures var (t, err, calls) := GetBlock(s, block, putErr, getErr, newPtr);
            (s.ptr != 0 && s.blockNum == block ==> t == s && err == 0 && calls == [])
            && (!(s.ptr != 0 && s.blockNum == block) ==>
                  t.ptr == 0 || (t.ptr == newPtr && t.blockNum == block && err == getErr && err >= 0))
            && (!(s.ptr != 0 && s.blockNum == block) && s.ptr != 0 && putErr != 0 ==>
                  err == putErr && t.ptr == 0 && calls == [Put(s.blockNum)])
            && (!(s.ptr != 0 && s.blockNum == block) && (s.ptr == 0 || putErr == 0) && getErr < 0 ==>
                  err == getErr && t.ptr == 0)
            && t.cache == s.cache
  {
  }

  /** A second close is a no-op. */
  lemma CloseTwice(s: RefState, e1: int, e2: int)
    ensures var (t, _, _) := Close(s, e1);
            t.ptr == 0 && Close(t, e2) == (t, 0, [])
  {
  }

  /** One operation on a holder: get_block, close or mark_dirty, with the cache's answers. */
  datatype Op = OpGet(block: nat, putErr: int, getErr: int, newPtr: nat) | OpClose(putErr: int) | OpDirty

  /** The state after one operation and the calls it made. */
  function Step(s: RefState, op: Op): (RefState, seq<CacheCall>)
  {
    match op
    case OpGet(b, pe, ge, np) => var (t, _, c) := GetBlock(s, b, pe, ge, np); (t, c)
    case OpClose(pe) => var (t, _, c) := Close(s, pe); (t, c)
    case OpDirty => (s, MarkDirty(s))
  }

  /** The state after ops and the calls they made, in order. */
  function Run(s: RefState, ops: seq<Op>): (RefState, seq<CacheCall>)
    decreases |ops|
  {
    if ops == [] then (s, [])
    else
      var (t, calls) := Step(s, ops[0]);
      var (u, rest) := Run(t, ops[1..]);
      (u, calls + rest)
  }

  /** The cache hands out a non-null pointer when it succeeds. */
  predicate NonNullFetches(ops: seq<Op>)
  {
    forall i :: 0 <= i < |ops| && ops[i].OpGet? && ops[i].getErr >= 0 ==> ops[i].newPtr != 0
  }

  /** One operation keeps the references handed out equal to the ones held. */
  lemma StepBalances(out: multiset<nat>, s: RefState, op: Op)
    requires out == Held(s) && (op.OpGet? && op.getErr >= 0 ==> op.newPtr != 0)
    ensures var (t, calls) := Step(s, op);
            Apply(out, calls) == Held(t)
  {
    match op
    case OpGet(b, pe, ge, np) =>
      if !(s.ptr != 0 && s.blockNum == b) {
        var (c, err, cc) := Close(s, pe);
        assert Apply(out, cc) == Held(c);
        if err == 0 {
          ApplyAppend(out, cc, [Get(b, ge >= 0)]);
        }
      }
    case OpClose(pe) =>
    case OpDirty =>
  }

  /**
   * Over any run of operations, the references the holder has taken from
   * the cache and not put back are exactly the block it holds: it never
   * leaks one and never puts one it does not hold.
   */
  lemma {:induction false} RunBalances(out: multiset<nat>, s: RefState, ops: seq<Op>)
    requires out == Held(s) && NonNullFetches(ops)
    ensures Apply(out, Run(s, ops).1) == Held(Run(s, ops).0)
    decreases |ops|
  {
    if ops != [] {
      var (t, c1) := Step(s, ops[0]);
      StepBalances(out, s, ops[0]);
      assert NonNullFetches(ops[1..]) by {
        forall i | 0 <= i < |ops[1..]| && ops[1..][i].OpGet? && ops[1..][i].getErr >= 0
          ensures ops[1..][i].newPtr != 0
        {
          assert ops[1..][i] == ops[i + 1];
        }
      }
      RunBalances(Apply(out, c1), t, ops[1..]);
      ApplyAppend(out, c1, Run(t, ops[1..]).1);
    }
  }

  /**
   * Both move operations as written: the receiving holder takes the
   * source's state and the source is left empty; a move assignment drops
   * whatever the target held without a put.
   */
  function Move(other: RefState): (RefState, RefState)
  {
    (other, Empty)
  }

  /** Move assignment that closes the target's own block first. */
  function MoveAssign(target: RefState, other: RefState, putErr: int): (RefState, RefState, seq<CacheCall>)
  {
    var (t, _, calls) := Close(target, putErr);
    (other, Empty, calls)
  }

  /** Moving into a new holder keeps every reference held exactly once. */
  lemma MoveConstructConserves(other: RefState)
    ensures var (n, o) := Move(other);
            Held(n) + Held(o) == Held(other)
  {
  }

  /** With the put first, move assignment keeps the references handed out equal to those held by the two holders. */
  lemma MoveAssignConserves(target: RefState, other: RefState, putErr: int)
    ensures var (t, o, calls) := MoveAssign(target, other, putErr);
            Apply(Held(target) + Held(other), calls) == Held(t) + Held(o)
  {
    if target.ptr != 0 {
      assert [Put(target.blockNum)][1..] == [];
      assert (Held(target) + Held(other)) - multiset{target.blockNum} == Held(other);
    }
  }

  /** Move-assigning over a holder of block 1 loses the reference to block 1: the cache still counts it, nobody holds it. */
  lemma MoveAssignLeaks()
    ensures var (t, o) := Move(RefState(5, 200, 2));
            Held(RefState(5, 100, 1)) + Held(RefState(5, 200, 2)) == multiset{1, 2}
            && Held(t) + Held(o) == multiset{2}
  {
  }

  /** The holder object, updated in place. */
  class BlockRef {
    var cache: nat
    var ptr: nat
    var blockNum: nat

    function State(): RefState
      reads this
    {
      RefState(cache, ptr, blockNum)
    }

    /** is_valid(). */
    function IsValid(): (r: bool)
      reads this
      ensures r <==> Held(State()) != multiset{}
    {
      ptr != 0
    }

    /** bcache_block_ref(cache): no block held; block_num_ is left uninitialised. */
    constructor (c: nat)
      ensures cache == c && ptr == 0
    {
      cache := c;
      ptr := 0;
    }

    /** The move constructor. */
    constructor MoveFrom(other: BlockRef)
      modifies other
      ensures (State(), other.State()) == Move(old(other.State()))
    {
      cache := other.cache;
      ptr := other.ptr;
      blockNum := other.blockNum;
      new;
      other.cache := 0;
      other.ptr := 0;
      other.blockNum := 0;
    }

    /** operator=(&&): moving a holder onto itself empties it. */
    method MoveAssign(other: BlockRef)
      modifies this, other
      ensures other.State() == Empty
      ensures this != other ==> (State(), other.State()) == Move(old(other.State()))
    {
      cache := other.cache;
      ptr := other.ptr;
      blockNum := other.blockNum;
      other.cache := 0;
      other.ptr := 0;
      other.blockNum := 0;
    }

    /** close(), with putErr the answer of bcache_put_block. */
    method CloseRef(putErr: int) returns (err: int, calls: seq<CacheCall>)
      modifies this
      ensures (State(), err, calls) == Close(old(State()), putErr)
    {
      err := 0;
      calls := [];
      if ptr != 0 {
        err := putErr;
        calls := [Put(blockNum)];
        ptr := 0;
      }
    }

    /** get_block(block), with the answers of bcache_put_block and bcache_get_block. */
    method GetBlockRef(block: nat, putErr: int, getErr: int, newPtr: nat) returns (err: int, calls: seq<CacheCall>)
      modifies this
      ensures (State(), err, calls) == GetBlock(old(State()), block, putErr, getErr, newPtr)
    {
      if ptr != 0 && blockNum == block {
        return 0, [];
      }
      err, calls := CloseRef(putErr);
      if err != 0 {
        return;
      }
      err := getErr;
      if err < 0 {
        calls := calls + [Get(block, false)];
        return;
      }
      ptr := newPtr;
      blockNum := block;
      calls := calls + [Get(block, true)];
    }

    /** mark_dirty(). */
    method MarkDirtyRef() returns (calls: seq<CacheCall>)
      ensures calls == MarkDirty(State())
    {
      calls := [];
      if ptr != 0 {
        calls := [Dirty(blockNum)];
      }
    }
  }
}
