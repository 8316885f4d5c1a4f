/**
 * Types shared by the models of lk's drivers and libraries: optional values,
 * the kernel's status codes and the outcome of a register read.
 */
module Lk {

  datatype Option<T> = None | Some(value: T)

  /**
   * The status_t codes the modelled code returns, named as in lk/err.h.
   * `Failed` stands for any other negative code a collaborator passes back
   * (a configuration-space backend, the block cache, the allocator).
   */
  datatype Status =
    | NoError
    | ErrGeneric
    | ErrNotFound
    | ErrNoMemory
    | ErrNotValid
    | ErrInvalidArgs
    | ErrNotSupported
    | ErrNoResources
    | ErrNotFile
    | Failed(code: int)

  /**
   * The outcome of a read through a backend: the status it returned and the
   * value it left in the caller's out-parameter. Code that checks the status
   * ignores `value` on failure; code that does not check it uses `value`
   * whatever the status says.
   */
  datatype Read<T> = Read(status: Status, value: T)

  predicate Ok<T>(r: Read<T>) { r.status == NoError }

  /** 2^n as an unbounded integer. */
  function Pow2(n: nat): (r: nat)
    ensures r >= 1
  {
    if n == 0 then 1 else 2 * Pow2(n - 1)
  }

  const U8: int := 0x100
  const U16: int := 0x1_0000
  const U32: int := 0x1_0000_0000
  const U64: int := 0x1_0000_0000_0000_0000

  /** e copies of d are at least one copy. */
  lemma MulAtLeast(e: int, d: int)
    requires e >= 1 && d > 0
    ensures e * d >= d
  {
    assert e * d == (e - 1) * d + d;
    assert (e - 1) * d >= 0;
  }

  /** Quotient and remainder are unique. */
  lemma DivModUnique(x: int, d: int, q: int, r: int)
    requires d > 0 && 0 <= r < d && x == q * d + r
    ensures x / d == q && x % d == r
  {
    var q', r' := x / d, x % d;
    assert x == q' * d + r';
    assert (q - q') * d == r' - r by {
      assert (q - q') * d == q * d - q' * d;
    }
    if q > q' {
      MulAtLeast(q - q', d);
    } else if q < q' {
      MulAtLeast(q' - q, d);
    }
  }
}
