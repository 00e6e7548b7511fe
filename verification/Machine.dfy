/** Fixed-width unsigned integers, checked arithmetic and the two result shapes
    the modelled code returns. */
module Machine {

  const U32_MAX := 0xFFFF_FFFF
  const U64_MAX := 0xFFFF_FFFF_FFFF_FFFF

  type u8 = x: int | 0 <= x < 0x100
  type u32 = x: int | 0 <= x <= U32_MAX
  type u64 = x: int | 0 <= x <= U64_MAX

  datatype Option<+T> = None | Some(value: T)

  datatype Result<+T, +E> = Ok(value: T) | Err(error: E) {
    predicate IsFailure() {
      Err?
    }

    function PropagateFailure<U>(): Result<U, E>
      requires Err?
    {
      Err(error)
    }

    function Extract(): T
      requires Ok?
    {
      value
    }
  }

  /** A host allocator's answer to a request for so many elements. */
  type Reserve = u64 -> bool

  function CheckedAdd(a: u64, b: u64): Option<u64> {
    if a + b <= U64_MAX then Some(a + b) else None
  }

  function CheckedMul(a: u64, b: u64): Option<u64> {
    if 0 <= a * b <= U64_MAX then Some(a * b) else None
  }

  /** A counter increment that stays at the maximum instead of wrapping. */
  function PinnedIncrement(counter: u64): u64 {
    if counter == U64_MAX then U64_MAX else counter + 1
  }

  function Max(a: int, b: int): int {
    if a < b then b else a
  }

  function Min(a: int, b: int): int {
    if a < b then a else b
  }

  lemma QuotientAtLeast(a: nat, d: nat, k: nat)
    requires d > 0
    ensures a / d >= k <==> a >= k * d
  {
    var q := a / d;
    assert a == q * d + a % d;
    if q >= k {
      Scales(k, q, d);
    } else {
      Scales(q + 1, k, d);
      assert (q + 1) * d == q * d + d;
    }
  }

  lemma Scales(a: nat, b: nat, d: nat)
    requires a <= b
    ensures a * d <= b * d
  {
  }
}
