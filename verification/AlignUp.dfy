/** Rounding up to an alignment with a bit mask. */
module AlignUp {
  import opened Machine

  /** `a & !mask` over the low `bits` bits. */
  function AndNot(a: nat, mask: nat, bits: nat): nat {
    if bits == 0 then 0
    else (if a % 2 == 1 && mask % 2 == 0 then 1 else 0) + 2 * AndNot(a / 2, mask / 2, bits - 1)
  }

  function Power(k: nat): (p: nat)
    ensures p >= 1
  {
    if k == 0 then 1 else 2 * Power(k - 1)
  }

  datatype AlignError = ZeroAlignment | AlignOverflow

  function Align(value: u64, align: u64): Result<u64, AlignError> {
    if align == 0 then Err(ZeroAlignment)
    else if value + (align - 1) > U64_MAX then Err(AlignOverflow)
    else
      var masked := AndNot(value + (align - 1), align - 1, 64);
      AndNotAtMost(value + (align - 1), align - 1, 64);
      Ok(masked)
  }

  lemma {:induction false} AndNotAtMost(a: nat, mask: nat, bits: nat)
    ensures AndNot(a, mask, bits) <= a
  {
    if bits > 0 {
      AndNotAtMost(a / 2, mask / 2, bits - 1);
    }
  }

  lemma {:induction false} AndNotZero(a: nat, bits: nat)
    requires a < Power(bits)
    ensures AndNot(a, 0, bits) == a
  {
    if bits > 0 {
      AndNotZero(a / 2, bits - 1);
    }
  }

  /** Clearing the low `k` bits rounds down to a multiple of two to the `k`. */
  lemma {:induction false} MaskRoundsDown(a: nat, k: nat, bits: nat) returns (q: nat)
    requires k <= bits && a < Power(bits)
    ensures AndNot(a, Power(k) - 1, bits) == q * Power(k)
    ensures q * Power(k) <= a < q * Power(k) + Power(k)
  {
    if k == 0 {
      AndNotZero(a, bits);
      q := a;
    } else {
      q := MaskRoundsDown(a / 2, k - 1, bits - 1);
      var p := Power(k - 1);
      var m := q * p;
      assert (2 * p - 1) / 2 == p - 1 && (2 * p - 1) % 2 == 1;
      assert q * Power(k) == 2 * m by { DoubleProduct(q, p); }
    }
  }

  lemma DoubleProduct(q: nat, p: nat)
    ensures q * (2 * p) == 2 * (q * p)
  {
  }

  lemma AtLeastOnce(d: int, p: int)
    requires p >= 1
    ensures d >= 1 ==> d * p >= p
    ensures d <= -1 ==> d * p <= -p
  {
  }

  /** For a power of two the result is the least multiple at or above the value, and
      the only failure is that this multiple does not fit. */
  lemma AlignIsLeastMultiple(value: u64, k: nat, q: nat)
    requires k < 64 && value <= q * Power(k) < value + Power(k)
    ensures Power(k) <= U64_MAX
    ensures Align(value, Power(k)) == if q * Power(k) <= U64_MAX then Ok(q * Power(k)) else Err(AlignOverflow)
  {
    PowerFits(k);
    var p := Power(k);
    var sum := value + (p - 1);
    if sum <= U64_MAX {
      var floor := MaskRoundsDown(sum, k, 64);
      hide Power, AndNot;
      SameMultiple(floor, q, p);
    } else {
      PowerSum(k, 64 - k);
      hide Power;
      PastTop(p, Power(64 - k), q, U64_MAX);
    }
  }

  lemma SameMultiple(a: int, b: int, p: int)
    requires p >= 1 && -p < a * p - b * p < p
    ensures a == b
  {
    assert (a - b) * p == a * p - b * p;
    AtLeastOnce(a - b, p);
  }

  lemma PowerFits(k: nat)
    requires k < 64
    ensures Power(k) <= U64_MAX && Power(64) == U64_MAX + 1
  {
    assert Power(64 - k) >= 2;
    PowerOf64();
    PowerSum(k, 64 - k);
    hide Power;
    AtLeastTwice(Power(k), Power(64 - k));
  }

  lemma AtLeastTwice(p: nat, q: nat)
    requires q >= 2
    ensures p * q >= 2 * p
  {
  }

  lemma DoubleLeft(p: nat, q: nat)
    ensures 2 * (p * q) == (2 * p) * q
  {
  }

  lemma {:induction false} PowerSum(a: nat, b: nat)
    ensures Power(a + b) == Power(a) * Power(b)
  {
    if a > 0 {
      PowerSum(a - 1, b);
      DoubleLeft(Power(a - 1), Power(b));
    }
  }

  lemma PowerOf64()
    ensures Power(64) == U64_MAX + 1
  {
    assert Power(4) == 16;
    PowerSum(4, 4);
    hide Power;
    PowerSum(8, 8);
    assert Power(16) == 0x1_0000;
    PowerSum(16, 16);
    assert Power(32) == 0x1_0000_0000;
    PowerSum(32, 32);
  }

  /** A multiple whose last step passes the top of the range is itself past it. */
  lemma PastTop(p: nat, n: nat, q: nat, top: nat)
    requires p * n == top + 1 && q * p + p - 1 > top
    ensures q * p > top
  {
    assert (n - q) * p == n * p - q * p;
    AtLeastOnce(n - q, p);
  }
}
