/** The integer helpers of core/math used by the allocators and the texture layouts. */
module Arithmetic {

  const SIZE_LIMIT: nat := 0x1_0000_0000_0000_0000

  /** The sizes that callers pass have 64 bits. */
  type Size = n: nat | n < SIZE_LIMIT

  function Min(a: int, b: int): (r: int)
    ensures r <= a && r <= b && (r == a || r == b)
  {
    if a < b then a else b
  }

  function Max(a: int, b: int): (r: int)
    ensures r >= a && r >= b && (r == a || r == b)
  {
    if a < b then b else a
  }

  /** math::calcAligned: the least multiple of alignment that is not below value. */
  function CalcAligned(value: nat, alignment: nat): (r: nat)
    requires alignment > 0
    ensures value <= r < value + alignment && r % alignment == 0
  {
    AlignedBounds(value, alignment);
    (value + alignment - 1) / alignment * alignment
  }

  lemma MulMono(a: nat, x: int, y: int)
    requires x <= y
    ensures a * x <= a * y
  {
  }

  lemma MultipleMod(q: nat, a: nat)
    requires a > 0
    ensures (q * a) % a == 0
  {
    var r, k := (q * a) % a, (q * a) / a;
    assert q * a == a * k + r;
    assert a * (q - k) == r;
    if q > k {
      MulMono(a, 1, q - k);
    } else if q < k {
      MulMono(a, q - k, -1);
    }
  }

  lemma AlignedBounds(value: nat, alignment: nat)
    requires alignment > 0
    ensures var r := (value + alignment - 1) / alignment * alignment;
            value <= r < value + alignment && r % alignment == 0
  {
    var t := value + alignment - 1;
    assert t == alignment * (t / alignment) + t % alignment;
    MultipleMod(t / alignment, alignment);
  }

  /** No multiple lies between the value and the aligned value. */
  lemma CalcAlignedLeast(value: nat, alignment: nat, m: nat)
    requires alignment > 0 && m % alignment == 0 && value <= m
    ensures CalcAligned(value, alignment) <= m
  {
    hide CalcAligned;
    var r := CalcAligned(value, alignment);
    var p, q := r / alignment, m / alignment;
    assert r == alignment * p && m == alignment * q;
    assert alignment * (q + 1) == alignment * q + alignment;
    if p > q {
      MulMono(alignment, q + 1, p);
    }
  }

  lemma AlignedZero(alignment: nat)
    requires alignment > 0
    ensures CalcAligned(0, alignment) == 0
  {
    CalcAlignedLeast(0, alignment, 0);
  }

  lemma SumOfMultiples(a: nat, b: nat, m: nat)
    requires m > 0 && a % m == 0 && b % m == 0
    ensures (a + b) % m == 0
  {
    var p, q := a / m, b / m;
    assert a == m * p && b == m * q;
    assert a + b == (p + q) * m;
    MultipleMod(p + q, m);
  }
}
