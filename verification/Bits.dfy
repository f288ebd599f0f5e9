/**
 Bitwise accumulation of a varint's seven-bit groups in an unsigned integer of fixed width.
 */
module Bits {
  function Pow2(n: nat): (p: nat)
    ensures p > 0
  {
    if n == 0 then 1 else 2 * Pow2(n - 1)
  }

  /** Bitwise or. */
  function BitOr(a: nat, b: nat): nat {
    if a == 0 && b == 0 then 0
    else 2 * BitOr(a / 2, b / 2) + (if a % 2 == 1 || b % 2 == 1 then 1 else 0)
  }

  lemma {:induction false} OrWithZero(a: nat)
    ensures BitOr(a, 0) == a
  {
    if a != 0 {
      OrWithZero(a / 2);
    }
  }

  /** Or-ing in bits above those already set is adding them. */
  lemma {:induction false} OrAboveIsPlus(a: nat, c: nat, shift: nat)
    requires a < Pow2(shift)
    ensures BitOr(a, Pow2(shift) * c) == a + Pow2(shift) * c
  {
    if shift == 0 {
      OrBelow(c);
    } else if a == 0 && Pow2(shift) * c == 0 {
    } else {
      var p := Pow2(shift - 1);
      assert Pow2(shift) * c == 2 * (p * c);
      OrAboveIsPlus(a / 2, c, shift - 1);
    }
  }

  lemma {:induction false} OrBelow(c: nat)
    ensures BitOr(0, c) == c
  {
    if c != 0 {
      OrBelow(c / 2);
    }
  }

  lemma {:induction false} Pow2Sum(a: nat, b: nat)
    ensures Pow2(a + b) == Pow2(a) * Pow2(b)
  {
    if a > 0 {
      Pow2Sum(a - 1, b);
      assert Pow2(a) * Pow2(b) == 2 * (Pow2(a - 1) * Pow2(b));
    }
  }

  lemma ModOfMultiple(m: nat, n: nat, x: nat)
    requires m > 0 && n > 0
    ensures m * n > 0 && (m * x) % (m * n) == m * (x % n)
  {
    var q, r := x / n, x % n;
    MulGrows(m, 1, n);
    MulGrows(m, r, n - 1);
    MulDistributes(m, n, 1);
    MulDistributes(m, n * q, r);
    MulAssociates(m, n, q);
    DivModUnique(m * x, m * n, q, m * r);
  }

  lemma MulGrows(d: nat, a: int, b: int)
    requires a <= b
    ensures d * a <= d * b
  {}

  lemma MulDistributes(d: int, a: int, b: int)
    ensures d * (a + b) == d * a + d * b
    ensures d * (a - b) == d * a - d * b
  {}

  lemma MulAssociates(a: int, b: int, c: int)
    ensures a * (b * c) == (a * b) * c
  {}

  lemma DivModUnique(a: nat, d: nat, q: nat, r: nat)
    requires d > 0 && a == d * q + r && r < d
    ensures a % d == r
  {
    var q', r' := a / d, a % d;
    MulDistributes(d, q', q);
    if q' > q {
      MulGrows(d, 1, q' - q);
    } else if q' < q {
      MulGrows(d, q' - q, -1);
    }
  }

  lemma ModOfSum(m: nat, a: nat, c: nat)
    requires m > 0
    ensures (a + m * c) % m == a % m
  {
    var q, r := a / m, a % m;
    assert a + m * c == m * (q + c) + r;
    DivModUnique(a + m * c, m, q + c, r);
  }

  lemma AccumulatesHigh(raw: nat, bits: nat, shift: nat, width: nat)
    requires shift >= width
    ensures (Pow2(shift) * bits) % Pow2(width) == 0
    ensures (raw + Pow2(shift) * bits) % Pow2(width) == raw % Pow2(width)
  {
    hide Pow2;
    var w, top := Pow2(width), Pow2(shift - width);
    Pow2Sum(width, shift - width);
    MulAssociates(w, top, bits);
    ModOfSum(w, 0, top * bits);
    ModOfSum(w, raw, top * bits);
  }

  lemma AccumulatesLow(raw: nat, bits: nat, m: nat, n: nat)
    requires n > 0 && raw < m
    ensures m * n > 0 && raw < m * n
    ensures (m * bits) % (m * n) == m * (bits % n)
    ensures (raw + m * bits) % (m * n) == raw + m * (bits % n)
  {
    var q, low := bits / n, bits % n;
    MulGrows(m, 1, n);
    MulGrows(m, low, n - 1);
    MulDistributes(m, n, 1);
    ModOfMultiple(m, n, bits);
    MulDistributes(m, n * q, low);
    MulAssociates(m, n, q);
    DivModUnique(raw + m * bits, m * n, q, raw + m * low);
  }

  /** One round of `x |= uint(b & 0x7F) << shift` in an unsigned integer of any width: bits
      shifted past the top are lost. */
  lemma AccumulatesBits(raw: nat, bits: nat, shift: nat, width: nat)
    requires raw < Pow2(shift)
    ensures BitOr(raw % Pow2(width), (Pow2(shift) * bits) % Pow2(width)) == (raw + Pow2(shift) * bits) % Pow2(width)
  {
    hide BitOr;
    if shift >= width {
      AccumulatesHigh(raw, bits, shift, width);
      OrWithZero(raw % Pow2(width));
    } else {
      var n := Pow2(width - shift);
      Pow2Sum(shift, width - shift);
      AccumulatesLow(raw, bits, Pow2(shift), n);
      OrAboveIsPlus(raw, bits % n, shift);
      DivModUnique(raw, Pow2(width), 0, raw);
    }
  }
}
