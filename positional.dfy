/**
 * Fixed-width positional notation: the arithmetic shared by both halves of the
 * Base24 codec. A block of 4 bytes is the 4-digit base-256 notation of an
 * unsigned 32-bit value, and a text group is the 7-digit base-24 notation of
 * the same value. Digits are written most significant first.
 */
module Positional {

  /** b raised to the n-th power. */
  function Pow(b: nat, n: nat): (r: nat)
    ensures b > 0 ==> r > 0
  {
    if n == 0 then 1 else b * Pow(b, n - 1)
  }

  /** Every element of ds is a digit of the given base. */
  predicate IsDigits(ds: seq<int>, base: nat)
  {
    forall i :: 0 <= i < |ds| ==> 0 <= ds[i] < base
  }

  /** The value denoted by the digit string ds, most significant digit first. */
  function FromDigits(ds: seq<int>, base: nat): (v: nat)
    requires IsDigits(ds, base)
    ensures v < Pow(base, |ds|)
  {
    if ds == [] then 0
    else
      var high := FromDigits(ds[..|ds| - 1], base);
      var low := ds[|ds| - 1];
      assert high * base <= (Pow(base, |ds| - 1) - 1) * base by {
        MulMonotone(high, Pow(base, |ds| - 1) - 1, base);
      }
      high * base + low
  }

  /** The n low-order digits of v in the given base, most significant first. */
  function ToDigits(v: nat, base: nat, n: nat): (ds: seq<int>)
    requires base > 1
    ensures |ds| == n
    ensures forall i :: 0 <= i < n ==> 0 <= ds[i] < base
    decreases n
  {
    if n == 0 then []
    else
      var q := v / base;
      assert q >= 0 by { DivNonNegative(v, base); }
      ToDigits(q, base, n - 1) + [v % base]
  }

  /**
   * ToDigits writes v truncated to n digits: the digits it gives denote
   * v mod base^n.
   */
  lemma {:induction false} ToDigitsValue(v: nat, base: nat, n: nat)
    requires base > 1
    ensures FromDigits(ToDigits(v, base, n), base) == v % Pow(base, n)
    decreases n
  {
    if n > 0 {
      var q := v / base;
      DivNonNegative(v, base);
      var high := ToDigits(q, base, n - 1);
      var ds := ToDigits(v, base, n);
      assert ds[..n - 1] == high;
      ToDigitsValue(q, base, n - 1);
      assert FromDigits(ds, base) == FromDigits(high, base) * base + v % base;
      DropLowDigit(v, base, Pow(base, n - 1));
    }
  }

  /** A value below base^n keeps all its digits: FromDigits inverts ToDigits. */
  lemma FromToDigits(v: nat, base: nat, n: nat)
    requires base > 1 && v < Pow(base, n)
    ensures FromDigits(ToDigits(v, base, n), base) == v
  {
    ToDigitsValue(v, base, n);
    ModBelow(v, Pow(base, n));
  }

  /** Notation is unique: ToDigits inverts FromDigits. */
  lemma {:induction false} ToFromDigits(ds: seq<int>, base: nat)
    requires base > 1 && IsDigits(ds, base)
    ensures ToDigits(FromDigits(ds, base), base, |ds|) == ds
  {
    if ds != [] {
      var n := |ds|;
      var init, low := ds[..n - 1], ds[n - 1];
      var high := FromDigits(init, base);
      var v := FromDigits(ds, base);
      assert v == high * base + low;
      DivModOfSum(high, low, base);
      assert ToDigits(v, base, n) == ToDigits(high, base, n - 1) + [low];
      ToFromDigits(init, base);
      assert ds == init + [low];
    }
  }

  /** Reading one more digit of a prefix: the value so far times base, plus that digit. */
  lemma FromDigitsPrefix(ds: seq<int>, k: nat, base: nat)
    requires IsDigits(ds, base) && 0 < k <= |ds|
    ensures IsDigits(ds[..k], base) && IsDigits(ds[..k - 1], base)
    ensures FromDigits(ds[..k], base) == FromDigits(ds[..k - 1], base) * base + ds[k - 1]
  {
    assert ds[..k][..k - 1] == ds[..k - 1];
  }

  /** Two digit strings of one length denote one value only if they are equal. */
  lemma FromDigitsInjective(ds: seq<int>, es: seq<int>, base: nat)
    requires base > 1 && IsDigits(ds, base) && IsDigits(es, base) && |ds| == |es|
    requires FromDigits(ds, base) == FromDigits(es, base)
    ensures ds == es
  {
    ToFromDigits(ds, base);
    ToFromDigits(es, base);
  }

  // ---------------------------------------------------------------------
  // Arithmetic helpers (non-linear facts the solver needs spelled out)
  // ---------------------------------------------------------------------

  lemma MulMonotone(a: int, b: int, c: nat)
    requires a <= b
    ensures a * c <= b * c
  {
  }

  lemma DivNonNegative(v: nat, d: nat)
    requires d > 0
    ensures v / d >= 0
  {
  }

  lemma ModBelow(v: nat, d: nat)
    requires v < d
    ensures v % d == v
  {
  }

  lemma MulSub(a: int, b: int, c: int)
    ensures (a - b) * c == a * c - b * c
  {
  }

  /** Quotient and remainder are determined by any decomposition v == k * d + r. */
  lemma DivModUnique(v: int, d: int, k: int, r: int)
    requires d > 0 && 0 <= r < d && v == k * d + r
    ensures v / d == k && v % d == r
  {
    var q, s := v / d, v % d;
    assert q * d + s == v;
    MulSub(k, q, d);
    if k > q {
      MulMonotone(1, k - q, d);
      assert false;
    } else if k < q {
      MulMonotone(1, q - k, d);
      MulSub(q, k, d);
      assert false;
    }
  }

  lemma DivModOfSum(high: nat, low: int, base: nat)
    requires base > 0 && 0 <= low < base
    ensures (high * base + low) / base == high && (high * base + low) % base == low
  {
    DivModUnique(high * base + low, base, high, low);
  }

  /**
   * Splitting off the lowest digit: the digits above it, truncated to p
   * positions, followed by it, are v truncated to base * p.
   */
  lemma DropLowDigit(v: nat, base: nat, p: nat)
    requires base > 0 && p > 0
    ensures (v / base) % p * base + v % base == v % (base * p)
  {
    var q, r := v / base, v % base;
    var k, m := q / p, q % p;
    assert v == q * base + r;
    assert q == k * p + m;
    assert v == k * (base * p) + (m * base + r) by {
      assert q * base == (k * p + m) * base;
      assert (k * p + m) * base == k * (base * p) + m * base;
    }
    assert m * base + r < base * p by {
      MulMonotone(m, p - 1, base);
    }
    DivModUnique(v, base * p, k, m * base + r);
  }
}
