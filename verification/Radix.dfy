/** Numbers written in a base, most significant digit first, and conversion between bases. */
module Radix {
  import opened Bits

  datatype EncodingError = InputTooLarge | InputTooNarrow | IllegalBase58Digit | IllegalHexDigit

  datatype Outcome<+T> = Done(value: T) | Error(error: EncodingError)

  ghost predicate AreDigits(ds: seq<int>, base: int) {
    forall i | 0 <= i < |ds| :: 0 <= ds[i] < base
  }

  function Value(ds: seq<int>, base: int): int {
    if ds == [] then 0 else Value(ds[..|ds| - 1], base) * base + ds[|ds| - 1]
  }

  /** The digits of a number, without leading zeros; zero has none. */
  function Minimal(v: nat, base: int): (ds: seq<int>)
    requires base > 1
    ensures AreDigits(ds, base)
    ensures v > 0 ==> ds != [] && ds[0] != 0
    decreases v
  {
    if v == 0 then [] else
    Shrinks(v, base);
    Minimal(v / base, base) + [v % base]
  }

  lemma Shrinks(v: nat, base: int)
    requires base > 1 && v > 0
    ensures 0 <= v / base < v
    ensures v / base * base + v % base == v
  {
    var q := v / base;
    assert v == q * base + v % base;
    MulLe(2, base, q);
    assert base * q == q * base;
  }

  function Zeros(n: nat): (z: seq<int>)
    ensures |z| == n && forall i | 0 <= i < n :: z[i] == 0
  {
    seq(n, i => 0)
  }

  function LeadingZeros(ds: seq<int>): (k: nat)
    ensures k <= |ds|
    ensures ds[..k] == Zeros(k)
    ensures k < |ds| ==> ds[k] != 0
  {
    if ds == [] || ds[0] != 0 then 0
    else
      var k := LeadingZeros(ds[1..]);
      assert ds[..k + 1] == [0] + ds[1..][..k];
      k + 1
  }

  /** The same number in another base, with as many leading zeros. */
  function Convert(ds: seq<int>, from: int, to: int): seq<int>
    requires to > 1 && from > 0 && AreDigits(ds, from)
  {
    ValueBound(ds, from);
    Zeros(LeadingZeros(ds)) + Minimal(Value(ds, from), to)
  }

  function Pow(base: int, e: nat): int {
    if e == 0 then 1 else Pow(base, e - 1) * base
  }

  lemma {:induction false} ValueBound(ds: seq<int>, base: int)
    requires base > 0 && AreDigits(ds, base)
    ensures 0 <= Value(ds, base) < Pow(base, |ds|)
    decreases |ds|
  {
    if ds != [] {
      var front, last := ds[..|ds| - 1], ds[|ds| - 1];
      ValueBound(front, base);
      ScaledBound(Value(front, base), Pow(base, |front|), base, last);
    }
  }

  lemma ScaledBound(v: int, p: int, base: int, d: int)
    requires 0 <= v < p && base > 0 && 0 <= d < base
    ensures 0 <= v * base + d < p * base
  {
    assert (v + 1) * base <= p * base;
  }

  lemma {:induction false} MinimalValue(v: nat, base: int)
    requires base > 1
    ensures Value(Minimal(v, base), base) == v
    decreases v
  {
    if v > 0 {
      Shrinks(v, base);
      MinimalValue(v / base, base);
      var ds := Minimal(v, base);
      assert ds[..|ds| - 1] == Minimal(v / base, base);
    }
  }

  /** Digits that do not start with zero are the digits of their value. */
  lemma {:induction false} MinimalOfValue(ds: seq<int>, base: int)
    requires base > 1 && AreDigits(ds, base) && (ds != [] ==> ds[0] != 0)
    ensures Value(ds, base) >= 0 && Minimal(Value(ds, base), base) == ds
    ensures ds != [] ==> Value(ds, base) > 0
    decreases |ds|
  {
    if ds != [] {
      var front, last := ds[..|ds| - 1], ds[|ds| - 1];
      MinimalOfValue(front, base);
      DivideOff(Value(front, base), base, last);
      assert ds == front + [last];
    }
  }

  lemma DivideOff(v: int, base: int, d: int)
    requires v >= 0 && base > 1 && 0 <= d < base
    ensures (v * base + d) / base == v && (v * base + d) % base == d
    ensures v > 0 ==> v * base + d > 0
  {
    MulNonNegative(v, base);
    DivUnique(v * base + d, base, v, d);
    if v > 0 { MulPositive(v, base); }
  }

  /** Leading zeros add nothing to a value. */
  lemma {:induction false} ZerosAddNothing(k: nat, ds: seq<int>, base: int)
    ensures Value(Zeros(k) + ds, base) == Value(ds, base)
    decreases |ds|, k
  {
    var all := Zeros(k) + ds;
    if ds != [] {
      assert all[..|all| - 1] == Zeros(k) + ds[..|ds| - 1];
      ZerosAddNothing(k, ds[..|ds| - 1], base);
    } else if k > 0 {
      assert all[..|all| - 1] == Zeros(k - 1) + [];
      ZerosAddNothing(k - 1, [], base);
    } else {
      assert all == [];
    }
  }

  lemma {:induction false} LeadingZerosOf(k: nat, ds: seq<int>)
    requires ds != [] ==> ds[0] != 0
    ensures LeadingZeros(Zeros(k) + ds) == k
    decreases k
  {
    var all := Zeros(k) + ds;
    if k > 0 {
      assert all[1..] == Zeros(k - 1) + ds;
      LeadingZerosOf(k - 1, ds);
    } else {
      assert all == ds;
    }
  }

  lemma ConvertDigits(ds: seq<int>, from: int, to: int)
    requires to > 1 && from > 0 && AreDigits(ds, from)
    ensures AreDigits(Convert(ds, from, to), to)
  {
  }

  /** Converting there and back is the identity on all digit strings. */
  lemma ConvertBack(ds: seq<int>, from: int, to: int)
    requires from > 1 && to > 1 && AreDigits(ds, from)
    ensures AreDigits(Convert(ds, from, to), to)
    ensures Convert(Convert(ds, from, to), to, from) == ds
  {
    ConvertDigits(ds, from, to);
    var k := LeadingZeros(ds);
    var rest := ds[k..];
    assert ds == Zeros(k) + rest;
    ValueBound(ds, from);
    ZerosAddNothing(k, rest, from);
    var v := Value(ds, from);
    var m := Minimal(v, to);
    LeadingZerosOf(k, m);
    ZerosAddNothing(k, m, to);
    MinimalValue(v, to);
    MinimalOfValue(rest, from);
  }

  lemma {:induction false} PowPositive(base: int, e: nat)
    requires base > 0
    ensures Pow(base, e) > 0
    decreases e
  {
    if e > 0 {
      PowPositive(base, e - 1);
      assert Pow(base, e - 1) * base >= 1 * base;
    }
  }

  lemma {:induction false} PowAdd(base: int, m: nat, n: nat)
    ensures Pow(base, m + n) == Pow(base, m) * Pow(base, n)
    decreases n
  {
    if n > 0 {
      PowAdd(base, m, n - 1);
      assert m + n - 1 == m + (n - 1);
      assert Pow(base, m) * Pow(base, n - 1) * base == Pow(base, m) * (Pow(base, n - 1) * base);
    }
  }

  lemma {:induction false} PowPow(base: int, m: nat, n: nat)
    ensures m * n >= 0 && Pow(Pow(base, m), n) == Pow(base, m * n)
    decreases n
  {
    assert m * n >= 0;
    if n > 0 {
      PowPow(base, m, n - 1);
      assert m * (n - 1) + m == m * n;
      PowAdd(base, m * (n - 1), m);
    }
  }

  lemma {:induction false} PowBase(a: int, b: int, e: nat)
    requires 0 < a <= b
    ensures Pow(a, e) <= Pow(b, e)
    ensures e > 0 && a < b ==> Pow(a, e) < Pow(b, e)
    decreases e
  {
    if e > 0 {
      PowBase(a, b, e - 1);
      PowPositive(a, e - 1);
      PowPositive(b, e - 1);
      MulMono(Pow(a, e - 1), Pow(b, e - 1), a, b);
    }
  }

  lemma MulMono(x: int, y: int, a: int, b: int)
    requires 0 < x <= y && 0 < a <= b
    ensures x * a <= y * b
    ensures a < b ==> x * a < y * b
  {
    MulLe(x, y, a);
    if a < b {
      MulLe(a + 1, b, y);
      assert (a + 1) * y == y * a + y;
    }
    assert b * y == y * b;
  }

  lemma {:induction false} PowGrows(base: int, m: nat, n: nat)
    requires base > 1 && m <= n
    ensures Pow(base, m) <= Pow(base, n)
    decreases n
  {
    if m < n {
      PowGrows(base, m, n - 1);
      PowPositive(base, n - 1);
      assert Pow(base, n - 1) * base >= Pow(base, n - 1);
    }
  }

  /** A number of `n` digits is at least the power of its leading place. */
  lemma {:induction false} MinimalSize(v: nat, base: int)
    requires base > 1 && v > 0
    ensures Pow(base, |Minimal(v, base)| - 1) <= v
    decreases v
  {
    Shrinks(v, base);
    if v / base > 0 {
      MinimalSize(v / base, base);
      var p := Pow(base, |Minimal(v / base, base)| - 1);
      MulLe(p, v / base, base);
    }
  }
}
