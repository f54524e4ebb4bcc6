/**
  Bitwise operators on unbounded naturals, and the contiguous high masks used by the
  subnet code and the page-lock code. The operators recurse on the lowest bit, so they
  mean the machine operators for every width.
 */
module Bits {

  function Pow2(n: nat): (r: nat)
    ensures r >= 1
  {
    if n == 0 then 1 else 2 * Pow2(n - 1)
  }

  function BitAnd(a: nat, b: nat): (r: nat)
    ensures r <= a && r <= b
  {
    if a == 0 || b == 0 then 0
    else (if a % 2 == 1 && b % 2 == 1 then 1 else 0) + 2 * BitAnd(a / 2, b / 2)
  }

  function BitOr(a: nat, b: nat): (r: nat)
    ensures a <= r && b <= r && r <= a + b
  {
    if a == 0 then b
    else if b == 0 then a
    else (if a % 2 == 1 || b % 2 == 1 then 1 else 0) + 2 * BitOr(a / 2, b / 2)
  }

  /** The mask of width `w` whose `p` highest bits are set. */
  function HighMask(w: nat, p: nat): (m: nat)
    requires p <= w
  {
    Pow2Monotone(w - p, w);
    Pow2(w) - Pow2(w - p)
  }

  /** Bit `i` of a word of width `w`, the most significant bit being bit 0. */
  predicate BitAt(a: nat, w: nat, i: nat)
    requires i < w
  {
    a / Pow2(w - 1 - i) % 2 == 1
  }

  /** The first `p` bits of two words of width `w` agree. */
  ghost predicate PrefixAgrees(a: nat, b: nat, w: nat, p: nat)
    requires p <= w
  {
    forall i: nat | i < p :: BitAt(a, w, i) == BitAt(b, w, i)
  }

  lemma {:induction false} Pow2Monotone(m: nat, n: nat)
    requires m <= n
    ensures Pow2(m) <= Pow2(n)
    decreases n
  {
    if m < n { Pow2Monotone(m, n - 1); }
  }

  lemma {:induction false} Pow2Add(m: nat, n: nat)
    ensures Pow2(m + n) == Pow2(m) * Pow2(n)
    decreases m
  {
    if m > 0 {
      Pow2Add(m - 1, n);
      assert 2 * Pow2(m - 1) * Pow2(n) == Pow2(m) * Pow2(n);
    }
  }

  lemma DivDiv(a: nat, b: nat, c: nat)
    requires b > 0 && c > 0
    ensures b * c > 0 && a / (b * c) == a / b / c
  {
    MulPositive(b, c);
    var q := a / b / c;
    var r := a / b - q * c;
    var s := a - a / b * b;
    assert a == (q * c + r) * b + s;
    assert (q * c + r) * b == q * (b * c) + r * b;
    assert r * b + s < b * c by { MulLe(r, c - 1, b); assert (c - 1) * b == b * c - b; }
    MulNonNegative(r, b);
    DivUnique(a, b * c, q, r * b + s);
  }

  lemma MulPositive(a: nat, b: nat)
    requires a > 0 && b > 0
    ensures a * b > 0
  {
  }

  lemma MulNonNegative(a: nat, b: nat)
    ensures a * b >= 0
  {
  }

  lemma MulLe(a: int, b: int, c: nat)
    requires a <= b
    ensures a * c <= b * c
  {
  }

  lemma DivUnique(a: nat, d: nat, q: int, r: nat)
    requires d > 0 && a == q * d + r && r < d
    ensures a / d == q && a % d == r
  {
    var q' := a / d;
    var r' := a % d;
    assert a == q' * d + r';
    assert (q - q') * d == r' - r;
    if q > q' {
      MulLe(1, q - q', d);
    } else if q < q' {
      MulLe(q - q', -1, d);
    }
  }

  lemma {:induction false} AndAllOnes(a: nat, w: nat)
    requires a < Pow2(w)
    ensures BitAnd(a, Pow2(w) - 1) == a
    decreases w
  {
    if w > 0 && a > 0 {
      AndAllOnes(a / 2, w - 1);
      assert (Pow2(w) - 1) / 2 == Pow2(w - 1) - 1;
      assert (Pow2(w) - 1) % 2 == 1;
    }
  }

  /** Masking with the `w` lowest bits takes the remainder. */
  lemma {:induction false} AndLowMask(a: nat, w: nat)
    ensures BitAnd(a, Pow2(w) - 1) == a % Pow2(w)
    decreases w
  {
    hide BitAnd;
    if w == 0 {
      AndZero(a);
    } else {
      AndLowMask(a / 2, w - 1);
      AndOdd(a, Pow2(w - 1) - 1);
      ModHalves(a, Pow2(w - 1));
    }
  }

  lemma AndZero(a: nat)
    ensures BitAnd(a, 0) == 0
  {
  }

  lemma AndOdd(a: nat, m: nat)
    ensures BitAnd(a, 2 * m + 1) == a % 2 + 2 * BitAnd(a / 2, m)
  {
    assert (2 * m + 1) / 2 == m && (2 * m + 1) % 2 == 1;
  }

  lemma ModHalves(a: nat, h: nat)
    requires h > 0
    ensures a % (2 * h) == 2 * (a / 2 % h) + a % 2
  {
    var q, r := a / 2 / h, a / 2 % h;
    assert a / 2 == q * h + r;
    assert q * (2 * h) == 2 * (q * h);
    DivUnique(a, 2 * h, q, 2 * r + a % 2);
  }

  lemma AndSymmetric(a: nat, b: nat)
    ensures BitAnd(a, b) == BitAnd(b, a)
  {
  }

  lemma DoubleFactor(x: nat, k: nat)
    ensures 2 * (x * k) == x * (2 * k)
  {
  }

  lemma {:induction false} AndEven(a: nat, m: nat)
    ensures BitAnd(a, 2 * m) == 2 * BitAnd(a / 2, m)
  {
    assert 2 * m / 2 == m && 2 * m % 2 == 0;
  }

  lemma {:induction false} OrEven(a: nat, b: nat)
    ensures BitOr(2 * a, 2 * b) == 2 * BitOr(a, b)
  {
  }

  lemma QuotientStep(a: nat, w: nat, p: nat)
    requires 0 < p <= w
    ensures a / Pow2(w - p) / 2 == a / Pow2(w - (p - 1))
    ensures BitAt(a, w, p - 1) == (a / Pow2(w - p) % 2 == 1)
  {
    DivDiv(a, Pow2(w - p), 2);
  }

  /** Masking with the `p` highest bits rounds down to a multiple of 2^(w-p). */
  lemma {:induction false} AndHighMask(a: nat, w: nat, p: nat)
    requires p <= w && a < Pow2(w)
    ensures BitAnd(a, HighMask(w, p)) == a / Pow2(w - p) * Pow2(w - p)
    decreases w - p
  {
    if p == w {
      AndAllOnes(a, w);
    } else {
      var k := Pow2(w - 1 - p);
      assert BitAnd(a, HighMask(w, p)) == 2 * BitAnd(a / 2, HighMask(w - 1, p)) by {
        assert HighMask(w, p) == 2 * HighMask(w - 1, p);
        AndEven(a, HighMask(w - 1, p));
      }
      AndHighMask(a / 2, w - 1, p);
      DoubleFactor(a / 2 / k, k);
      DivDiv(a, 2, k);
    }
  }

  /** A word keeps its first `p` bits and loses the rest: the quotient by 2^(w-p) is what
      the prefix determines, and it determines the prefix. */
  lemma {:induction false} PrefixIsQuotient(a: nat, b: nat, w: nat, p: nat)
    requires p <= w && a < Pow2(w) && b < Pow2(w)
    ensures PrefixAgrees(a, b, w, p) <==> a / Pow2(w - p) == b / Pow2(w - p)
    decreases p
  {
    if p == 0 {
      DivUnique(a, Pow2(w), 0, a);
      DivUnique(b, Pow2(w), 0, b);
    } else {
      PrefixIsQuotient(a, b, w, p - 1);
      QuotientStep(a, w, p);
      QuotientStep(b, w, p);
      PrefixStep(a, b, w, p);
      HalvesAndParity(a / Pow2(w - p), b / Pow2(w - p));
    }
  }

  lemma PrefixStep(a: nat, b: nat, w: nat, p: nat)
    requires 0 < p <= w
    ensures PrefixAgrees(a, b, w, p) <==>
            PrefixAgrees(a, b, w, p - 1) && BitAt(a, w, p - 1) == BitAt(b, w, p - 1)
  {
  }

  lemma HalvesAndParity(x: int, y: int)
    ensures x == y <==> x / 2 == y / 2 && (x % 2 == 1) == (y % 2 == 1)
  {
  }

  lemma OrZero(a: nat)
    ensures BitOr(a, 0) == a
  {
  }

  lemma OrSwapped(a: nat, b: nat)
    ensures BitOr(a, b) == BitOr(b, a)
  {
  }

  /** Or-ing a word below 2^k into a multiple of 2^k is addition. */
  lemma {:induction false} OrDisjoint(hi: nat, lo: nat, k: nat)
    requires lo < Pow2(k)
    ensures BitOr(hi * Pow2(k), lo) == hi * Pow2(k) + lo
    decreases k
  {
    hide BitOr;
    if k == 0 {
      OrZero(hi);
    } else {
      OrDisjoint(hi, lo / 2, k - 1);
      var h := hi * Pow2(k - 1);
      DoubleFactor(hi, Pow2(k - 1));
      OrSwapped(2 * h, lo);
      OrSwapped(h, lo / 2);
      OrHalves(lo, h);
    }
  }

  /** Or keeps within a power of two. */
  lemma {:induction false} OrBound(a: nat, b: nat, k: nat)
    requires a < Pow2(k) && b < Pow2(k)
    ensures BitOr(a, b) < Pow2(k)
    decreases k
  {
    if k > 0 && a > 0 && b > 0 {
      OrBound(a / 2, b / 2, k - 1);
    }
  }

  /** Or keeps multiples of a power of two. */
  lemma {:induction false} OrMultiples(a: nat, b: nat, k: nat)
    ensures BitOr(a * Pow2(k), b * Pow2(k)) == BitOr(a, b) * Pow2(k)
    decreases k
  {
    if k > 0 && a > 0 && b > 0 {
      OrMultiples(a, b, k - 1);
      DoubleFactor(a, Pow2(k - 1));
      DoubleFactor(b, Pow2(k - 1));
      DoubleFactor(BitOr(a, b), Pow2(k - 1));
      OrEven(a * Pow2(k - 1), b * Pow2(k - 1));
    }
  }

  lemma {:induction false} OrHalves(a: nat, m: nat)
    ensures BitOr(a, 2 * m) == a % 2 + 2 * BitOr(a / 2, m)
  {
    assert 2 * m / 2 == m && 2 * m % 2 == 0;
  }

  predicate HasBit(a: nat, k: nat) {
    a / Pow2(k) % 2 == 1
  }

  /** A bit is set in the union of two words exactly if it is set in one of them. */
  lemma {:induction false} OrBits(a: nat, b: nat, k: nat)
    ensures HasBit(BitOr(a, b), k) <==> HasBit(a, k) || HasBit(b, k)
    decreases k
  {
    var c := BitOr(a, b);
    OrStep(a, b);
    if k > 0 {
      OrBits(a / 2, b / 2, k - 1);
      DivDiv(a, 2, Pow2(k - 1));
      DivDiv(b, 2, Pow2(k - 1));
      DivDiv(c, 2, Pow2(k - 1));
    }
  }

  lemma OrStep(a: nat, b: nat)
    ensures BitOr(a, b) / 2 == BitOr(a / 2, b / 2)
    ensures BitOr(a, b) % 2 == 1 <==> a % 2 == 1 || b % 2 == 1
  {
  }

  /** Testing and setting one bit. */
  lemma {:induction false} SingleBit(a: nat, k: nat)
    ensures BitAnd(a, Pow2(k)) == if HasBit(a, k) then Pow2(k) else 0
    ensures BitOr(a, Pow2(k)) == if HasBit(a, k) then a else a + Pow2(k)
    decreases k
  {
    if k == 0 {
      assert BitAnd(a, 1) == a % 2;
    } else {
      SingleBit(a / 2, k - 1);
      AndEven(a, Pow2(k - 1));
      OrHalves(a, Pow2(k - 1));
      DivDiv(a, 2, Pow2(k - 1));
    }
  }

  lemma Pow2Values()
    ensures Pow2(4) == 16 && Pow2(8) == 256 && Pow2(16) == 0x1_0000
    ensures Pow2(32) == 0x1_0000_0000 && Pow2(64) == 0x1_0000_0000_0000_0000
  {
    assert Pow2(4) == 16;
    Pow2Add(4, 4);
    Pow2Add(8, 8);
    Pow2Add(16, 16);
    Pow2Add(32, 32);
  }
}
