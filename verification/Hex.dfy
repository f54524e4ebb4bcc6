/** Hexadecimal text (src/core/encoding/hex.cpp). Text is a sequence of character codes. */
module Hex {
  import opened Common
  import opened Bits
  import opened Radix

  const BAD: Byte := 0xFF

  /** `kHexDigits` */
  function HexDigit(n: int): Byte
    requires 0 <= n < 16
  {
    if n < 10 then 0x30 + n else 0x61 + (n - 10)
  }

  /** `kUnhexTable`: the value of a digit of either case. */
  function Unhex(c: Byte): Byte {
    if 0x30 <= c <= 0x39 then c - 0x30
    else if 0x41 <= c <= 0x46 then c - 0x41 + 10
    else if 0x61 <= c <= 0x66 then c - 0x61 + 10
    else BAD
  }

  /** `kUnhexTable4`: the value moved to the high half of a byte. */
  function Unhex4(c: Byte): Byte {
    if Unhex(c) == BAD then BAD else 16 * Unhex(c)
  }

  predicate IsHex(c: Byte) {
    Unhex(c) != BAD
  }

  predicate HasPrefix(s: Bytes) {
    |s| >= 2 && s[0] == 0x30 && (s[1] == 0x78 || s[1] == 0x58)
  }

  function Stripped(s: Bytes): Bytes {
    if HasPrefix(s) then s[2..] else s
  }

  /** A prefix 0x or 0X is dropped, and nothing else. */
  lemma StrippedIs(s: Bytes)
    ensures |s| >= 2 && (s[..2] == [0x30, 0x78] || s[..2] == [0x30, 0x58]) ==> Stripped(s) == s[2..]
    ensures !(|s| >= 2 && (s[..2] == [0x30, 0x78] || s[..2] == [0x30, 0x58])) ==> Stripped(s) == s
  {
    if |s| >= 2 { assert s[..2] == [s[0], s[1]]; }
  }

  /** A digit is missing in front of an odd number of digits. */
  function Padded(s: Bytes): (r: Bytes)
    ensures |r| % 2 == 0
  {
    if |s| % 2 == 1 then [0x30] + s else s
  }

  /** The bytes of an even number of digits, digit by digit, or nothing if one of them is not hexadecimal. */
  function Pairs(s: Bytes): (r: Option<Bytes>)
    requires |s| % 2 == 0
    ensures r.Some? ==> 2 * |r.value| == |s|
    decreases |s|
  {
    if s == [] then Some([])
    else
      var n := |s| - 2;
      match Pairs(s[..n])
      case None => None
      case Some(front) => if IsHex(s[n]) && IsHex(s[n + 1]) then Some(front + [16 * Unhex(s[n]) + Unhex(s[n + 1])])
        else None
  }

  /** What decoding a text means. */
  function Decoded(s: Bytes): Outcome<Bytes> {
    match Pairs(Padded(Stripped(s)))
    case None => Error(IllegalHexDigit)
    case Some(b) => Done(b)
  }

  /** The digits of some bytes. */
  function Digits(b: Bytes): (r: Bytes)
    ensures |r| == 2 * |b|
  {
    if b == [] then [] else Digits(b[..|b| - 1]) + [HexDigit(b[|b| - 1] / 16), HexDigit(b[|b| - 1] % 16)]
  }

  function Encoded(b: Bytes, withPrefix: bool): Bytes {
    (if withPrefix then [0x30, 0x78] else []) + Digits(b)
  }

  /** `encode` */
  method Encode(bytes: Bytes, withPrefix: bool) returns (r: Bytes)
    ensures r == Encoded(bytes, withPrefix)
  {
    hide HexDigit, Encoded;
    var out := new Byte[2 * |bytes| + if withPrefix then 2 else 0](i => 0);
    var dest := 0;
    if withPrefix {
      out[0], out[1] := 0x30, 0x78;
      dest := 2;
    }
    NothingEncoded(withPrefix);
    assert bytes[..0] == [];
    assert out[..dest] == if withPrefix then [0x30, 0x78] else [];
    var i := 0;
    while i < |bytes|
      invariant 0 <= i <= |bytes| && dest + 2 * (|bytes| - i) == out.Length
      invariant out[..dest] == Encoded(bytes[..i], withPrefix)
    {
      ghost var before := out[..dest];
      var hi, lo := HexDigit(bytes[i] / 16), HexDigit(bytes[i] % 16);
      out[dest], out[dest + 1] := hi, lo;
      assert out[..dest + 2] == before + [hi, lo];
      EncodedAppend(bytes[..i], bytes[i], withPrefix);
      assert bytes[..i + 1] == bytes[..i] + [bytes[i]];
      dest, i := dest + 2, i + 1;
    }
    assert bytes[..i] == bytes;
    return out[..];
  }

  lemma NothingEncoded(withPrefix: bool)
    ensures Encoded([], withPrefix) == if withPrefix then [0x30, 0x78] else []
  {
  }

  lemma EncodedAppend(b: Bytes, last: Byte, withPrefix: bool)
    ensures Encoded(b + [last], withPrefix) == Encoded(b, withPrefix) + [HexDigit(last / 16), HexDigit(last % 16)]
  {
    hide HexDigit;
    DigitsAppend(b, last);
  }

  lemma {:induction false} BadPair(s: Bytes, i: nat)
    requires i <= |s| && i % 2 == 0 && |s| % 2 == 0 && Pairs(s[..i]).None?
    ensures Pairs(s).None?
    decreases |s| - i
  {
    hide Unhex;
    if i == |s| {
      assert s[..i] == s;
    } else {
      assert s[..i + 2][..i] == s[..i];
      BadPair(s, i + 2);
    }
  }

  /** Two half bytes or-ed together are added. */
  lemma Halves(hi: Byte, lo: Byte)
    requires IsHex(hi) && IsHex(lo)
    ensures BitOr(Unhex4(hi), Unhex(lo)) == 16 * Unhex(hi) + Unhex(lo) < 256
  {
    hide Pow2, BitOr;
    Pow2Values();
    OrDisjoint(Unhex(hi), Unhex(lo), 4);
  }

  /** Low half bytes or-ed together are 0xFF exactly when one of them is. */
  lemma SomeBadLow(b: Byte, d: Byte, f: Byte, h: Byte)
    ensures BitOr(BitOr(BitOr(Unhex(b), Unhex(d)), Unhex(f)), Unhex(h)) == 0xFF <==>
            !(IsHex(b) && IsHex(d) && IsHex(f) && IsHex(h))
  {
    hide BitOr, Pow2;
    Pow2Values();
    var x := BitOr(Unhex(b), Unhex(d));
    var y := BitOr(x, Unhex(f));
    OrBound(Unhex(b), Unhex(d), 8);
    OrBound(x, Unhex(f), 8);
    OrBound(y, Unhex(h), 8);
    if IsHex(b) && IsHex(d) && IsHex(f) && IsHex(h) {
      OrBound(Unhex(b), Unhex(d), 4);
      OrBound(x, Unhex(f), 4);
      OrBound(y, Unhex(h), 4);
    }
  }

  /** High half bytes or-ed together are 0xFF exactly when one of them is. */
  lemma SomeBadHigh(a: Byte, c: Byte, e: Byte, g: Byte)
    ensures BitOr(BitOr(BitOr(Unhex4(a), Unhex4(c)), Unhex4(e)), Unhex4(g)) == 0xFF <==>
            !(IsHex(a) && IsHex(c) && IsHex(e) && IsHex(g))
  {
    hide BitOr, Pow2;
    Pow2Values();
    var x := BitOr(Unhex4(a), Unhex4(c));
    var y := BitOr(x, Unhex4(e));
    OrBound(Unhex4(a), Unhex4(c), 8);
    OrBound(x, Unhex4(e), 8);
    OrBound(y, Unhex4(g), 8);
    if IsHex(a) && IsHex(c) && IsHex(e) && IsHex(g) {
      var x4 := BitOr(Unhex(a), Unhex(c));
      var y4 := BitOr(x4, Unhex(e));
      OrMultiples(Unhex(a), Unhex(c), 4);
      OrMultiples(x4, Unhex(e), 4);
      OrMultiples(y4, Unhex(g), 4);
    }
  }

  /** Digits in sequence are bytes in sequence. */
  function Joined(a: Option<Bytes>, b: Option<Bytes>): Option<Bytes> {
    if a.Some? && b.Some? then Some(a.value + b.value) else None
  }

  lemma {:induction false} PairsConcat(s: Bytes, t: Bytes)
    requires |s| % 2 == 0 && |t| % 2 == 0
    ensures Pairs(s + t) == Joined(Pairs(s), Pairs(t))
    decreases |t|
  {
    hide Unhex;
    if t == [] {
      assert s + t == s;
      assert Pairs(s).Some? ==> Pairs(s).value + [] == Pairs(s).value;
    } else {
      var n := |t| - 2;
      assert (s + t)[..|s| + n] == s + t[..n];
      PairsConcat(s, t[..n]);
      if Pairs(s).Some? && Pairs(t).Some? {
        assert Pairs(s).value + (Pairs(t[..n]).value + [16 * Unhex(t[n]) + Unhex(t[n + 1])])
            == (Pairs(s).value + Pairs(t[..n]).value) + [16 * Unhex(t[n]) + Unhex(t[n + 1])];
      }
    }
  }

  lemma OnePair(x: Byte, y: Byte)
    ensures Pairs([x, y]) == if IsHex(x) && IsHex(y) then Some([16 * Unhex(x) + Unhex(y)]) else None
  {
    hide Unhex;
    assert [x, y][..0] == [];
    assert [] + [16 * Unhex(x) + Unhex(y)] == [16 * Unhex(x) + Unhex(y)];
  }

  lemma TwoPairs(x: Byte, y: Byte, z: Byte, w: Byte)
    ensures Pairs([x, y, z, w]) ==
      if IsHex(x) && IsHex(y) && IsHex(z) && IsHex(w) then Some([16 * Unhex(x) + Unhex(y), 16 * Unhex(z) + Unhex(w)])
        else None
  {
    hide Unhex, Pairs;
    OnePair(x, y);
    OnePair(z, w);
    PairsConcat([x, y], [z, w]);
    assert [x, y] + [z, w] == [x, y, z, w];
    if IsHex(x) && IsHex(y) && IsHex(z) && IsHex(w) {
      var p, q := 16 * Unhex(x) + Unhex(y), 16 * Unhex(z) + Unhex(w);
      assert [p] + [q] == [p, q];
    }
  }

  /** The eight digits of one turn of the unrolled loop. */
  lemma FourPairs(s: Bytes)
    requires |s| == 8
    ensures Pairs(s) ==
      if IsHex(s[1]) && IsHex(s[3]) && IsHex(s[5]) && IsHex(s[7]) && IsHex(s[0]) && IsHex(s[2]) && IsHex(s[4])
        && IsHex(s[6])
      then Some([16 * Unhex(s[0]) + Unhex(s[1]), 16 * Unhex(s[2]) + Unhex(s[3]),
                 16 * Unhex(s[4]) + Unhex(s[5]), 16 * Unhex(s[6]) + Unhex(s[7])])
      else None
  {
    hide Unhex, Pairs;
    TwoPairs(s[0], s[1], s[2], s[3]);
    TwoPairs(s[4], s[5], s[6], s[7]);
    PairsConcat([s[0], s[1], s[2], s[3]], [s[4], s[5], s[6], s[7]]);
    assert s == [s[0], s[1], s[2], s[3]] + [s[4], s[5], s[6], s[7]];
    var left, right := Pairs([s[0], s[1], s[2], s[3]]), Pairs([s[4], s[5], s[6], s[7]]);
    if left.Some? && right.Some? {
      assert left.value + right.value == [left.value[0], left.value[1], right.value[0], right.value[1]];
    }
  }

  /** One turn of the unrolled loop: eight digits, checked together. */
  method DecodeFour(s: Bytes) returns (r: Option<Bytes>)
    requires |s| == 8
    ensures r == Pairs(s)
  {
    hide Unhex, Unhex4, BitOr, Pairs;
    var a, b := Unhex4(s[0]), Unhex(s[1]);
    var c, d := Unhex4(s[2]), Unhex(s[3]);
    var e, f := Unhex4(s[4]), Unhex(s[5]);
    var g, h := Unhex4(s[6]), Unhex(s[7]);
    FourPairs(s);
    SomeBadLow(s[1], s[3], s[5], s[7]);
    SomeBadHigh(s[0], s[2], s[4], s[6]);
    if BitOr(BitOr(BitOr(b, d), f), h) == 0xFF || BitOr(BitOr(BitOr(a, c), e), g) == 0xFF { return None; }
    Halves(s[0], s[1]);
    Halves(s[2], s[3]);
    Halves(s[4], s[5]);
    Halves(s[6], s[7]);
    return Some([BitOr(a, b), BitOr(c, d), BitOr(e, f), BitOr(g, h)]);
  }

  /** Appending what the next digits give. */
  lemma PairsNext(all: Bytes, i: nat, n: nat)
    requires i % 2 == 0 && n % 2 == 0 && i + n <= |all|
    ensures Pairs(all[..i + n]) == Joined(Pairs(all[..i]), Pairs(all[i..i + n]))
  {
    assert all[..i + n] == all[..i] + all[i..i + n];
    PairsConcat(all[..i], all[i..i + n]);
  }

  /** The two loops of `decode`: four bytes at a time, then one at a time. */
  method DecodeEven(s: Bytes) returns (r: Option<Bytes>)
    requires |s| % 2 == 0
    ensures r == Pairs(s)
  {
    hide Unhex, Unhex4, BitOr, Pairs, Joined, IsHex;
    var out: Bytes := [];
    var src := 0;
    assert s[..0] == [];
    NoPairs();
    while |s| - src >= 8
      invariant 0 <= src <= |s| && src % 2 == 0
      invariant Pairs(s[..src]) == Some(out)
      decreases |s| - src
    {
      var four := DecodeFour(s[src..src + 8]);
      PairsNext(s, src, 8);
      JoinedSome(out, four);
      if four.None? {
        BadPair(s, src + 8);
        return None;
      }
      out := out + four.value;
      src := src + 8;
    }
    while src < |s|
      invariant 0 <= src <= |s| && src % 2 == 0
      invariant Pairs(s[..src]) == Some(out)
      decreases |s| - src
    {
      assert s[src..src + 2] == [s[src], s[src + 1]];
      var one := DecodeOne(s[src], s[src + 1]);
      PairsNext(s, src, 2);
      if one.None? {
        JoinedSome(out, None);
        BadPair(s, src + 2);
        return None;
      }
      JoinedSome(out, Some([one.value]));
      out := out + [one.value];
      src := src + 2;
    }
    assert s[..src] == s;
    return Some(out);
  }

  /** One byte from two digits. */
  method DecodeOne(hi: Byte, lo: Byte) returns (r: Option<Byte>)
    ensures Pairs([hi, lo]) == if r.Some? then Some([r.value]) else None
  {
    hide Unhex, Unhex4, BitOr, Pairs;
    OnePair(hi, lo);
    var a, b := Unhex4(hi), Unhex(lo);
    Unhex4Bad(hi);
    if a == BAD || b == BAD { return None; }
    Halves(hi, lo);
    return Some(BitOr(a, b));
  }

  /** `decode` */
  method Decode(text: Bytes) returns (r: Outcome<Bytes>)
    ensures r == Decoded(text)
  {
    hide Unhex, Pairs, Joined;
    var s := text;
    if HasPrefix(s) {
      s := s[2..];
    }
    assert s == Stripped(text);
    NoPairs();
    if s == [] { return Done([]); }
    var first: Bytes := [];
    if |s| % 2 != 0 {
      var b := Unhex(s[0]);
      ZeroDigit();
      OnePair(0x30, s[0]);
      PairsConcat([0x30, s[0]], s[1..]);
      assert Padded(s) == [0x30, s[0]] + s[1..];
      if b == BAD {
        NoneJoined(Pairs(s[1..]));
        return Error(IllegalHexDigit);
      }
      first := [b];
      s := s[1..];
      assert Pairs(Padded(Stripped(text))) == Joined(Some(first), Pairs(s));
    } else {
      PairsConcat([], s);
      assert [] + s == s;
    }
    var rest := DecodeEven(s);
    JoinedSome(first, rest);
    if rest.None? { return Error(IllegalHexDigit); }
    return Done(first + rest.value);
  }

  lemma NoneJoined(b: Option<Bytes>)
    ensures Joined(None, b) == None
  {
  }

  lemma JoinedSome(a: Bytes, b: Option<Bytes>)
    ensures Joined(Some(a), b) == if b.Some? then Some(a + b.value) else None
  {
  }

  lemma NoDigits()
    ensures Digits([]) == []
  {
  }

  lemma NoPairs()
    ensures Pairs([]) == Some([])
  {
  }

  lemma Unhex4Bad(c: Byte)
    ensures Unhex4(c) == BAD <==> Unhex(c) == BAD
  {
  }

  lemma ZeroDigit()
    ensures IsHex(0x30) && Unhex(0x30) == 0
  {
  }

  lemma UnhexDigit(n: int)
    requires 0 <= n < 16
    ensures IsHex(HexDigit(n)) && Unhex(HexDigit(n)) == n
  {
  }

  lemma {:induction false} PairsOfDigits(b: Bytes)
    ensures Pairs(Digits(b)) == Some(b)
    decreases |b|
  {
    hide Unhex, HexDigit;
    if b != [] {
      var n := |b| - 1;
      PairsOfDigits(b[..n]);
      var last := b[n];
      UnhexDigit(last / 16);
      UnhexDigit(last % 16);
      assert Digits(b)[..2 * n] == Digits(b[..n]);
      assert b == b[..n] + [last];
    }
  }

  /** Decoding undoes encoding, with and without the prefix. */
  lemma DecodeEncode(b: Bytes, withPrefix: bool)
    ensures Decoded(Encoded(b, withPrefix)) == Done(b)
  {
    hide Pairs, Digits;
    PairsOfDigits(b);
    if withPrefix {
      assert Encoded(b, true)[2..] == Digits(b);
    } else {
      assert Encoded(b, false) == Digits(b);
      DigitsHaveNoPrefix(b);
    }
  }

  lemma {:induction false} DigitsHaveNoPrefix(b: Bytes)
    ensures !HasPrefix(Digits(b))
    decreases |b|
  {
    if |b| > 1 {
      DigitsHaveNoPrefix(b[..|b| - 1]);
    }
  }

  function Lower(c: Byte): Byte {
    if 0x41 <= c <= 0x46 then c + 0x20 else c
  }

  function LowerAll(s: Bytes): Bytes {
    seq(|s|, i requires 0 <= i < |s| => Lower(s[i]))
  }

  lemma DigitOfUnhex(c: Byte)
    requires IsHex(c)
    ensures 0 <= Unhex(c) < 16 && HexDigit(Unhex(c)) == Lower(c)
  {
  }

  lemma SplitByte(hi: int, lo: int)
    requires 0 <= hi < 16 && 0 <= lo < 16
    ensures (16 * hi + lo) / 16 == hi && (16 * hi + lo) % 16 == lo
  {
  }

  lemma DigitsAppend(b: Bytes, last: Byte)
    ensures Digits(b + [last]) == Digits(b) + [HexDigit(last / 16), HexDigit(last % 16)]
  {
    hide HexDigit;
    assert (b + [last])[..|b|] == b;
  }

  lemma {:induction false} DigitsOfPairs(s: Bytes)
    requires |s| % 2 == 0 && Pairs(s).Some?
    ensures Digits(Pairs(s).value) == LowerAll(s)
    decreases |s|
  {
    hide Unhex, HexDigit, Lower, Digits;
    if s == [] {
      NoPairs();
      assert Digits([]) == [] by { NoDigits(); }
    } else {
      var n := |s| - 2;
      DigitsOfPairs(s[..n]);
      DigitOfUnhex(s[n]);
      DigitOfUnhex(s[n + 1]);
      var b := Pairs(s).value;
      SplitByte(Unhex(s[n]), Unhex(s[n + 1]));
      assert b == Pairs(s[..n]).value + [16 * Unhex(s[n]) + Unhex(s[n + 1])];
      DigitsAppend(Pairs(s[..n]).value, 16 * Unhex(s[n]) + Unhex(s[n + 1]));
      assert LowerAll(s) == LowerAll(s[..n]) + [Lower(s[n]), Lower(s[n + 1])];
    }
  }

  /** Encoding undoes decoding up to the prefix, the case of the digits and a missing leading zero. */
  lemma EncodeDecode(s: Bytes)
    requires Decoded(s).Done?
    ensures Encoded(Decoded(s).value, false) == LowerAll(Padded(Stripped(s)))
  {
    hide Pairs, Digits;
    DigitsOfPairs(Padded(Stripped(s)));
  }

  /** The pairs of digits in reverse order; a single digit in front gets its zero. */
  function PairsReversed(s: Bytes): Bytes
    decreases |s|
  {
    if s == [] then []
    else if |s| == 1 then [0x30, s[0]]
    else s[|s| - 2..] + PairsReversed(s[..|s| - 2])
  }

  function Reversed<T>(b: seq<T>): seq<T> {
    if b == [] then [] else [b[|b| - 1]] + Reversed(b[..|b| - 1])
  }

  /** `reverse_hex` */
  method ReverseHex(text: Bytes) returns (r: Bytes)
    ensures r == (if HasPrefix(text) then [0x30, 0x78] else []) + PairsReversed(Stripped(text))
  {
    var input := text;
    r := [];
    if text == [] { return; }
    if HasPrefix(input) {
      r := [0x30, 0x78];
      input := input[2..];
    }
    ghost var goal := r + PairsReversed(input);
    while |input| >= 2
      invariant r + PairsReversed(input) == goal
      decreases |input|
    {
      assert (r + input[|input| - 2..]) + PairsReversed(input[..|input| - 2]) == r + PairsReversed(input);
      r := r + input[|input| - 2..];
      input := input[..|input| - 2];
    }
    if input != [] {
      r := r + [0x30, input[0]];
    } else {
      assert r + [] == r;
    }
  }

  lemma PaddedFront(s: Bytes)
    requires |s| >= 2
    ensures var front, last := s[..|s| - 2], [s[|s| - 2], s[|s| - 1]];
      Padded(s) == Padded(front) + last && PairsReversed(s) == last + PairsReversed(front)
  {
    hide PairsReversed;
    var front, last := s[..|s| - 2], [s[|s| - 2], s[|s| - 1]];
    assert s == front + last;
    assert [0x30] + (front + last) == ([0x30] + front) + last;
    ReversedStep(s);
  }

  lemma ReversedStep(s: Bytes)
    requires |s| >= 2
    ensures PairsReversed(s) == [s[|s| - 2], s[|s| - 1]] + PairsReversed(s[..|s| - 2])
  {
    assert s[|s| - 2..] == [s[|s| - 2], s[|s| - 1]];
  }

  lemma LastFirst(b: Bytes, last: Bytes)
    requires |last| == 1
    ensures Reversed(b + last) == last + Reversed(b)
  {
    assert (b + last)[..|b|] == b;
  }

  lemma {:induction false} ReversedPairs(s: Bytes)
    requires Pairs(Padded(s)).Some?
    ensures |PairsReversed(s)| % 2 == 0
    ensures Pairs(PairsReversed(s)) == Some(Reversed(Pairs(Padded(s)).value))
    decreases |s|
  {
    hide Unhex, Pairs, IsHex, Reversed;
    NoPairs();
    NoneReversed();
    if |s| == 1 {
      ZeroDigit();
      OnePair(0x30, s[0]);
      assert Padded(s) == [0x30, s[0]];
      OneReversed(Pairs(Padded(s)).value);
    } else if s != [] {
      var front, x, y := s[..|s| - 2], s[|s| - 2], s[|s| - 1];
      PaddedFront(s);
      PairsConcat(Padded(front), [x, y]);
      OnePair(x, y);
      ReversedPairs(front);
      PairsConcat([x, y], PairsReversed(front));
      LastFirst(Pairs(Padded(front)).value, Pairs([x, y]).value);
    }
  }

  lemma NoneReversed()
    ensures Reversed<Byte>([]) == []
  {
  }

  lemma OneReversed(b: Bytes)
    requires |b| == 1
    ensures Reversed(b) == b
  {
    assert b[..0] == [];
  }

  /** A text of digits has no prefix. */
  lemma PairsHaveNoPrefix(s: Bytes)
    requires |s| % 2 == 0
    ensures HasPrefix(s) ==> Pairs(s).None?
  {
    if HasPrefix(s) {
      assert s[..2][..0] == [];
      assert !IsHex(s[1]);
      BadPair(s, 2);
    }
  }

  /** Reversing a text that can be decoded reverses the bytes it stands for, and keeps the prefix. */
  lemma ReverseDecodes(text: Bytes, r: Bytes)
    requires Decoded(text).Done?
    requires r == (if HasPrefix(text) then [0x30, 0x78] else []) + PairsReversed(Stripped(text))
    ensures Decoded(r) == Done(Reversed(Decoded(text).value))
  {
    hide Pairs, PairsReversed, IsHex, Unhex;
    var s := Stripped(text);
    ReversedPairs(s);
    PairsHaveNoPrefix(PairsReversed(s));
    if HasPrefix(text) {
      assert r[2..] == PairsReversed(s);
    } else {
      assert r == PairsReversed(s);
    }
  }
}
