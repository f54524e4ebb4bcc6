/** Subnets: base addresses and membership (src/infra/network/addresses.cpp). */
module Subnet {
  import opened Common
  import opened Bits
  import opened Addresses

  datatype SubNet = SubNet(base: IPAddress, prefix: nat) {
    predicate IsValid() {
      base.IsValid() && 0 < prefix <= Width(base)
    }
  }

  function Width(a: IPAddress): nat {
    if a.V4? then 32 else 128
  }

  lemma Fits(a: IPAddress)
    ensures a.V4? ==> a.value < Pow2(32)
    ensures Pow2(8) == 256
  {
    Pow2Values();
  }

  /** Bit `i` of an address in network order. */
  predicate Bit(a: IPAddress, i: nat)
    requires i < Width(a)
  {
    match a
    case V4(n) => BitAt(n, 32, i)
    case V6(b) => BitAt(b[i / 8], 8, i % 8)
  }

  /** Same family, same first `p` bits. */
  ghost predicate SamePrefix(a: IPAddress, b: IPAddress, p: nat)
    requires p <= Width(a)
  {
    a.V4? == b.V4? && forall i: nat | i < p :: Bit(a, i) == Bit(b, i)
  }

  /** How many of the first `p` bits fall into byte `i`. */
  function BitsInByte(p: nat, i: nat): (k: nat)
    ensures k <= 8
  {
    if p <= 8 * i then 0 else if p >= 8 * i + 8 then 8 else p - 8 * i
  }

  function MaskByte(p: nat, i: nat): Byte {
    Fits(V4(0));
    HighMask(8, BitsInByte(p, i))
  }

  /** The byte masks of an IPv6 prefix, built as the original does: full bytes, then the one cut by the prefix. */
  method BuildMask(p: nat) returns (mask: Bytes16)
    requires p <= 128
    ensures forall i: nat | i < 16 :: mask[i] == MaskByte(p, i)
  {
    hide Pow2;
    Fits(V4(0));
    assert Pow2(0) == 1 by { One(); }
    mask := seq(16, i => 0);
    var i := 0;
    var end := p / 8;
    while i < end
      invariant 0 <= i <= end
      invariant forall j: nat | j < 16 :: mask[j] == if j < i then 0xFF else 0
    {
      mask := mask[i := 0xFF];
      i := i + 1;
    }
    if p % 8 != 0 {
      var shifted := 0xFF * Pow2(8 - p % 8);
      CutMask(p % 8);
      mask := mask[p / 8 := BitAnd(0xFF, shifted)];
    }
  }

  lemma One()
    ensures Pow2(0) == 1
  {
  }

  /** Shifting a full byte and keeping its low eight bits leaves the high bits of the mask. */
  lemma CutMask(k: nat)
    requires 0 < k < 8
    ensures BitAnd(0xFF, 0xFF * Pow2(8 - k)) == HighMask(8, k) < 256
  {
    hide Pow2, BitAnd;
    Pow2Values();
    var m := Pow2(8 - k);
    Pow2Monotone(8 - k, 8);
    AndSymmetric(0xFF, 0xFF * m);
    AndLowMask(0xFF * m, 8);
    assert 0xFF * m == (m - 1) * 256 + (256 - m);
    DivUnique(0xFF * m, 256, m - 1, 256 - m);
  }

  /** The address with everything after its first `p` bits cleared. */
  function Base(a: IPAddress, p: nat): IPAddress
    requires p <= Width(a)
  {
    match a
    case V4(n) => V4(BitAnd(n, HighMask(32, p)))
    case V6(b) => V6(seq(16, i requires 0 <= i < 16 => BitAnd(b[i], MaskByte(p, i)) as Byte))
  }

  /** A left shift of the 32-bit all-ones word, as the machine computes it for shifts below the width. */
  function ShiftedOnes(k: nat): U32
    requires k < 32
  {
    0xFFFF_FFFF * Pow2(k) % 0x1_0000_0000
  }

  lemma ShiftedOnesIsMask(p: nat)
    requires 0 < p <= 32
    ensures ShiftedOnes(32 - p) == HighMask(32, p)
  {
    Pow2Values();
    var k := Pow2(32 - p);
    Pow2Monotone(32 - p, 32);
    Pow2Add(32 - p, p);
    Pow2Monotone(1, p);
    assert 0xFFFF_FFFF * k == (k - 1) * 0x1_0000_0000 + (0x1_0000_0000 - k);
    DivUnique(0xFFFF_FFFF * k, 0x1_0000_0000, k - 1, 0x1_0000_0000 - k);
  }

  /**
    `calculate_subnet_base_address`. An IPv4 prefix of zero, for which the original shifts by the full width and
    has no defined result, is excluded.
   */
  method CalculateBase(a: IPAddress, p: nat) returns (r: Option<IPAddress>)
    requires a.V4? ==> p > 0
    ensures !a.IsValid() || p > Width(a) ==> r == None
    ensures a.IsValid() && p <= Width(a) ==> r == Some(Base(a, p))
  {
    hide Pow2, BitAnd, HighMask;
    if !a.IsValid() { return None; }
    match a
    case V4(n) =>
      if p > 32 { return None; }
      ShiftedOnesIsMask(p);
      AndSymmetric(ShiftedOnes(32 - p), n);
      return Some(V4(BitAnd(ShiftedOnes(32 - p), n)));
    case V6(b) =>
      if p > 128 { return None; }
      var mask := BuildMask(p);
      var out: Bytes16 := b;
      var i := 0;
      while i < 16
        invariant 0 <= i <= 16
        invariant forall j: nat | j < 16 :: out[j] == if j < i then BitAnd(b[j], MaskByte(p, j)) else b[j]
      {
        out := out[i := BitAnd(out[i], mask[i])];
        i := i + 1;
      }
      assert out == Base(a, p).bytes;
      return Some(V6(out));
  }

  /** An address whose masked value is the base of a valid subnet. */
  predicate Member(s: SubNet, a: IPAddress) {
    s.IsValid() && !a.IsUnspecified() && !a.IsLoopback() && s.base.V4? == a.V4? && Base(a, s.prefix) == s.base
  }

  /** `contains` */
  method Contains(s: SubNet, a: IPAddress) returns (r: bool)
    ensures r == Member(s, a)
  {
    hide Pow2, BitAnd, HighMask, IPAddress.IsUnspecified, IPAddress.IsLoopback;
    if !s.IsValid() || a.IsUnspecified() || a.IsLoopback() { return false; }
    match s.base
    case V4(subnet) =>
      if !a.V4? { return false; }
      ShiftedOnesIsMask(s.prefix);
      return BitAnd(a.value, ShiftedOnes(32 - s.prefix)) == subnet;
    case V6(subnet) =>
      if !a.V6? { return false; }
      var mask := BuildMask(s.prefix);
      var i := 0;
      while i < 16
        invariant 0 <= i <= 16
        invariant forall j: nat | j < i :: BitAnd(a.bytes[j], MaskByte(s.prefix, j)) == subnet[j]
      {
        if BitAnd(a.bytes[i], mask[i]) != subnet[i] {
          assert Base(a, s.prefix).bytes[i] != subnet[i];
          return false;
        }
        i := i + 1;
      }
      assert Base(a, s.prefix).bytes == subnet;
      return true;
  }

  /** A masked word has the bits of the original up to the prefix, and zeros after it. */
  lemma MaskedBit(a: nat, w: nat, p: nat, i: nat)
    requires p <= w && i < w && a < Pow2(w)
    ensures BitAt(BitAnd(a, HighMask(w, p)), w, i) <==> i < p && BitAt(a, w, i)
  {
    hide BitAnd, HighMask, Pow2;
    AndHighMask(a, w, p);
    if i < p {
      KeptBit(a, w, p, i);
    } else {
      ClearedBit(a / Pow2(w - p), w, p, i);
    }
  }

  /** Dropping low bits and shifting zeros in keeps the bits above. */
  lemma KeptBit(a: nat, w: nat, p: nat, i: nat)
    requires i < p <= w
    ensures a / Pow2(w - p) * Pow2(w - p) / Pow2(w - 1 - i) == a / Pow2(w - 1 - i)
  {
    hide Pow2;
    var low, high := Pow2(w - p), Pow2(p - 1 - i);
    var q := a / low;
    Pow2Add(w - p, p - 1 - i);
    MulNonNegative(q, low);
    DivDiv(q * low, low, high);
    DivDiv(a, low, high);
    DivUnique(q * low, low, q, 0);
  }

  /** A multiple of a power of two has zeros below it. */
  lemma ClearedBit(q: nat, w: nat, p: nat, i: nat)
    requires p <= i < w
    ensures q * Pow2(w - p) / Pow2(w - 1 - i) % 2 == 0
  {
    hide Pow2;
    var shift, gap := Pow2(w - 1 - i), Pow2(i - p);
    Pow2Add(i - p, w - 1 - i);
    Doubling(w - 1 - p);
    assert w - p == (w - 1 - p) + 1 && (i - p) + (w - 1 - i) == w - 1 - p;
    var even := 2 * (q * gap);
    Regroup(q, gap, shift);
    MulNonNegative(q, gap);
    MulNonNegative(even, shift);
    DivUnique(q * Pow2(w - p), shift, even, 0);
  }

  lemma Regroup(q: nat, x: nat, y: nat)
    ensures q * (2 * (x * y)) == (2 * (q * x)) * y
  {
    assert q * (x * y) == (q * x) * y;
    DoubleFactor(q, x * y);
  }

  /** The base address has the bits of the address up to the prefix, and zeros after it. */
  lemma BaseBits(a: IPAddress, p: nat, i: nat)
    requires p <= Width(a) && i < Width(a)
    ensures Bit(Base(a, p), i) <==> i < p && Bit(a, i)
  {
    hide Pow2, BitAnd, HighMask, BitAt;
    Fits(a);
    match a
    case V4(n) => MaskedBit(n, 32, p, i);
    case V6(b) =>
      MaskedBit(b[i / 8], 8, BitsInByte(p, i / 8), i % 8);
      assert Base(a, p).bytes[i / 8] == BitAnd(b[i / 8], MaskByte(p, i / 8));
  }

  /** An address is determined by its bits. */
  lemma BitsDetermine(a: IPAddress, b: IPAddress)
    requires SamePrefix(a, b, Width(a))
    ensures a == b
  {
    hide Pow2, BitAt;
    Fits(a);
    Fits(b);
    One();
    match a
    case V4(n) =>
      forall i: nat | i < 32 ensures BitAt(n, 32, i) == BitAt(b.value, 32, i) {
        assert Bit(a, i) == Bit(b, i);
      }
      PrefixIsQuotient(n, b.value, 32, 32);
    case V6(bytes) =>
      forall k: nat | k < 16 ensures bytes[k] == b.bytes[k] {
        forall i: nat | i < 8 ensures BitAt(bytes[k], 8, i) == BitAt(b.bytes[k], 8, i) {
          assert Bit(a, 8 * k + i) == Bit(b, 8 * k + i);
        }
        PrefixIsQuotient(bytes[k], b.bytes[k], 8, 8);
      }
  }

  /** Two addresses have the same base exactly when they agree on the prefix. */
  lemma SameBase(a: IPAddress, b: IPAddress, p: nat)
    requires p <= Width(a) && a.V4? == b.V4?
    ensures Base(a, p) == Base(b, p) <==> SamePrefix(a, b, p)
  {
    hide Base, Bit;
    BaseFamily(a, p);
    BaseFamily(b, p);
    if SamePrefix(a, b, p) {
      forall i: nat | i < Width(a) ensures Bit(Base(a, p), i) == Bit(Base(b, p), i) {
        BaseBits(a, p, i);
        BaseBits(b, p, i);
      }
      BitsDetermine(Base(a, p), Base(b, p));
    }
    if Base(a, p) == Base(b, p) {
      forall i: nat | i < p ensures Bit(a, i) == Bit(b, i) {
        BaseBits(a, p, i);
        BaseBits(b, p, i);
      }
    }
  }

  lemma BaseFamily(a: IPAddress, p: nat)
    requires p <= Width(a)
    ensures Base(a, p).V4? == a.V4?
  {
  }

  /** Taking a base twice is taking the shorter one. */
  lemma BaseOfBase(a: IPAddress, p: nat, q: nat)
    requires p <= Width(a) && q <= Width(a)
    ensures Width(Base(a, p)) == Width(a)
    ensures Base(Base(a, p), q) == Base(a, Min(p, q))
  {
    hide Base, Bit;
    BaseFamily(a, p);
    BaseFamily(a, Min(p, q));
    BaseFamily(Base(a, p), q);
    forall i: nat | i < Width(a) ensures Bit(Base(Base(a, p), q), i) == Bit(Base(a, Min(p, q)), i) {
      BaseBits(a, p, i);
      BaseBits(Base(a, p), q, i);
      BaseBits(a, Min(p, q), i);
    }
    BitsDetermine(Base(Base(a, p), q), Base(a, Min(p, q)));
  }

  /**
    Membership is agreement on the prefix, but only in a subnet whose base has no bits after the prefix; any other
    subnet has no members.
   */
  lemma Membership(s: SubNet, a: IPAddress)
    requires s.IsValid() && !a.IsUnspecified() && !a.IsLoopback()
    ensures Member(s, a) <==> SamePrefix(s.base, a, s.prefix) && Base(s.base, s.prefix) == s.base
  {
    hide Base, Bit, IPAddress.IsUnspecified, IPAddress.IsLoopback;
    if s.base.V4? == a.V4? {
      SameBase(s.base, a, s.prefix);
      BaseOfBase(a, s.prefix, s.prefix);
    }
  }

  /** 10.1.2.3/8 is a valid subnet without members, 10.1.2.3 itself included. */
  lemma NoMembers(a: IPAddress)
    ensures var s := SubNet(V4(0x0A01_0203), 8);
      s.IsValid() && SamePrefix(s.base, s.base, 8) && !Member(s, a)
  {
    hide Base, SamePrefix, IPAddress.IsUnspecified, IPAddress.IsLoopback;
    var s := SubNet(V4(0x0A01_0203), 8);
    TenSlashEight();
    assert s.base.IsValid() by { TenIsSpecified(); }
    assert SamePrefix(s.base, s.base, 8) by { SameBase(s.base, s.base, 8); }
    if s.base.V4? == a.V4? {
      BaseOfBase(a, 8, 8);
    }
  }

  lemma TenIsSpecified()
    ensures !V4(0x0A01_0203).IsUnspecified()
  {
  }

  lemma TenSlashEight()
    ensures Base(V4(0x0A01_0203), 8) != V4(0x0A01_0203)
  {
    Pow2Values();
    AndHighMask(0x0A01_0203, 32, 8);
    Pow2Add(8, 16);
  }

  /** How many bits are set in an octet that a subnet mask may have; nothing for other octets. */
  function OctetBits(octet: int): Option<nat> {
    match octet
    case 0 => Some(0)
    case 128 => Some(1)
    case 192 => Some(2)
    case 224 => Some(3)
    case 240 => Some(4)
    case 248 => Some(5)
    case 252 => Some(6)
    case 254 => Some(7)
    case 255 => Some(8)
    case _ => None
  }

  predicate AllZero(octets: seq<int>) {
    forall i | 0 <= i < |octets| :: octets[i] == 0
  }

  /** What the parser lets through: octets with leading ones only, and nothing but zeros after a zero. */
  predicate LooksLikeMask(octets: seq<int>) {
    octets == [] || (OctetBits(octets[0]).Some? && (octets[0] == 0 ==> AllZero(octets[1..]))
                     && LooksLikeMask(octets[1..]))
  }

  /** The prefix length the parser answers: the number of bits set. */
  function MaskBits(octets: seq<int>): (n: nat)
    requires LooksLikeMask(octets)
    ensures n <= 8 * |octets|
  {
    if octets == [] then 0 else OctetBits(octets[0]).value + MaskBits(octets[1..])
  }

  /** `parse_prefix_length` on the four octets of a dotted mask. */
  method ParseMask(octets: seq<int>) returns (r: Option<nat>)
    ensures LooksLikeMask(octets) ==> r == Some(MaskBits(octets))
    ensures !LooksLikeMask(octets) ==> r == None
  {
    hide OctetBits;
    var zeroFound := false;
    var sum := 0;
    var i := 0;
    assert octets[0..] == octets;
    while i < |octets|
      invariant 0 <= i <= |octets|
      invariant LooksLikeMask(octets) <==> LooksLikeMask(octets[i..]) && (zeroFound ==> AllZero(octets[i..]))
      invariant LooksLikeMask(octets) ==> MaskBits(octets) == sum + MaskBits(octets[i..])
    {
      ghost var rest := octets[i..];
      assert rest[1..] == octets[i + 1..];
      assert AllZero(rest) <==> rest[0] == 0 && AllZero(rest[1..]) by { AllZeroSplit(rest); }
      assert OctetBits(0) == Some(0) by { ZeroBits(); }
      var bits := OctetBits(octets[i]);
      if octets[i] == 0 {
        zeroFound := true;
      } else {
        if bits.None? || zeroFound { return None; }
        sum := sum + bits.value;
      }
      i := i + 1;
    }
    return Some(sum);
  }

  lemma ZeroBits()
    ensures OctetBits(0) == Some(0)
  {
  }

  lemma AllZeroSplit(octets: seq<int>)
    requires octets != []
    ensures AllZero(octets) <==> octets[0] == 0 && AllZero(octets[1..])
  {
    if octets[0] == 0 && AllZero(octets[1..]) {
      forall i | 0 <= i < |octets| ensures octets[i] == 0 {
        if i > 0 { assert octets[i] == octets[1..][i - 1]; }
      }
    }
    if AllZero(octets) {
      forall i | 0 <= i < |octets[1..]| ensures octets[1..][i] == 0 {
        assert octets[1..][i] == octets[i + 1];
      }
    }
  }

  /** The octets as one number, the first being the most significant. */
  function MaskValue(octets: seq<int>): int {
    if octets == [] then 0 else octets[0] * Pow2(8 * (|octets| - 1)) + MaskValue(octets[1..])
  }

  /** Full octets, then at most one partial octet, then zeros. */
  predicate Contiguous(octets: seq<int>) {
    octets == [] || AllZero(octets[1..]) || (octets[0] == 255 && Contiguous(octets[1..]))
  }

  lemma OctetIsMask(octet: int)
    requires OctetBits(octet).Some?
    ensures OctetBits(octet).value <= 8
    ensures octet == 256 - Pow2(8 - OctetBits(octet).value)
    ensures octet == 255 <==> OctetBits(octet).value == 8
  {
    assert Pow2(0) == 1 && Pow2(1) == 2 && Pow2(2) == 4 && Pow2(3) == 8 && Pow2(4) == 16;
    assert Pow2(5) == 32 && Pow2(6) == 64 && Pow2(7) == 128 && Pow2(8) == 256;
  }

  lemma {:induction false} ZeroMask(octets: seq<int>)
    requires LooksLikeMask(octets) && AllZero(octets)
    ensures MaskValue(octets) == 0 && MaskBits(octets) == 0
    decreases |octets|
  {
    if octets != [] {
      AllZeroSplit(octets);
      ZeroMask(octets[1..]);
    }
  }

  lemma SomeBits(octets: seq<int>)
    requires LooksLikeMask(octets) && !AllZero(octets)
    ensures MaskBits(octets) > 0
  {
    AllZeroSplit(octets);
  }

  lemma {:induction false} MaskValueBound(octets: seq<int>)
    requires LooksLikeMask(octets)
    ensures 0 <= MaskValue(octets) < Pow2(8 * |octets|)
    decreases |octets|
  {
    hide Pow2, OctetBits;
    if octets != [] {
      var k := Pow2(8 * (|octets| - 1));
      MaskValueBound(octets[1..]);
      OctetIsMask(octets[0]);
      Fits(V4(0));
      Pow2Add(8, 8 * (|octets| - 1));
      Pow2Monotone(8 - OctetBits(octets[0]).value, 8);
      MulLe(octets[0], 255, k);
      MulNonNegative(octets[0], k);
    }
  }

  /** The number of bits set is the prefix length of the mask exactly when the mask is contiguous. */
  lemma {:induction false} MaskIsPrefix(octets: seq<int>)
    requires LooksLikeMask(octets)
    ensures MaskValue(octets) == HighMask(8 * |octets|, MaskBits(octets)) <==> Contiguous(octets)
    decreases |octets|
  {
    hide Pow2, OctetBits;
    if octets == [] {
      One();
    } else {
      var rest := octets[1..];
      var w := 8 * |rest|;
      var c := OctetBits(octets[0]).value;
      OctetIsMask(octets[0]);
      Fits(V4(0));
      Pow2Add(8, w);
      if octets[0] == 255 {
        MaskIsPrefix(rest);
        assert HighMask(w + 8, 8 + MaskBits(rest)) == 255 * Pow2(w) + HighMask(w, MaskBits(rest));
        if AllZero(rest) { ZeroContiguous(rest); }
      } else if AllZero(rest) {
        ZeroMask(rest);
        Pow2Add(8 - c, w);
        assert octets[0] * Pow2(w) == 256 * Pow2(w) - Pow2(8 - c) * Pow2(w);
      } else {
        SomeBits(rest);
        MaskValueBound(rest);
        Pow2Add(8 - c, w);
        assert octets[0] * Pow2(w) == 256 * Pow2(w) - Pow2(8 - c) * Pow2(w);
        var n := MaskBits(octets);
        Pow2Monotone(w + 8 - n, w + 7 - c);
        Pow2Monotone(w, w + 7 - c);
        assert Pow2(w + 8 - c) == 2 * Pow2(w + 7 - c) by { Doubling(w + 7 - c); }
      }
    }
  }

  lemma Doubling(n: nat)
    ensures Pow2(n + 1) == 2 * Pow2(n)
  {
  }

  lemma ZeroContiguous(octets: seq<int>)
    requires AllZero(octets)
    ensures Contiguous(octets)
  {
    if octets != [] { AllZeroSplit(octets); }
  }

  /** 255.128.255.0 is let through, as a prefix of 17 bits. */
  lemma BrokenMask()
    ensures var octets := [255, 128, 255, 0];
      LooksLikeMask(octets) && MaskBits(octets) == 17 && !Contiguous(octets)
  {
    var octets := [255, 128, 255, 0];
    assert octets[1..] == [128, 255, 0] && [128, 255, 0][1..] == [255, 0] && [255, 0][1..] == [0] && [0][1..] == [];
    assert MaskBits([0]) == 0 && MaskBits([255, 0]) == 8 && MaskBits([128, 255, 0]) == 9;
    assert [128, 255, 0][0] != 0 && [255, 0][0] != 0;
  }
}
