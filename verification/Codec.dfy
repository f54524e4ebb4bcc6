/**
  The wire format: little-endian integers, compact sizes, strings and addresses, written as
  functions on byte sequences (src/core/serialization/serialize.hpp, stream.hpp).
 */
module Codec {
  import opened Common

  datatype Error =
    | InputTooLarge
    | ReadOverflow
    | NonCanonicalCompactSize
    | CompactSizeTooBig
    | StringTooBig
    | InvalidRejectionCode
    | InvalidInventoryType
    | MessageSizeOverflow
    | MessageHeaderIncomplete
    | MessageBodyIncomplete
    | MessageHeaderInvalidMagic
    | MessageHeaderIllegalCommand
    | MessageHeaderIllegalPayloadLength
    | MessageHeaderInvalidChecksum
    | MessagePayloadEmptyVector
    | MessagePayloadOversizedVector
    | MessagePayloadLengthMismatchesVectorSize
    | MessagePayloadDuplicateVectorItems
    | MessagePayloadExtraData
    | MessagePayLoadUnhandleable
    | MessageUnknownCommand
    | MessageWriteNotPermitted
    | MessagePushNotPermitted
    | UnsupportedMessageTypeForProtocolVersion
    | DeprecatedMessageTypeForProtocolVersion
    | DuplicateProtocolHandShake
    | InvalidProtocolHandShake
    | MessageFloodingDetected
    | MessagePayloadInvalidLastBlockHeight
    | MessagePayloadInvalidTimestamp
    | UnknownRejectedCommand
    | InvalidProtocolVersion
    | ConnectedToSelf
    | UnsolicitedPong
    | InvalidPingPongNonce

  datatype Result<+T> = Ok(value: T) | Err(error: Error) {
    predicate IsFailure() {
      Err?
    }

    function PropagateFailure<U>(): Result<U>
      requires Err?
    {
      Err(error)
    }

    function Extract(): T
      requires Ok?
    {
      value
    }
  }

  /** The outcome of reading from the front of a byte sequence: a value and what is left. */
  datatype Parsed<+T> = Got(value: T, rest: Bytes) | Fail(error: Error) {
    predicate IsFailure() {
      Fail?
    }

    function PropagateFailure<U>(): Parsed<U>
      requires Fail?
    {
      Fail(error)
    }

    function Extract(): (T, Bytes)
      requires Got?
    {
      (value, rest)
    }
  }

  const MAX_COMPACT_SIZE := 0x0200_0000
  const MAX_STREAM_SIZE := 512 * 1024 * 1024

  function Pow256(w: nat): (r: nat)
    ensures r >= 1
  {
    if w == 0 then 1 else 256 * Pow256(w - 1)
  }

  lemma Pow256Values()
    ensures Pow256(1) == 0x100 && Pow256(2) == 0x1_0000 && Pow256(4) == 0x1_0000_0000
    ensures Pow256(8) == 0x1_0000_0000_0000_0000
  {
    assert Pow256(2) == 0x1_0000;
    assert Pow256(4) == 256 * (256 * Pow256(2));
    assert Pow256(6) == 256 * (256 * Pow256(4));
    assert Pow256(8) == 256 * (256 * Pow256(6));
  }

  /** The `w` low bytes of `n`, least significant first. */
  function LE(n: nat, w: nat): (b: Bytes)
    ensures |b| == w
  {
    if w == 0 then [] else [n % 256] + LE(n / 256, w - 1)
  }

  function FromLE(b: Bytes): nat {
    if b == [] then 0 else b[0] + 256 * FromLE(b[1..])
  }

  lemma {:induction false} FromLEOfLE(n: nat, w: nat)
    requires n < Pow256(w)
    ensures FromLE(LE(n, w)) == n
    decreases w
  {
    if w > 0 {
      FromLEOfLE(n / 256, w - 1);
      assert LE(n, w)[1..] == LE(n / 256, w - 1);
    }
  }

  lemma {:induction false} LEOfFromLE(b: Bytes)
    ensures LE(FromLE(b), |b|) == b
    ensures FromLE(b) < Pow256(|b|)
    decreases |b|
  {
    if b != [] {
      LEOfFromLE(b[1..]);
      assert (b[0] + 256 * FromLE(b[1..])) / 256 == FromLE(b[1..]);
    }
  }

  /** Most significant byte first. */
  function BE(n: nat, w: nat): (b: Bytes)
    ensures |b| == w
  {
    if w == 0 then [] else BE(n / 256, w - 1) + [n % 256]
  }

  function FromBE(b: Bytes): nat {
    if b == [] then 0 else 256 * FromBE(b[..|b| - 1]) + b[|b| - 1]
  }

  lemma {:induction false} FromBEOfBE(n: nat, w: nat)
    requires n < Pow256(w)
    ensures FromBE(BE(n, w)) == n
    decreases w
  {
    if w > 0 {
      FromBEOfBE(n / 256, w - 1);
      assert BE(n, w)[..w - 1] == BE(n / 256, w - 1);
    }
  }

  lemma {:induction false} BEOfFromBE(b: Bytes)
    ensures BE(FromBE(b), |b|) == b
    ensures FromBE(b) < Pow256(|b|)
    decreases |b|
  {
    if b != [] {
      BEOfFromBE(b[..|b| - 1]);
      assert (256 * FromBE(b[..|b| - 1]) + b[|b| - 1]) / 256 == FromBE(b[..|b| - 1]);
    }
  }

  function ReadBytes(s: Bytes, n: nat): Parsed<Bytes> {
    if n > |s| then Fail(ReadOverflow) else Got(s[..n], s[n..])
  }

  function ReadUint(s: Bytes, w: nat): Parsed<nat> {
    var (b, rest) :- ReadBytes(s, w);
    Got(FromLE(b), rest)
  }

  /** Two's complement of width `8 * w`. */
  function ToUnsigned(n: int, w: nat): (r: int)
  {
    if n < 0 then n + Pow256(w) else n
  }

  function ToSigned(n: int, w: nat): int {
    if 2 * n >= Pow256(w) then n - Pow256(w) else n
  }

  predicate FitsSigned(n: int, w: nat) {
    0 <= 2 * n + Pow256(w) && 2 * n < Pow256(w)
  }

  function EncodeInt(n: int, w: nat): Bytes
    requires FitsSigned(n, w)
  {
    LE(ToUnsigned(n, w), w)
  }

  function ReadInt(s: Bytes, w: nat): Parsed<int> {
    var (n, rest) :- ReadUint(s, w);
    Got(ToSigned(n, w), rest)
  }

  /** `ser_compact_sizeof` */
  function CompactSize(v: nat): nat {
    if v < 253 then 1
    else if v <= 0xFFFF then 3
    else if v <= 0xFFFF_FFFF then 5
    else 9
  }

  /** `write_compact` */
  function WriteCompact(v: U64): (b: Bytes) {
    var size := CompactSize(v);
    if size == 1 then [v]
    else if size == 3 then [253] + LE(v, 2)
    else if size == 5 then [254] + LE(v, 4)
    else [255] + LE(v, 8)
  }

  /** `read_compact` */
  function ReadCompact(s: Bytes, rangeCheck: bool := true): Parsed<nat> {
    var (prefix, s1) :- ReadUint(s, 1);
    var (v, rest) :-
      if prefix < 253 then Got(prefix, s1)
      else if prefix == 253 then ReadCanonical(s1, 2, 253)
      else if prefix == 254 then ReadCanonical(s1, 4, 0x1_0000)
      else ReadCanonical(s1, 8, 0x1_0000_0000);
    if rangeCheck && v > MAX_COMPACT_SIZE then Fail(CompactSizeTooBig) else Got(v, rest)
  }

  /** A value that a shorter form could have carried is refused. */
  function ReadCanonical(s: Bytes, w: nat, least: nat): Parsed<nat> {
    var (v, rest) :- ReadUint(s, w);
    if v < least then Fail(NonCanonicalCompactSize) else Got(v, rest)
  }

  lemma ReadUintOf(n: nat, w: nat, tail: Bytes)
    requires n < Pow256(w)
    ensures ReadUint(LE(n, w) + tail, w) == Got(n, tail)
  {
    FromLEOfLE(n, w);
    assert (LE(n, w) + tail)[..w] == LE(n, w);
    assert (LE(n, w) + tail)[w..] == tail;
  }

  lemma ReadIntOf(n: int, w: nat, tail: Bytes)
    requires FitsSigned(n, w)
    ensures ReadInt(EncodeInt(n, w) + tail, w) == Got(n, tail)
  {
    ReadUintOf(ToUnsigned(n, w), w, tail);
  }

  lemma ReadBytesOf(b: Bytes, tail: Bytes)
    ensures ReadBytes(b + tail, |b|) == Got(b, tail)
  {
    assert (b + tail)[..|b|] == b;
    assert (b + tail)[|b|..] == tail;
  }

  /** Reading what was written gives the value and leaves the tail; the length is `CompactSize`. */
  lemma CompactRoundTrip(v: U64, tail: Bytes)
    ensures |WriteCompact(v)| == CompactSize(v)
    ensures ReadCompact(WriteCompact(v) + tail, false) == Got(v, tail)
    ensures ReadCompact(WriteCompact(v) + tail, true) ==
            if v > 0x0200_0000 then Fail(CompactSizeTooBig) else Got(v, tail)
  {
    Pow256Values();
    var size := CompactSize(v);
    var prefix: Byte := if size == 1 then v else if size == 3 then 253 else if size == 5 then 254 else 255;
    var body := if size == 1 then [] else LE(v, size - 1);
    assert LE(prefix, 1) == [prefix] + LE(prefix / 256, 0);
    assert WriteCompact(v) + tail == LE(prefix, 1) + (body + tail);
    ReadUintOf(prefix, 1, body + tail);
    if size == 1 {
      assert body + tail == tail;
    } else {
      ReadUintOf(v, size - 1, tail);
    }
  }

  /** Every accepted encoding is the one `write_compact` produces for its value. */
  lemma CompactCanonical(s: Bytes, rangeCheck: bool)
    requires ReadCompact(s, rangeCheck).Got?
    ensures var v := ReadCompact(s, rangeCheck).value;
      v < 0x1_0000_0000_0000_0000 && s == WriteCompact(v) + ReadCompact(s, rangeCheck).rest
  {
    Pow256Values();
    LEOfFromLE(s[..1]);
    assert FromLE(s[..1]) == s[0] + 256 * FromLE(s[..1][1..]);
    assert s == [s[0]] + s[1..];
    if s[0] >= 253 {
      var w := if s[0] == 253 then 2 else if s[0] == 254 then 4 else 8;
      LEOfFromLE(s[1..][..w]);
      assert s[1..] == s[1..][..w] + s[1..][w..];
    }
  }

  /** A string is its compact length and its bytes. */
  function EncodeString(b: Bytes): Bytes
    requires |b| < 0x1_0000_0000_0000_0000
  {
    WriteCompact(|b|) + b
  }

  function ReadString(s: Bytes): Parsed<Bytes> {
    var (n, s1) :- ReadCompact(s);
    ReadBytes(s1, n)
  }

  /** Strings up to the largest compact size survive; longer ones are refused by the reader. */
  lemma StringRoundTrip(b: Bytes, tail: Bytes)
    requires |b| < 0x1_0000_0000_0000_0000
    ensures ReadString(EncodeString(b) + tail) ==
            if |b| > MAX_COMPACT_SIZE then Fail(CompactSizeTooBig) else Got(b, tail)
  {
    CompactRoundTrip(|b|, b + tail);
    assert EncodeString(b) + tail == WriteCompact(|b|) + (b + tail);
    ReadBytesOf(b, tail);
  }

  function EncodeItems<T>(items: seq<T>, encode: T -> Bytes): Bytes {
    if items == [] then [] else encode(items[0]) + EncodeItems(items[1..], encode)
  }

  function ReadItems<T>(s: Bytes, n: nat, read: Bytes -> Parsed<T>): (r: Parsed<seq<T>>)
    ensures r.Got? ==> |r.value| == n
    decreases n
  {
    if n == 0 then Got([], s)
    else
      var (x, s1) :- read(s);
      var (xs, rest) :- ReadItems(s1, n - 1, read);
      Got([x] + xs, rest)
  }

  /** Items that round trip one by one round trip in sequence. */
  lemma {:induction false} ItemsRoundTrip<T(!new)>(items: seq<T>, encode: T -> Bytes, read: Bytes -> Parsed<T>,
                                                   tail: Bytes)
    requires forall x, t: Bytes | x in items :: read(encode(x) + t) == Got(x, t)
    ensures ReadItems(EncodeItems(items, encode) + tail, |items|, read) == Got(items, tail)
    decreases |items|
  {
    if items == [] {
      assert EncodeItems(items, encode) + tail == tail;
    } else {
      var after := EncodeItems(items[1..], encode) + tail;
      assert EncodeItems(items, encode) + tail == encode(items[0]) + after;
      assert read(encode(items[0]) + after) == Got(items[0], after);
      ItemsRoundTrip(items[1..], encode, read, tail);
      assert [items[0]] + items[1..] == items;
    }
  }

  lemma {:induction false} ItemsLength<T>(items: seq<T>, encode: T -> Bytes, size: nat)
    requires forall x | x in items :: |encode(x)| == size
    ensures |EncodeItems(items, encode)| == |items| * size
    decreases |items|
  {
    if items != [] {
      ItemsLength(items[1..], encode, size);
      assert (|items| - 1) * size + size == |items| * size;
    }
  }

  /** Every item read has what every single read has. */
  lemma {:induction false} ItemsRange<T>(s: Bytes, n: nat, read: Bytes -> Parsed<T>, p: T -> bool)
    requires forall t: Bytes | read(t).Got? :: p(read(t).value)
    requires ReadItems(s, n, read).Got?
    ensures forall x | x in ReadItems(s, n, read).value :: p(x)
    decreases n
  {
    if n > 0 {
      ItemsRange(read(s).rest, n - 1, read, p);
    }
  }
}
