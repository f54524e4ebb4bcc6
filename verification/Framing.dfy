/**
  Message framing on byte sequences (src/infra/network/message.cpp): the verdict of `validate` on what
  has been buffered, and the framing of a stream that does not depend on how the stream was cut.
 */
module Framing {
  import opened Common
  import opened Codec
  import opened Protocol
  import opened Chunks

  /** What two peers of one network share. `hash` is double SHA-256 of non-empty data. */
  datatype Net = Net(magic: Bytes4, version: int, hash: Bytes -> Bytes32)

  const EMPTY_HASH: Bytes := [
    0x5d, 0xf6, 0xe0, 0xe2, 0x76, 0x13, 0x59, 0xd3, 0x0a, 0x82, 0x75, 0x05, 0x8e, 0x29, 0x9f, 0xcc,
    0x03, 0x81, 0x53, 0x45, 0x45, 0xf5, 0x5c, 0xf4, 0x3e, 0x41, 0x98, 0x3f, 0x5d, 0x4c, 0x94, 0x56]

  /** The first four bytes of the digest; no data has a known digest. */
  function Checksum(net: Net, payload: Bytes): (c: Bytes)
    ensures |c| == 4
  {
    if payload == [] then EMPTY_HASH[..4] else net.hash(payload)[..4]
  }

  datatype Header = Header(magic: Bytes, command: Bytes, length: nat, checksum: Bytes)

  function ParseHeader(b: Bytes): Header
    requires |b| >= HEADER_LENGTH
  {
    Header(b[..4], b[4..16], FromLE(b[16..20]), b[20..24])
  }

  /** `MessageHeader::validate` */
  function CheckHeader(net: Net, h: Header): Result<MessageType> {
    var t := TypeOfCommand(h.command);
    var def := DefinitionOf(t);
    if h.magic != net.magic then Err(MessageHeaderInvalidMagic)
    else if t == MissingOrUnknown then Err(MessageHeaderIllegalCommand)
    else if h.length > MAX_MESSAGE_LENGTH then Err(MessageHeaderIllegalPayloadLength)
    else if def.minVersion.Some? && net.version < def.minVersion.value
      then Err(UnsupportedMessageTypeForProtocolVersion)
    else if def.maxVersion.Some? && net.version > def.maxVersion.value then Err(DeprecatedMessageTypeForProtocolVersion)
    else if h.length < (if def.minLength.Some? then def.minLength.value else 0)
            || h.length > (if def.maxLength.Some? then def.maxLength.value else MAX_MESSAGE_LENGTH)
      then Err(MessageHeaderIllegalPayloadLength)
    else if h.length == 0 && h.checksum != EMPTY_HASH[..4] then Err(MessageHeaderInvalidChecksum)
    else Ok(t)
  }

  /** In `getheaders` the count comes after a 4-byte version. */
  function CountOffset(def: Definition): nat {
    if def.kind == GetHeaders then 4 else 0
  }

  /** The payload length that `n` items call for; `getheaders` has one more for the stop hash. */
  function VectorLength(def: Definition, n: nat, size: nat): nat {
    CountOffset(def) + CompactSize(n) + n * size + if def.kind == GetHeaders then size else 0
  }

  /** `validate_payload_vector` on the part of the payload that has arrived: the position after the count. */
  function CheckVector(def: Definition, length: nat, payload: Bytes): Result<nat> {
    var offset := CountOffset(def);
    if |payload| < offset + 1 then Err(MessageBodyIncomplete)
    else match ReadCompact(payload[offset..])
      case Fail(e) => Err(if e == ReadOverflow then MessageBodyIncomplete else e)
      case Got(n, rest) =>
        if n == 0 then Err(MessagePayloadEmptyVector)
        else if n > (if def.maxItems.Some? then def.maxItems.value else MAX_COMPACT_SIZE)
          then Err(MessagePayloadOversizedVector)
        else if def.itemSize.Some? && length != VectorLength(def, n, def.itemSize.value)
          then Err(MessagePayloadLengthMismatchesVectorSize)
        else Ok(offset + CompactSize(n))
  }

  /** `validate_payload` on the part of the payload that has arrived. */
  function CheckPayload(net: Net, def: Definition, h: Header, payload: Bytes): Result<()> {
    var vector := if def.vectorized then CheckVector(def, h.length, payload) else Ok(0);
    if vector.Err? then Err(vector.error)
    else if |payload| != h.length then Err(MessageBodyIncomplete)
    else if def.vectorized && def.itemSize.Some? && vector.value <= |payload|
            && !AllDistinct(payload[vector.value..], def.itemSize.value)
      then Err(MessagePayloadDuplicateVectorItems)
    else if Checksum(net, payload) != h.checksum then Err(MessageHeaderInvalidChecksum)
    else Ok(())
  }

  /** The verdict of `validate` once `b` has been buffered. */
  function Judge(net: Net, b: Bytes): Result<()> {
    if |b| > MAX_MESSAGE_LENGTH then Err(MessageSizeOverflow)
    else if |b| < HEADER_LENGTH then Err(MessageHeaderIncomplete)
    else
      var h := ParseHeader(b);
      match CheckHeader(net, h)
      case Err(e) => Err(e)
      case Ok(t) => if h.length == 0 then Ok(()) else CheckPayload(net, DefinitionOf(t), h, b[HEADER_LENGTH..])
  }

  predicate Incomplete(r: Result<()>) {
    r == Err(MessageHeaderIncomplete) || r == Err(MessageBodyIncomplete)
  }

  /** What the front of a stream is: the start of a message, a broken message, or a whole one of `n` bytes. */
  datatype Front = More | Bad | Whole(n: nat)

  function Frame(net: Net, s: Bytes): Front {
    if |s| < HEADER_LENGTH then More
    else
      var h := ParseHeader(s);
      var n := HEADER_LENGTH + h.length;
      if CheckHeader(net, h).Err? then Bad
      else if |s| < n then (if Incomplete(Judge(net, s)) then More else Bad)
      else if Judge(net, s[..n]).Ok? then Whole(n)
      else Bad
  }

  /** Less than a header is always the start of a message. */
  lemma ShortIsMore(net: Net, b: Bytes)
    requires |b| < HEADER_LENGTH
    ensures Frame(net, b) == More
  {
  }

  /** Reading a compact size from a longer input gives the same, unless the shorter one was cut short. */
  lemma CompactExtends(s: Bytes, t: Bytes)
    ensures match ReadCompact(s)
      case Got(n, rest) => ReadCompact(s + t) == Got(n, rest + t)
      case Fail(e) => e == ReadOverflow || ReadCompact(s + t) == Fail(e)
  {
    if |s| >= 1 {
      assert (s + t)[..1] == s[..1];
      assert (s + t)[1..] == s[1..] + t;
      var s1 := s[1..];
      var prefix := FromLE(s[..1]);
      var w := if prefix == 253 then 2 else if prefix == 254 then 4 else 8;
      if prefix >= 253 && |s1| >= w {
        assert (s1 + t)[..w] == s1[..w];
        assert (s1 + t)[w..] == s1[w..] + t;
      }
    }
  }

  /** Nine bytes always hold a compact size. */
  lemma CompactFits(s: Bytes)
    requires |s| >= 9
    ensures ReadCompact(s) != Fail(ReadOverflow)
  {
  }

  /** A vector found wrong in part of a payload is wrong in all of it. */
  lemma VectorErrorPersists(def: Definition, length: nat, p: Bytes, t: Bytes)
    requires CheckVector(def, length, p).Err? && CheckVector(def, length, p).error != MessageBodyIncomplete
    ensures CheckVector(def, length, p + t) == CheckVector(def, length, p)
  {
    var offset := CountOffset(def);
    assert (p + t)[offset..] == p[offset..] + t;
    CompactExtends(p[offset..], t);
  }

  /** The minimum lengths of the definition table rule out "body incomplete" on a full payload. */
  lemma FullIsDecided(net: Net, b: Bytes)
    requires |b| >= HEADER_LENGTH && CheckHeader(net, ParseHeader(b)).Ok?
    requires |b| == HEADER_LENGTH + ParseHeader(b).length
    ensures !Incomplete(Judge(net, b))
  {
    hide TypeOfCommand;
    var h := ParseHeader(b);
    var t := CheckHeader(net, h).value;
    var def := DefinitionOf(t);
    var p := b[HEADER_LENGTH..];
    if h.length != 0 && def.vectorized {
      VectorMinimum(t);
      CompactFits(p[CountOffset(def)..]);
    }
  }

  /** A payload that is still short is never accepted. */
  lemma ShortIsNotWhole(net: Net, s: Bytes)
    requires |s| >= HEADER_LENGTH && |s| < HEADER_LENGTH + ParseHeader(s).length
    ensures Judge(net, s).Err?
  {
  }

  lemma SameHeader(s: Bytes, t: Bytes)
    requires |s| >= HEADER_LENGTH
    ensures ParseHeader(s + t) == ParseHeader(s)
  {
    assert (s + t)[..4] == s[..4];
    assert (s + t)[4..16] == s[4..16];
    assert (s + t)[16..20] == s[16..20];
    assert (s + t)[20..24] == s[20..24];
  }

  /** A verdict that is fatal before the payload is complete stays an error whatever follows. */
  lemma FatalPersists(net: Net, s: Bytes, t: Bytes)
    requires |s| >= HEADER_LENGTH && CheckHeader(net, ParseHeader(s)).Ok?
    requires |s| < HEADER_LENGTH + ParseHeader(s).length
    requires !Incomplete(Judge(net, s))
    ensures Judge(net, s + t).Err? && !Incomplete(Judge(net, s + t))
  {
    hide TypeOfCommand, DefinitionOf, AllDistinct;
    SameHeader(s, t);
    var h := ParseHeader(s);
    var def := DefinitionOf(CheckHeader(net, h).value);
    var p := s[HEADER_LENGTH..];
    assert (s + t)[HEADER_LENGTH..] == p + t;
    if |s| <= MAX_MESSAGE_LENGTH {
      VectorErrorPersists(def, h.length, p, t);
    }
  }

  /** A broken message stays broken, whatever follows. */
  lemma BadExtends(net: Net, s: Bytes, t: Bytes)
    requires Frame(net, s) == Bad
    ensures Frame(net, s + t) == Bad
  {
    hide CheckHeader, Judge;
    SameHeader(s, t);
    var n := HEADER_LENGTH + ParseHeader(s).length;
    if CheckHeader(net, ParseHeader(s)).Ok? {
      if |s| < n {
        if |s + t| < n {
          FatalPersists(net, s, t);
        } else {
          var m := n - |s|;
          assert (s + t)[..n] == s + t[..m];
          FatalPersists(net, s, t[..m]);
        }
      } else {
        assert (s + t)[..n] == s[..n];
      }
    }
  }

  /** A whole message stays whole, whatever follows. */
  lemma WholeExtends(net: Net, s: Bytes, t: Bytes)
    requires Frame(net, s).Whole?
    ensures Frame(net, s + t) == Frame(net, s)
    ensures HEADER_LENGTH <= Frame(net, s).n <= |s|
  {
    hide CheckHeader, Judge;
    SameHeader(s, t);
    var n := HEADER_LENGTH + ParseHeader(s).length;
    assert (s + t)[..n] == s[..n];
  }

  /** A message that is whole in a longer stream was not broken in a shorter one. */
  lemma MoreBeforeWhole(net: Net, s: Bytes, t: Bytes)
    requires Frame(net, s + t).Whole? && |s| < Frame(net, s + t).n
    ensures Frame(net, s) == More
  {
    if Frame(net, s) == Bad {
      BadExtends(net, s, t);
    }
    if Frame(net, s).Whole? {
      WholeExtends(net, s, t);
    }
  }

  /** Bytes after the end of a message play no part in its being whole. */
  lemma WholeShrinks(net: Net, s: Bytes, t: Bytes)
    requires Frame(net, s + t).Whole?
    ensures Frame(net, s + t).n <= |s| ==> Frame(net, s) == Frame(net, s + t)
  {
    hide CheckHeader, Judge;
    if |s| >= HEADER_LENGTH {
      SameHeader(s, t);
      var n := HEADER_LENGTH + ParseHeader(s).length;
      if n <= |s| {
        assert (s + t)[..n] == s[..n];
      }
    }
  }

  /** A message still being read is shorter than its header announces. */
  lemma MoreIsShort(net: Net, s: Bytes)
    requires Frame(net, s) == More && |s| >= HEADER_LENGTH
    ensures CheckHeader(net, ParseHeader(s)).Ok? && |s| < HEADER_LENGTH + ParseHeader(s).length
    ensures |s| <= MAX_MESSAGE_LENGTH
  {
    hide CheckHeader;
  }

  lemma HeaderLengthBound(net: Net, h: Header)
    requires CheckHeader(net, h).Ok?
    ensures h.length <= MAX_MESSAGE_LENGTH
  {
  }

  /** On a buffer that does not run past its message, the verdict of `validate` says what the front of the stream is. */
  lemma VerdictIsFront(net: Net, b: Bytes)
    requires |b| < HEADER_LENGTH || CheckHeader(net, ParseHeader(b)).Err?
             || |b| <= HEADER_LENGTH + ParseHeader(b).length
    ensures Judge(net, b).Ok? <==> Frame(net, b) == Whole(|b|)
    ensures Incomplete(Judge(net, b)) <==> Frame(net, b) == More
    ensures Frame(net, b).Whole? ==> Frame(net, b) == Whole(|b|)
  {
    hide CheckHeader, CheckPayload;
    if |b| >= HEADER_LENGTH {
      HeaderNotIncomplete(net, ParseHeader(b));
      if CheckHeader(net, ParseHeader(b)).Ok? {
        if |b| < HEADER_LENGTH + ParseHeader(b).length {
          ShortIsNotWhole(net, b);
        } else {
          FullIsDecided(net, b);
          assert b[..|b|] == b;
        }
      }
    }
  }

  lemma HeaderNotIncomplete(net: Net, h: Header)
    ensures CheckHeader(net, h) != Err(MessageHeaderIncomplete) && CheckHeader(net, h) != Err(MessageBodyIncomplete)
  {
  }

  /** An accepted fixed-size vector has 1 to `maxItems` items, exactly its declared length, and no repeated item. */
  lemma AcceptedVector(net: Net, b: Bytes)
    requires |b| >= HEADER_LENGTH && Judge(net, b).Ok?
    requires var def := DefinitionOf(CheckHeader(net, ParseHeader(b)).value);
      CheckHeader(net, ParseHeader(b)).Ok? && def.vectorized && def.itemSize.Some? && def.maxItems.Some?
    ensures var def := DefinitionOf(CheckHeader(net, ParseHeader(b)).value);
      var payload := b[HEADER_LENGTH..];
      var offset := CountOffset(def);
      && |payload| == ParseHeader(b).length
      && offset < |payload|
      && ReadCompact(payload[offset..]).Got?
      && var n := ReadCompact(payload[offset..]).value;
         && 1 <= n <= def.maxItems.value
         && |payload| == VectorLength(def, n, def.itemSize.value)
         && AllDistinct(ReadCompact(payload[offset..]).rest, def.itemSize.value)
  {
    var h := ParseHeader(b);
    var t := CheckHeader(net, h).value;
    var def := DefinitionOf(t);
    VectorMinimum(t);
    var p := b[HEADER_LENGTH..];
    var offset := CountOffset(def);
    var read := ReadCompact(p[offset..]);
    CompactCanonical(p[offset..], true);
    CompactRoundTrip(read.value, read.rest);
    assert p[offset..] == WriteCompact(read.value) + read.rest;
    assert p[offset + CompactSize(read.value)..] == read.rest;
  }

  /** The bytes of a message of type `t` with this payload, as `push` lays them out. */
  function Build(net: Net, t: MessageType, payload: Bytes): Bytes
    requires |payload| < 0x1_0000_0000
  {
    net.magic + (CommandField(t) + (LE(|payload|, 4) + (Checksum(net, payload) + payload)))
  }

  /** What the receiver reads in the header is what the sender put there. */
  lemma BuiltHeader(net: Net, t: MessageType, payload: Bytes)
    requires |payload| < 0x1_0000_0000 && t != MissingOrUnknown
    ensures |Build(net, t, payload)| == HEADER_LENGTH + |payload|
    ensures ParseHeader(Build(net, t, payload)) == Header(net.magic, CommandField(t), |payload|, Checksum(net, payload))
    ensures TypeOfCommand(ParseHeader(Build(net, t, payload)).command) == t
    ensures Build(net, t, payload)[HEADER_LENGTH..] == payload
  {
    hide CommandField, TypeOfCommand, Checksum, LE;
    var b := Build(net, t, payload);
    assert b[..4] == net.magic;
    assert b[4..16] == CommandField(t);
    assert b[16..20] == LE(|payload|, 4);
    assert b[20..24] == Checksum(net, payload);
    Pow256Values();
    FromLEOfLE(|payload|, 4);
    CommandRoundTrip(t);
  }

  /** A message that passes its own validation is framed whole by the peer, with whatever follows it left over. */
  lemma BuiltIsFramed(net: Net, t: MessageType, payload: Bytes, tail: Bytes)
    requires |payload| < 0x1_0000_0000 && t != MissingOrUnknown
    requires Judge(net, Build(net, t, payload)).Ok?
    ensures Frame(net, Build(net, t, payload) + tail) == Whole(|Build(net, t, payload)|)
    ensures CheckHeader(net, ParseHeader(Build(net, t, payload))) == Ok(t)
  {
    hide Build, CheckPayload, TypeOfCommand;
    var b := Build(net, t, payload);
    BuiltHeader(net, t, payload);
    VerdictIsFront(net, b);
    WholeExtends(net, b, tail);
  }
}
