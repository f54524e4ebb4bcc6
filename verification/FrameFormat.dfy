/**
  Which bytes are a message (src/infra/network/message.cpp, src/infra/network/protocol.hpp), stated over the bytes: the
  magic, the command, the length, the checksum, and for each type the lengths and vectors that it allows.
 */
module FrameFormat {
  import opened Common
  import opened Codec
  import opened Protocol
  import opened Chunks
  import opened Framing
  import opened WireFormat

  /** The command field of each type: its name in ASCII, filled up with zeros. */
  function CommandBytes(t: MessageType): Bytes {
    match t
    case Version => [0x76, 0x65, 0x72, 0x73, 0x69, 0x6F, 0x6E, 0, 0, 0, 0, 0]
    case VerAck => [0x76, 0x65, 0x72, 0x61, 0x63, 0x6B, 0, 0, 0, 0, 0, 0]
    case Inv => [0x69, 0x6E, 0x76, 0, 0, 0, 0, 0, 0, 0, 0, 0]
    case Addr => [0x61, 0x64, 0x64, 0x72, 0, 0, 0, 0, 0, 0, 0, 0]
    case Ping => [0x70, 0x69, 0x6E, 0x67, 0, 0, 0, 0, 0, 0, 0, 0]
    case Pong => [0x70, 0x6F, 0x6E, 0x67, 0, 0, 0, 0, 0, 0, 0, 0]
    case GetHeaders => [0x67, 0x65, 0x74, 0x68, 0x65, 0x61, 0x64, 0x65, 0x72, 0x73, 0, 0]
    case Headers => [0x68, 0x65, 0x61, 0x64, 0x65, 0x72, 0x73, 0, 0, 0, 0, 0]
    case GetAddr => [0x67, 0x65, 0x74, 0x61, 0x64, 0x64, 0x72, 0, 0, 0, 0, 0]
    case MemPool => [0x6D, 0x65, 0x6D, 0x70, 0x6F, 0x6F, 0x6C, 0, 0, 0, 0, 0]
    case Reject => [0x72, 0x65, 0x6A, 0x65, 0x63, 0x74, 0, 0, 0, 0, 0, 0]
    case GetData => [0x67, 0x65, 0x74, 0x64, 0x61, 0x74, 0x61, 0, 0, 0, 0, 0]
    case NotFound => [0x6E, 0x6F, 0x74, 0x66, 0x6F, 0x75, 0x6E, 0x64, 0, 0, 0, 0]
    case MissingOrUnknown => []
  }

  lemma TextIs(s: string, b: Bytes)
    requires |s| == |b| && forall i | 0 <= i < |s| :: s[i] as int == b[i]
    ensures Text(s) == b
  {
  }

  lemma PaddedIs(b: Bytes, zeros: Bytes)
    requires |b| + |zeros| == COMMAND_LENGTH && forall i | 0 <= i < |zeros| :: zeros[i] == 0
    ensures Padded(b) == b + zeros
  {
  }

  lemma Spelled(name: string, b: Bytes)
    requires |name| <= 12 == |b| && (forall i | 0 <= i < |name| :: name[i] as int == b[i])
    requires forall i | |name| <= i < 12 :: b[i] == 0
    ensures Padded(Text(name)) == b
  {
    TextIs(name, b[..|name|]);
    PaddedIs(b[..|name|], b[|name|..]);
    assert b[..|name|] + b[|name|..] == b;
  }

  lemma HandshakeCommands(t: MessageType)
    requires t in {Version, VerAck, Reject}
    ensures CommandField(t) == CommandBytes(t)
  {
    hide Text, Padded;
    match t
    case Version => Spelled("version", CommandBytes(t));
    case VerAck => Spelled("verack", CommandBytes(t));
    case Reject => Spelled("reject", CommandBytes(t));
  }

  lemma PingCommands(t: MessageType)
    requires t in {Ping, Pong, Addr, Inv}
    ensures CommandField(t) == CommandBytes(t)
  {
    hide Text, Padded;
    match t
    case Ping => Spelled("ping", CommandBytes(t));
    case Pong => Spelled("pong", CommandBytes(t));
    case Addr => Spelled("addr", CommandBytes(t));
    case Inv => Spelled("inv", CommandBytes(t));
  }

  lemma RequestCommands(t: MessageType)
    requires t in {GetAddr, GetData, MemPool}
    ensures CommandField(t) == CommandBytes(t)
  {
    hide Text, Padded;
    match t
    case GetAddr => Spelled("getaddr", CommandBytes(t));
    case GetData => Spelled("getdata", CommandBytes(t));
    case MemPool => Spelled("mempool", CommandBytes(t));
  }

  lemma OtherCommands(t: MessageType)
    requires t in {GetHeaders, Headers, NotFound}
    ensures CommandField(t) == CommandBytes(t)
  {
    hide Text, Padded;
    match t
    case GetHeaders => Spelled("getheaders", CommandBytes(t));
    case Headers => Spelled("headers", CommandBytes(t));
    case NotFound => Spelled("notfound", CommandBytes(t));
  }

  /** The table of definitions has these commands. */
  lemma CommandIs(t: MessageType)
    requires t != MissingOrUnknown
    ensures CommandField(t) == CommandBytes(t)
  {
    hide CommandField, CommandBytes;
    if t in {Version, VerAck, Reject} {
      HandshakeCommands(t);
    } else if t in {Ping, Pong, Addr, Inv} {
      PingCommands(t);
    } else if t in {GetAddr, GetData, MemPool} {
      RequestCommands(t);
    } else {
      OtherCommands(t);
    }
  }

  lemma {:induction false} MatchedLabel(command: Bytes, types: seq<MessageType>)
    requires FirstMatch(command, types) != MissingOrUnknown
    ensures command == Label(FirstMatch(command, types)) && FirstMatch(command, types) in types
    decreases |types|
  {
    hide Label;
    if types != [] && Label(types[0]) != command { MatchedLabel(command, types[1..]); }
  }

  /** A command is of a type exactly if it has these bytes. */
  lemma TypeIs(command: Bytes, t: MessageType)
    requires t != MissingOrUnknown
    ensures TypeOfCommand(command) == t <==> command == CommandBytes(t)
  {
    hide CommandBytes, CommandField, Label, FirstMatch, KnownTypes;
    CommandIs(t);
    CommandsAgree(t);
    CommandRoundTrip(t);
    if TypeOfCommand(command) == t { MatchedLabel(command, KnownTypes()); }
  }

  predicate IsVector(t: MessageType) {
    t in {Inv, GetData, NotFound, Addr, GetHeaders, Headers}
  }

  /** The vectors of each type: the bytes before the count, the most items, their size, and the items after the last. */
  function Before(t: MessageType): nat {
    if t == GetHeaders then 4 else 0
  }

  function MostItems(t: MessageType): nat {
    if t == Addr then 1000 else if t == GetHeaders then 2000 else if t == Headers then 160 else 50_000
  }

  function ItemSize(t: MessageType): nat {
    if t == Addr then 30 else if t == GetHeaders then 32 else 36
  }

  function Extra(t: MessageType): nat {
    if t == GetHeaders then 1 else 0
  }

  /** A payload with `k` items, all different and nothing after them; the items of `headers` are not looked at. */
  predicate HasItems(t: MessageType, p: Bytes, k: nat) {
    && 1 <= k <= MostItems(t)
    && CountAt(p, Before(t), k)
    && (t != Headers ==>
          && |p| == Before(t) + CountSize(k) + (k + Extra(t)) * ItemSize(t)
          && AllDistinct(p[Before(t) + CountSize(k)..], ItemSize(t)))
  }

  /** The payloads that framing lets through. */
  ghost predicate BodyAllowed(t: MessageType, p: Bytes) {
    match t
    case Version => 46 <= |p| <= 1024
    case VerAck => p == []
    case GetAddr => p == []
    case MemPool => p == []
    case Ping => |p| == 8
    case Pong => |p| == 8
    case Reject => 3 <= |p| <= 301
    case Headers => 141 <= |p| && exists k: nat :: HasItems(t, p, k)
    case _ => exists k: nat :: HasItems(t, p, k)
  }

  /** A whole message of type `t`. */
  ghost predicate Formed(net: Net, f: Bytes, t: MessageType) {
    && t != MissingOrUnknown
    && 24 <= |f| <= 0x40_0000
    && f[..4] == net.magic
    && f[4..16] == CommandBytes(t)
    && Little32(f, 16) == |f| - 24
    && f[20..24] == (if |f| == 24 then [0x5D, 0xF6, 0xE0, 0xE2] else net.hash(f[24..])[..4])
    && BodyAllowed(t, f[24..])
  }

  /** The lengths that the header may announce. */
  predicate LengthAllowed(t: MessageType, n: nat) {
    match t
    case Version => 46 <= n <= 1024
    case VerAck => n == 0
    case GetAddr => n == 0
    case MemPool => n == 0
    case Ping => n == 8
    case Pong => n == 8
    case Reject => 3 <= n <= 301
    case Addr => 31 <= n <= 3 + 30 * 1000
    case GetHeaders => 69 <= n <= 4 + 3 + 32 * 2001
    case Headers => 141 <= n <= 0x40_0000
    case _ => 37 <= n <= 3 + 36 * 50_000
  }

  lemma HeaderExactly(net: Net, h: Header, t: MessageType)
    requires t != MissingOrUnknown
    ensures CheckHeader(net, h) == Ok(t) <==>
      && h.magic == net.magic && h.command == CommandBytes(t) && LengthAllowed(t, h.length)
      && (h.length == 0 ==> h.checksum == [0x5D, 0xF6, 0xE0, 0xE2])
  {
    hide CommandBytes, TypeOfCommand;
    TypeIs(h.command, t);
    assert EMPTY_HASH[..4] == [0x5D, 0xF6, 0xE0, 0xE2];
  }

  /** A compact size of up to four bytes, written out. */
  lemma CountWritten(p: Bytes, i: int, k: nat)
    requires k <= 0xFFFF_FFFF && CountAt(p, i, k)
    ensures At(p, i, WriteCompact(k)) && |WriteCompact(k)| == CountSize(k)
  {
    hide LE, FromLE, Little16, Little32;
    if k <= 252 {
      assert p[i..i + 1] == [k];
    } else {
      var w := if k <= 0xFFFF then 2 else 4;
      var field := p[i + 1..i + 1 + w];
      LEOfFromLE(field);
      Pow256Values();
      assert At(p, i + 1, field);
      if w == 2 { Little16At(p, i + 1, FromLE(field)); } else { Little32At(p, i + 1, FromLE(field)); }
      assert p[i..i + 1 + w] == [p[i]] + field;
    }
  }

  /** Reading a count is finding it there. */
  lemma CountReads(p: Bytes, i: nat, k: nat)
    requires k <= 0x0200_0000 && i <= |p|
    ensures CountAt(p, i, k) <==> ReadCompact(p[i..]).Got? && ReadCompact(p[i..]).value == k
    ensures CountAt(p, i, k) ==> CompactSize(k) == CountSize(k)
  {
    hide WriteCompact, ReadCompact, CountAt, At;
    if CountAt(p, i, k) {
      CountWritten(p, i, k);
      CountRest(p, i, k);
      CompactRoundTrip(k, p[i + CountSize(k)..]);
    }
    var r := ReadCompact(p[i..]);
    if r.Got? && r.value == k {
      CompactCanonical(p[i..], true);
      AtFront(WriteCompact(k), r.rest);
      AtSuffix(p, i, WriteCompact(k));
      CountLayout(p, i, k);
    }
  }

  lemma CountRest(p: Bytes, i: nat, k: nat)
    requires k <= 0xFFFF_FFFF && At(p, i, WriteCompact(k)) && |WriteCompact(k)| == CountSize(k)
    ensures i + CountSize(k) <= |p| && p[i..] == WriteCompact(k) + p[i + CountSize(k)..]
  {
    hide WriteCompact;
  }

  lemma AtSuffix(p: Bytes, i: nat, part: Bytes)
    requires i <= |p| && At(p[i..], 0, part)
    ensures At(p, i, part)
  {
    assert p[i..i + |part|] == p[i..][0..|part|];
  }

  lemma VectorDefinition(t: MessageType)
    requires IsVector(t)
    ensures var def := DefinitionOf(t);
      && def.kind == t && def.vectorized && CountOffset(def) == Before(t) && def.maxItems == Some(MostItems(t))
      && def.itemSize == (if t == Headers then None else Some(ItemSize(t)))
  {
  }

  predicate RightLength(t: MessageType, p: Bytes, k: nat) {
    t == Headers || |p| == Before(t) + CountSize(k) + (k + Extra(t)) * ItemSize(t)
  }

  /** The verdict on a vector whose count is `k`. */
  lemma VectorVerdict(t: MessageType, p: Bytes, k: nat)
    requires IsVector(t) && LengthAllowed(t, |p|)
    requires ReadCompact(p[Before(t)..]).Got? && ReadCompact(p[Before(t)..]).value == k
    ensures CheckVector(DefinitionOf(t), |p|, p) ==
      if k == 0 then Err(MessagePayloadEmptyVector)
      else if k > MostItems(t) then Err(MessagePayloadOversizedVector)
      else if !RightLength(t, p, k) then Err(MessagePayloadLengthMismatchesVectorSize)
      else Ok(Before(t) + CountSize(k))
  {
    hide DefinitionOf, ReadCompact;
    VectorDefinition(t);
    assert (k + Extra(t)) * ItemSize(t) == k * ItemSize(t) + Extra(t) * ItemSize(t);
  }

  lemma UnreadVector(t: MessageType, p: Bytes)
    requires IsVector(t) && LengthAllowed(t, |p|) && ReadCompact(p[Before(t)..]).Fail?
    ensures var v := CheckVector(DefinitionOf(t), |p|, p);
      v.Err? && v.error in {MessageBodyIncomplete, NonCanonicalCompactSize, CompactSizeTooBig}
  {
    hide DefinitionOf, ReadCompact;
    VectorDefinition(t);
    CompactErrors(p[Before(t)..]);
  }

  lemma CountBound(s: Bytes)
    requires ReadCompact(s).Got?
    ensures ReadCompact(s).value <= 0x0200_0000
  {
    hide ReadCanonical, FromLE;
  }

  /** The check of a vector, over the bytes of a payload of the announced length. */
  lemma VectorExactly(t: MessageType, p: Bytes)
    requires IsVector(t) && LengthAllowed(t, |p|)
    ensures var v := CheckVector(DefinitionOf(t), |p|, p);
      (v.Ok? && (t != Headers ==> v.value <= |p| && AllDistinct(p[v.value..], ItemSize(t)))) <==>
        exists k: nat :: HasItems(t, p, k)
  {
    hide AllDistinct, ReadCompact, CountAt, CheckVector, DefinitionOf, CountSize;
    var v := CheckVector(DefinitionOf(t), |p|, p);
    var read := ReadCompact(p[Before(t)..]);
    if read.Fail? { UnreadVector(t, p); }
    if v.Ok? && (t != Headers ==> v.value <= |p| && AllDistinct(p[v.value..], ItemSize(t))) {
      VectorVerdict(t, p, read.value);
      CountBound(p[Before(t)..]);
      CountReads(p, Before(t), read.value);
      assert HasItems(t, p, read.value);
    }
    if k: nat :| HasItems(t, p, k) {
      CountReads(p, Before(t), k);
      VectorVerdict(t, p, k);
    }
  }

  /** The lengths of the vectors that are allowed are those the header may announce. */
  lemma ItemsFit(t: MessageType, p: Bytes, k: nat)
    requires IsVector(t) && t != Headers && HasItems(t, p, k)
    ensures LengthAllowed(t, |p|)
  {
    hide AllDistinct, CountAt;
  }

  lemma BodyFits(t: MessageType, p: Bytes)
    requires t != MissingOrUnknown && BodyAllowed(t, p) && |p| <= 0x40_0000
    ensures LengthAllowed(t, |p|)
  {
    hide HasItems;
    if IsVector(t) && t != Headers {
      var k: nat :| HasItems(t, p, k);
      ItemsFit(t, p, k);
    }
  }

  lemma VectorInside(t: MessageType, p: Bytes)
    requires IsVector(t) && t != Headers && LengthAllowed(t, |p|)
    ensures var v := CheckVector(DefinitionOf(t), |p|, p); v.Ok? ==> v.value <= |p|
  {
    hide ReadCompact, CheckVector, DefinitionOf;
    var read := ReadCompact(p[Before(t)..]);
    if read.Got? { VectorVerdict(t, p, read.value); } else { UnreadVector(t, p); }
  }

  /** The check of a complete payload that is not empty. */
  lemma PayloadExactly(net: Net, t: MessageType, h: Header, p: Bytes)
    requires t != MissingOrUnknown && |p| == h.length > 0 && LengthAllowed(t, |p|)
    ensures CheckPayload(net, DefinitionOf(t), h, p).Ok? <==> h.checksum == net.hash(p)[..4] && BodyAllowed(t, p)
  {
    hide AllDistinct, CheckVector, HasItems;
    if IsVector(t) {
      VectorExactly(t, p);
      if t != Headers { VectorInside(t, p); }
    }
  }

  /** The verdict on as many bytes as the header announces. */
  lemma JudgedExactly(net: Net, f: Bytes, t: MessageType)
    requires t != MissingOrUnknown && |f| >= 24 && |f| == 24 + ParseHeader(f).length
    ensures CheckHeader(net, ParseHeader(f)) == Ok(t) && Judge(net, f).Ok? <==> Formed(net, f, t)
  {
    hide CheckHeader, CheckPayload, DefinitionOf, BodyAllowed, CommandBytes, FromLE, LengthAllowed;
    var h := ParseHeader(f);
    HeaderExactly(net, h, t);
    LengthField(f);
    if f[24..] == [] {
      EmptyBody(t);
    } else if LengthAllowed(t, h.length) {
      PayloadExactly(net, t, h, f[24..]);
    }
    if Formed(net, f, t) { BodyFits(t, f[24..]); }
  }

  lemma EmptyBody(t: MessageType)
    requires t != MissingOrUnknown
    ensures BodyAllowed(t, []) <==> LengthAllowed(t, 0)
  {
  }

  lemma LengthField(f: Bytes)
    requires |f| >= 24
    ensures ParseHeader(f).length == Little32(f, 16)
  {
    hide LE, FromLE, Little32;
    var field := f[16..20];
    LEOfFromLE(field);
    Pow256Values();
    assert At(f, 16, field);
    Little32At(f, 16, FromLE(field));
  }

  /** What the front of a stream is a whole message of `n` bytes exactly if those bytes are formed as one. */
  lemma WholeExactly(net: Net, s: Bytes, n: nat)
    ensures Frame(net, s) == Whole(n) <==> 24 <= n <= |s| && exists t :: Formed(net, s[..n], t)
  {
    hide CheckHeader, Judge, Formed;
    if Frame(net, s) == Whole(n) {
      FrontHeader(s, n);
      var t := CheckHeader(net, ParseHeader(s)).value;
      HeaderKnown(net, ParseHeader(s));
      JudgedExactly(net, s[..n], t);
    }
    if 24 <= n <= |s| && exists t :: Formed(net, s[..n], t) {
      var t :| Formed(net, s[..n], t);
      FormedLength(net, s[..n], t);
      FrontHeader(s, n);
      JudgedExactly(net, s[..n], t);
    }
  }

  lemma FrontHeader(s: Bytes, n: nat)
    requires 24 <= n <= |s|
    ensures ParseHeader(s[..n]) == ParseHeader(s)
  {
    SameHeader(s[..n], s[n..]);
    assert s[..n] + s[n..] == s;
  }

  lemma HeaderKnown(net: Net, h: Header)
    requires CheckHeader(net, h).Ok?
    ensures CheckHeader(net, h).value != MissingOrUnknown
  {
    hide TypeOfCommand, DefinitionOf;
  }

  lemma FormedLength(net: Net, f: Bytes, t: MessageType)
    requires Formed(net, f, t)
    ensures t != MissingOrUnknown && |f| >= 24 && |f| == 24 + ParseHeader(f).length
  {
    hide BodyAllowed, CommandBytes, FromLE, Little32;
    LengthField(f);
  }

  /** Why a complete message is refused, up to its payload. */
  lemma HeaderRefused(net: Net, f: Bytes)
    requires 24 <= |f| <= 0x40_0000 && |f| == 24 + ParseHeader(f).length
    ensures Judge(net, f) == Err(MessageHeaderInvalidMagic) <==> f[..4] != net.magic
    ensures Judge(net, f) == Err(MessageHeaderIllegalCommand) <==>
      f[..4] == net.magic && forall t | t != MissingOrUnknown :: f[4..16] != CommandBytes(t)
    ensures Judge(net, f) == Err(MessageHeaderIllegalPayloadLength) <==>
      f[..4] == net.magic
      && exists t :: t != MissingOrUnknown && f[4..16] == CommandBytes(t) && !LengthAllowed(t, |f| - 24)
  {
    hide CommandBytes, TypeOfCommand, CheckPayload, FromLE;
    forall t | t != MissingOrUnknown ensures TypeOfCommand(f[4..16]) == t <==> f[4..16] == CommandBytes(t) {
      TypeIs(f[4..16], t);
    }
    var known := TypeOfCommand(f[4..16]);
    assert known != MissingOrUnknown ==> f[4..16] == CommandBytes(known);
    PayloadErrors(net, f);
  }

  lemma PayloadErrors(net: Net, f: Bytes)
    requires |f| >= 24
    ensures var h := ParseHeader(f);
      CheckHeader(net, h).Ok? ==>
        var r := CheckPayload(net, DefinitionOf(CheckHeader(net, h).value), h, f[24..]);
        r != Err(MessageHeaderInvalidMagic) && r != Err(MessageHeaderIllegalCommand)
        && r != Err(MessageHeaderIllegalPayloadLength)
  {
    hide CheckHeader, AllDistinct, CheckVector, DefinitionOf;
    var h := ParseHeader(f);
    if CheckHeader(net, h).Ok? {
      VectorErrors(DefinitionOf(CheckHeader(net, h).value), h.length, f[24..]);
    }
  }

  lemma ChecksumLast(net: Net, t: MessageType, h: Header, p: Bytes)
    requires t != MissingOrUnknown && |p| == h.length > 0 && LengthAllowed(t, |p|)
    ensures CheckPayload(net, DefinitionOf(t), h, p) == Err(MessageHeaderInvalidChecksum) <==>
            h.checksum != net.hash(p)[..4] && BodyAllowed(t, p)
  {
    hide AllDistinct, CheckVector, HasItems;
    if IsVector(t) {
      VectorExactly(t, p);
      if t != Headers { VectorInside(t, p); }
      VectorErrors(DefinitionOf(t), |p|, p);
    }
  }

  lemma VectorErrors(def: Definition, length: nat, p: Bytes)
    ensures var v := CheckVector(def, length, p);
      v.Err? ==> v.error in {MessageBodyIncomplete, NonCanonicalCompactSize, CompactSizeTooBig,
                             MessagePayloadEmptyVector, MessagePayloadOversizedVector,
                               MessagePayloadLengthMismatchesVectorSize}
  {
    hide ReadCompact;
    if |p| > CountOffset(def) { CompactErrors(p[CountOffset(def)..]); }
  }

  lemma CompactErrors(s: Bytes)
    ensures ReadCompact(s).Fail? ==> ReadCompact(s).error in {ReadOverflow, NonCanonicalCompactSize, CompactSizeTooBig}
  {
    hide FromLE;
  }

  /** With a payload, the header is never refused for its checksum. */
  lemma HeaderErrors(net: Net, h: Header)
    requires h.length > 0
    ensures CheckHeader(net, h) != Err(MessageHeaderInvalidChecksum)
    ensures CheckHeader(net, h).Ok? ==> CheckHeader(net, h).value == TypeOfCommand(h.command)
  {
    hide TypeOfCommand, DefinitionOf;
  }

  /** A complete message is refused for its checksum exactly if that is all that is wrong with it. */
  lemma ChecksumRefused(net: Net, f: Bytes, t: MessageType)
    requires 24 < |f| <= 0x40_0000 && |f| == 24 + ParseHeader(f).length && t != MissingOrUnknown
    requires f[4..16] == CommandBytes(t)
    ensures Judge(net, f) == Err(MessageHeaderInvalidChecksum) <==>
      f[20..24] != net.hash(f[24..])[..4] && Formed(net, f[..20] + net.hash(f[24..])[..4] + f[24..], t)
  {
    hide CommandBytes, CheckHeader, CheckPayload, DefinitionOf, BodyAllowed, FromLE, LengthAllowed, TypeOfCommand;
    var h := ParseHeader(f);
    HeaderExactly(net, h, t);
    var sum := net.hash(f[24..])[..4];
    var g := f[..20] + sum + f[24..];
    assert |g| == |f| && g[..4] == f[..4] && g[4..16] == f[4..16] && g[16..20] == f[16..20] && g[20..24] == sum
           && g[24..] == f[24..];
    LengthField(f);
    LengthField(g);
    if LengthAllowed(t, h.length) { ChecksumLast(net, t, h, f[24..]); }
    if Formed(net, g, t) { BodyFits(t, g[24..]); }
    HeaderErrors(net, h);
    TypeIs(h.command, t);
  }

  /** Why a complete payload with a vector is refused, but for its checksum. */
  lemma ItemsRefused(net: Net, t: MessageType, h: Header, p: Bytes)
    requires IsVector(t) && |p| == h.length && LengthAllowed(t, |p|)
    ensures var r := CheckPayload(net, DefinitionOf(t), h, p);
      && (r == Err(MessagePayloadEmptyVector) <==> CountAt(p, Before(t), 0))
      && (r == Err(MessagePayloadOversizedVector) <==>
            exists k: nat :: MostItems(t) < k <= 0x0200_0000 && CountAt(p, Before(t), k))
      && (r == Err(MessagePayloadLengthMismatchesVectorSize) <==>
            exists k: nat :: 1 <= k <= MostItems(t) && CountAt(p, Before(t), k) && !RightLength(t, p, k))
      && (r == Err(MessagePayloadDuplicateVectorItems) <==>
            exists k: nat ::
              && 1 <= k <= MostItems(t) && CountAt(p, Before(t), k) && RightLength(t, p, k)
              && t != Headers && !AllDistinct(p[Before(t) + CountSize(k)..], ItemSize(t)))
  {
    hide AllDistinct, CheckVector, ReadCompact, DefinitionOf, CountAt, CountSize;
    VectorDefinition(t);
    var read := ReadCompact(p[Before(t)..]);
    forall k: nat | k <= 0x0200_0000 ensures CountAt(p, Before(t), k) <==> read.Got? && read.value == k {
      CountReads(p, Before(t), k);
    }
    if read.Fail? {
      UnreadVector(t, p);
    } else {
      CountBound(p[Before(t)..]);
      VectorVerdict(t, p, read.value);
      assert CountAt(p, Before(t), read.value);
    }
  }
}
