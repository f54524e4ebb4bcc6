/**
  `Message`: the incremental reader and the writer of one network message
  (src/infra/network/message.cpp), proved against Framing.
 */
module Messages {
  import opened Common
  import opened Codec
  import opened Protocol
  import opened Chunks
  import opened Framing
  import opened Stream
  import opened Serialization
  import opened PayloadTypes

  class Message {
    const net: Net
    const stream: DataStream
    var header: Header
    var kind: MessageType
    var headerValidated: bool
    var payloadValidated: bool

    /** The header fields are those of the buffer, they have passed validation, and the cursor is at the payload. */
    ghost predicate HeaderRead()
      reads this, stream
    {
      && |stream.buffer| >= HEADER_LENGTH
      && header == ParseHeader(stream.buffer)
      && CheckHeader(net, header) == Ok(kind)
      && stream.pos == HEADER_LENGTH
    }

    /** A message that has not failed: waiting for its header, for its payload, or complete. */
    ghost predicate Valid()
      reads this, stream
    {
      && stream.Valid()
      && (!headerValidated ==> !payloadValidated && |stream.buffer| < HEADER_LENGTH && stream.pos == 0)
      && (headerValidated ==> HeaderRead())
      && (headerValidated && !payloadValidated ==> Frame(net, stream.buffer) == More)
      && (payloadValidated ==> headerValidated && Frame(net, stream.buffer) == Whole(|stream.buffer|))
    }

    predicate IsComplete()
      reads this
    {
      headerValidated && payloadValidated
    }

    constructor (net: Net)
      ensures Valid() && fresh(stream) && stream.buffer == [] && !IsComplete()
      ensures this.net == net && Pristine()
    {
      this.net := net;
      this.stream := new DataStream([]);
      header, kind := Header([0, 0, 0, 0], seq(12, i => 0), 0, [0, 0, 0, 0]), MissingOrUnknown;
      headerValidated, payloadValidated := false, false;
    }

    predicate Pristine()
      reads this
    {
      header == Header([0, 0, 0, 0], seq(12, i => 0), 0, [0, 0, 0, 0]) && kind == MissingOrUnknown
    }

    /** `MessageHeader::serialization`, reading from the start of the buffer; the reads cannot fall short. */
    method ReadHeader()
      requires stream.Valid() && stream.pos == 0 && |stream.buffer| >= HEADER_LENGTH
      modifies this`header, stream`pos
      ensures stream.Valid() && stream.pos == HEADER_LENGTH
      ensures header == ParseHeader(stream.buffer)
    {
      var b := stream.buffer;
      var magic := stream.Read(Some(4));
      assert b[0..][..4] == b[..4] && b[0..][4..] == b[4..] && stream.pos == 4;
      var command := stream.Read(Some(12));
      assert b[4..][..12] == b[4..16] && b[4..][12..] == b[16..] && stream.pos == 16;
      var length := GetUint(stream, 4);
      assert b[16..][..4] == b[16..20] && b[16..][4..] == b[20..] && stream.pos == 20;
      var checksum := stream.Read(Some(4));
      assert b[20..][..4] == b[20..24] && b[20..][4..] == b[24..];
      header := Header(magic.value, command.value, length.value, checksum.value);
    }

    /** `validate_header` */
    method ValidateHeader() returns (r: Result<()>)
      requires stream.Valid()
      requires if headerValidated then HeaderRead() else stream.pos == 0
      modifies this`header, this`kind, this`headerValidated, this`payloadValidated, stream`pos
      ensures stream.Valid()
      ensures old(headerValidated) ==> r.Ok? && headerValidated && HeaderRead()
      ensures old(headerValidated) ==> payloadValidated == old(payloadValidated)
      ensures !old(headerValidated) && |stream.buffer| < HEADER_LENGTH ==>
                r == Err(MessageHeaderIncomplete) && !headerValidated && stream.pos == 0
                && payloadValidated == old(payloadValidated) && header == old(header) && kind == old(kind)
      ensures !old(headerValidated) && |stream.buffer| >= HEADER_LENGTH ==>
                match CheckHeader(net, ParseHeader(stream.buffer))
                case Err(e) => r == Err(e) && !headerValidated
                case Ok(t) => r.Ok? && headerValidated && HeaderRead() && payloadValidated == (header.length == 0)
    {
      hide CheckHeader;
      if headerValidated { return Ok(()); }
      if |stream.buffer| < HEADER_LENGTH { return Err(MessageHeaderIncomplete); }
      ReadHeader();
      kind := TypeOfCommand(header.command);
      var verdict := CheckHeader(net, header);
      if verdict.Err? { return Err(verdict.error); }
      HeaderKind(net, header);
      headerValidated := true;
      payloadValidated := header.length == 0;
      return Ok(());
    }

    /** `validate_payload_vector`: on success the cursor is after the count. */
    method ValidateVector(def: Definition) returns (r: Result<()>)
      requires stream.Valid() && HeaderRead()
      modifies stream`pos
      ensures stream.Valid()
      ensures match CheckVector(def, header.length, stream.buffer[HEADER_LENGTH..])
        case Err(e) => r == Err(e)
        case Ok(at) => r.Ok? && stream.pos == HEADER_LENGTH + at
    {
      hide CheckHeader, ReadCompact;
      var payload := stream.buffer[HEADER_LENGTH..];
      var offset := CountOffset(def);
      var position := HEADER_LENGTH + offset;
      var at := stream.Seek(position);
      if at != position || |stream.buffer| - stream.pos < 1 { return Err(MessageBodyIncomplete); }
      assert stream.Unread() == payload[offset..];
      var n := GetCompact(stream, true);
      if n.Err? { return Err(if n.error == ReadOverflow then MessageBodyIncomplete else n.error); }
      CompactWidth(payload[offset..]);
      if n.value == 0 { return Err(MessagePayloadEmptyVector); }
      if n.value > (if def.maxItems.Some? then def.maxItems.value else MAX_COMPACT_SIZE) {
        return Err(MessagePayloadOversizedVector);
      }
      if def.itemSize.Some? {
        var expected := n.value * def.itemSize.value;
        if def.kind == GetHeaders { expected := expected + def.itemSize.value; }
        expected := expected + CompactSize(n.value);
        if header.length != expected + offset { return Err(MessagePayloadLengthMismatchesVectorSize); }
      }
      return Ok(());
    }

    /** `validate_payload` */
    method ValidatePayload() returns (r: Result<()>)
      requires stream.Valid() && headerValidated && !payloadValidated && HeaderRead()
      modifies this`payloadValidated, stream`pos
      ensures stream.Valid() && stream.pos == HEADER_LENGTH
      ensures r == CheckPayload(net, DefinitionOf(kind), header, stream.buffer[HEADER_LENGTH..])
      ensures payloadValidated == r.Ok?
    {
      hide CheckHeader, CheckVector, AllDistinct, DefinitionOf, Repeats;
      var payload := stream.buffer[HEADER_LENGTH..];
      var incomplete := |payload| != header.length;
      var def := DefinitionOf(kind);
      if def.vectorized {
        r := ValidateVector(def);
        if r.Err? {
          stream.pos := HEADER_LENGTH;
          return;
        }
        if !incomplete && def.itemSize.Some? {
          ghost var at := CheckVector(def, header.length, payload).value;
          assert at <= |payload| && stream.Unread() == payload[at..];
          var items := stream.Read(None);
          assert items.value == payload[at..];
          NoRepeats(items.value, def.itemSize.value);
          var duplicates := CountDuplicates(items.value, def.itemSize.value, 1);
          if duplicates > 0 {
            stream.pos := HEADER_LENGTH;
            return Err(MessagePayloadDuplicateVectorItems);
          }
        }
      }
      stream.pos := HEADER_LENGTH;
      if incomplete { return Err(MessageBodyIncomplete); }
      if Checksum(net, payload) != header.checksum { return Err(MessageHeaderInvalidChecksum); }
      payloadValidated := true;
      return Ok(());
    }

    /** `validate`: the verdict is that of Judge on the buffer. */
    method Validate() returns (r: Result<()>)
      requires stream.Valid() && !payloadValidated
      requires if headerValidated then HeaderRead() && header.length > 0 else stream.pos == 0
      modifies this`header, this`kind, this`headerValidated, this`payloadValidated, stream`pos
      ensures stream.Valid()
      ensures r == Judge(net, stream.buffer)
      ensures r.Ok? ==> headerValidated && payloadValidated && HeaderRead()
      ensures r == Err(MessageHeaderIncomplete) ==>
                !headerValidated && !payloadValidated && stream.pos == 0 && |stream.buffer| < HEADER_LENGTH
      ensures r == Err(MessageBodyIncomplete) ==>
              headerValidated && !payloadValidated && HeaderRead() && header.length > 0
    {
      hide CheckHeader, CheckPayload, ParseHeader;
      if |stream.buffer| >= HEADER_LENGTH { HeaderNotIncomplete(net, ParseHeader(stream.buffer)); }
      if |stream.buffer| > MAX_MESSAGE_LENGTH { return Err(MessageSizeOverflow); }
      r := ValidateHeader();
      if r.Err? { return; }
      if payloadValidated { return Ok(()); }
      PayloadErrors(net, DefinitionOf(kind), header, stream.buffer[HEADER_LENGTH..]);
      r := ValidatePayload();
    }

    /** One pass of the loop of `write`: the message takes what its present part still lacks, and is validated. */
    method TakeChunk(input: Bytes) returns (r: Result<()>, rest: Bytes)
      requires Valid() && !IsComplete() && input != []
      modifies this`header, this`kind, this`headerValidated, this`payloadValidated, stream
      ensures stream.buffer + rest == old(stream.buffer) + input
      ensures |rest| < |input|
      ensures r.Ok? ==> Valid() && IsComplete()
      ensures Incomplete(r) ==> Valid() && !IsComplete()
      ensures r.Err? && !Incomplete(r) ==> Frame(net, stream.buffer) == Bad
    {
      hide CheckHeader, Judge, Frame;
      ghost var before := stream.buffer;
      if |before| < HEADER_LENGTH {
        ShortIsMore(net, before);
      } else {
        MoreIsShort(net, before);
        HeaderLengthBound(net, header);
      }
      var headerMode := stream.pos < HEADER_LENGTH;
      var avail := |stream.buffer| - stream.pos;
      var wanted := Min(if headerMode then HEADER_LENGTH - avail else header.length - avail, |input|);
      TakeIsExact(net, before, input[..wanted]);
      var written := stream.Write(input[..wanted]);
      assert written.Ok?;
      rest := input[wanted..];
      VerdictIsFront(net, stream.buffer);
      r := Validate();
      assert stream.buffer + rest == before + input by {
        assert input == input[..wanted] + rest;
      }
    }

    /**
      `write`: however the bytes of a stream are cut into calls, what a call answers, takes and leaves is what
      the framing of the whole stream so far prescribes.
     */
    method Write(input: Bytes) returns (r: Result<()>, rest: Bytes)
      requires Valid()
      modifies this`header, this`kind, this`headerValidated, this`payloadValidated, stream
      ensures input == [] || old(IsComplete()) ==> rest == input && stream.buffer == old(stream.buffer) && Valid()
      ensures input == [] ==> r == (if !old(headerValidated) then Err(MessageHeaderIncomplete)
                                    else if !old(payloadValidated) then Err(MessageBodyIncomplete) else Ok(()))
      ensures input != [] && old(IsComplete()) ==> r == Err(MessageWriteNotPermitted)
      ensures input != [] && !old(IsComplete()) ==>
        match Frame(net, old(stream.buffer) + input)
        case More => Incomplete(r) && rest == [] && stream.buffer == old(stream.buffer) + input && Valid()
          && !IsComplete()
        case Whole(n) => r.Ok? && stream.buffer + rest == old(stream.buffer) + input && |stream.buffer| == n
                         && Valid() && IsComplete()
        case Bad => r.Err? && !Incomplete(r)
    {
      hide CheckHeader, Judge;
      rest := input;
      if input == [] {
        if !headerValidated { return Err(MessageHeaderIncomplete), rest; }
        if !payloadValidated { return Err(MessageBodyIncomplete), rest; }
        return Ok(()), rest;
      }
      if IsComplete() { return Err(MessageWriteNotPermitted), rest; }
      r := Err(MessageHeaderIncomplete);
      ghost var all := stream.buffer + input;
      while rest != []
        invariant Valid() && !IsComplete() && Incomplete(r)
        invariant stream.buffer + rest == all
        decreases |rest|
      {
        r, rest := TakeChunk(rest);
        if r.Ok? {
          WholeExtends(net, stream.buffer, rest);
          return;
        }
        if !Incomplete(r) {
          BadExtends(net, stream.buffer, rest);
          return;
        }
      }
      if |stream.buffer| < HEADER_LENGTH { ShortIsMore(net, stream.buffer); }
      assert stream.buffer == all;
    }

    /** The header with no length and no checksum yet, as `push` serializes it first. */
    method PutBlankHeader(t: MessageType)
      requires stream.Valid()
      modifies this`header, this`kind, stream
      ensures stream.Valid() && stream.pos == 0
      ensures stream.buffer == net.magic + (CommandField(t) + (LE(0, 4) + [0, 0, 0, 0]))
      ensures kind == t
    {
      hide CommandField, LE;
      kind := t;
      header := Header(net.magic, CommandField(t), 0, [0, 0, 0, 0]);
      stream.Clear();
      var _ := PutBytes(stream, header.magic);
      var _ := PutBytes(stream, header.command);
      var _ := PutUint(stream, 0, 4);
      var _ := PutBytes(stream, header.checksum);
      assert stream.buffer == net.magic + (CommandField(t) + (LE(0, 4) + [0, 0, 0, 0]));
    }

    /** The length and the checksum are copied over the blanks once the payload is there. */
    method PatchHeader(t: MessageType, ghost payload: Bytes)
      requires stream.Valid()
      requires |payload| < 0x1_0000_0000
      requires stream.buffer == net.magic + (CommandField(t) + (LE(0, 4) + [0, 0, 0, 0])) + payload
      modifies this`header, stream
      ensures stream.Valid() && stream.pos == 0
      ensures stream.buffer == Build(net, t, payload)
    {
      hide CommandField, LE, Checksum;
      var b := stream.buffer;
      assert b[..16] == net.magic + CommandField(t);
      assert b[24..] == payload;
      var length := |b| - HEADER_LENGTH;
      var sum := Checksum(net, b[24..]);
      header := header.(length := length, checksum := sum);
      stream.buffer := b[..16] + LE(length, 4) + sum + b[24..];
      assert stream.buffer == Build(net, t, payload);
      stream.pos := 0;
    }

    /**
      `push`: a message built from a payload is validated as a received one would be. `version` is the protocol
      version of the stream.
     */
    method Push(p: Payload, version: U32) returns (r: Result<()>)
      requires Valid() && p.WellFormed()
      modifies this`header, this`kind, this`headerValidated, this`payloadValidated, stream
      ensures !old(Pristine()) ==> r == Err(MessagePushNotPermitted)
      ensures old(Pristine()) && Encode(p, version).Err? ==> r == Err(Encode(p, version).error)
      ensures r.Ok? ==>
        && Encode(p, version).Ok?
        && |Encode(p, version).value| < 0x1_0000_0000
        && stream.buffer == Build(net, p.Type(), Encode(p, version).value)
        && Judge(net, stream.buffer).Ok?
        && Valid() && IsComplete() && kind == p.Type()
      ensures r.Err? && old(Pristine()) && Encode(p, version).Ok? ==>
        || HEADER_LENGTH + |Encode(p, version).value| > MAX_STREAM_SIZE
        || r == Judge(net, Build(net, p.Type(), Encode(p, version).value))
    {
      hide Encode, Build, Judge, Frame, CheckHeader, CommandField;
      if !Pristine() { return Err(MessagePushNotPermitted); }
      if headerValidated { HeaderKind(net, header); }
      TypeIsKnown(p);
      PutBlankHeader(p.Type());
      r := Serialize(stream, p, version);
      if r.Err? { return; }
      ghost var payload := Encode(p, version).value;
      PatchHeader(p.Type(), payload);
      BuiltHeader(net, p.Type(), payload);
      VerdictIsFront(net, stream.buffer);
      r := Validate();
      if r.Ok? {
        HeaderKind(net, header);
      }
    }
  }

  /** A message that arrives in any number of parts ends up complete, and the same however it was cut. */
  method Assemble(net: Net, parts: seq<Bytes>) returns (m: Message)
    requires Frame(net, Concat(parts)) == Whole(|Concat(parts)|)
    ensures fresh(m) && m.net == net && m.Valid() && m.IsComplete()
    ensures m.stream.buffer == Concat(parts) && |Concat(parts)| >= HEADER_LENGTH
    ensures m.header == ParseHeader(Concat(parts)) && CheckHeader(net, m.header) == Ok(m.kind)
    ensures m.stream.Unread() == Concat(parts)[HEADER_LENGTH..]
  {
    hide Frame, CheckHeader, ParseHeader, Concat;
    m := new Message(net);
    ghost var whole := Concat(parts);
    var i := 0;
    assert parts[..0] == [];
    NoParts();
    ShortIsMore(net, []);
    while i < |parts|
      invariant 0 <= i <= |parts|
      invariant fresh(m) && fresh(m.stream) && m.net == net && m.Valid()
      invariant m.stream.buffer == Concat(parts[..i])
      invariant m.IsComplete() <==> Concat(parts[..i]) == whole
    {
      ghost var before := m.stream.buffer;
      PartsFront(parts, i);
      PartsRest(parts, i);
      if parts[i] != [] {
        FrontOfWhole(net, whole, before + parts[i], Concat(parts[i + 1..]));
        assert before != whole;
        var r, rest := m.Write(parts[i]);
      } else {
        assert before + [] == before;
      }
      i := i + 1;
    }
    assert parts[..i] == parts;
  }

  lemma NoParts()
    ensures Concat<Byte>([]) == []
  {
  }

  lemma PartsFront(parts: seq<Bytes>, i: int)
    requires 0 <= i < |parts|
    ensures Concat(parts[..i + 1]) == Concat(parts[..i]) + parts[i]
  {
    hide Concat;
    assert parts[..i + 1] == parts[..i] + [parts[i]];
    ConcatAppend(parts[..i], parts[i]);
  }

  lemma PartsRest(parts: seq<Bytes>, i: int)
    requires 0 <= i < |parts|
    ensures Concat(parts) == Concat(parts[..i + 1]) + Concat(parts[i + 1..])
  {
    hide Concat;
    assert parts == parts[..i + 1] + parts[i + 1..];
    ConcatJoin(parts[..i + 1], parts[i + 1..]);
  }

  lemma {:induction false} ConcatJoin(a: seq<Bytes>, b: seq<Bytes>)
    ensures Concat(a + b) == Concat(a) + Concat(b)
    decreases |a|
  {
    if a == [] {
      assert a + b == b;
    } else {
      ConcatJoin(a[1..], b);
      assert (a + b)[1..] == a[1..] + b;
    }
  }

  /** A part from the front of a whole message is the start of a message, or all of it. */
  lemma FrontOfWhole(net: Net, whole: Bytes, front: Bytes, rest: Bytes)
    requires Frame(net, whole) == Whole(|whole|) && whole == front + rest
    ensures Frame(net, front) == if front == whole then Whole(|whole|) else More
  {
    hide Frame;
    if |front| < |whole| {
      MoreBeforeWhole(net, front, rest);
    } else {
      assert rest == [] && front == whole;
    }
  }

  lemma TypeIsKnown(p: Payload)
    requires p.WellFormed()
    ensures p.Type() != MissingOrUnknown
  {
  }

  /** Taking from `rest` what the present part of the message still lacks does not run past the message. */
  lemma TakeIsExact(net: Net, b: Bytes, more: Bytes)
    requires Frame(net, b) == More
    requires |b| + |more| <= HEADER_LENGTH
             || (|b| >= HEADER_LENGTH && |b| + |more| <= HEADER_LENGTH + ParseHeader(b).length)
    ensures |b + more| < HEADER_LENGTH || CheckHeader(net, ParseHeader(b + more)).Err?
            || |b + more| <= HEADER_LENGTH + ParseHeader(b + more).length
    ensures |b| >= HEADER_LENGTH ==> ParseHeader(b + more) == ParseHeader(b)
  {
    if |b| >= HEADER_LENGTH { SameHeader(b, more); }
  }

  lemma HeaderKind(net: Net, h: Header)
    requires CheckHeader(net, h).Ok?
    ensures CheckHeader(net, h).value == TypeOfCommand(h.command) != MissingOrUnknown
  {
  }

  lemma PayloadErrors(net: Net, def: Definition, h: Header, payload: Bytes)
    ensures CheckPayload(net, def, h, payload) != Err(MessageHeaderIncomplete)
  {
    var offset := CountOffset(def);
    if |payload| > offset {
      CompactErrors(payload[offset..]);
    }
  }

  lemma CompactErrors(s: Bytes)
    ensures ReadCompact(s).Fail? ==> ReadCompact(s).error in {ReadOverflow, NonCanonicalCompactSize, CompactSizeTooBig}
  {
  }

  /** A compact size that was read took as many bytes as its value calls for. */
  lemma CompactWidth(s: Bytes)
    ensures ReadCompact(s).Got? ==> |s| == CompactSize(ReadCompact(s).value) + |ReadCompact(s).rest|
  {
    if ReadCompact(s).Got? {
      CompactCanonical(s, true);
      CompactRoundTrip(ReadCompact(s).value, ReadCompact(s).rest);
    }
  }
}
