/**
  The payloads a node sends and understands, by message type: `MessagePayload::from_type` and the
  `serialization` each type dispatches to (src/infra/network/payloads.cpp).
 */
module PayloadTypes {
  import opened Common
  import opened Addresses
  import opened Codec
  import opened Payloads
  import opened Protocol
  import opened Stream
  import opened Serialization

  datatype Payload =
    | VersionMsg(version: VersionPayload)
    | NullMsg(nullKind: MessageType)
    | PingPongMsg(pingKind: MessageType, nonce: U64)
    | GetHeadersMsg(protocolVersion: U32, hashes: seq<Bytes32>, hashStop: Bytes32)
    | AddrMsg(services: seq<NodeService>)
    | InventoryMsg(invKind: MessageType, items: seq<InventoryItem>)
    | RejectMsg(command: Bytes, code: int, reason: Bytes, extra: Option<Bytes32>)
  {
    /** What the constructors of the payload classes assert. */
    predicate WellFormed() {
      match this
      case VersionMsg(v) => v.Fits()
      case NullMsg(k) => k in {VerAck, MemPool, GetAddr}
      case PingPongMsg(k, _) => k in {Ping, Pong}
      case GetHeadersMsg(_, _, _) => true
      case AddrMsg(_) => true
      case InventoryMsg(k, _) => k in {Inv, GetData, NotFound}
      case RejectMsg(c, code, reason, _) => IsRejectionCode(code)
    }

    function Type(): MessageType {
      match this
      case VersionMsg(_) => Version
      case NullMsg(k) => k
      case PingPongMsg(k, _) => k
      case GetHeadersMsg(_, _, _) => GetHeaders
      case AddrMsg(_) => Addr
      case InventoryMsg(k, _) => k
      case RejectMsg(_, _, _, _) => Reject
    }
  }

  predicate IsRejectionCode(code: int) {
    0 <= code <= 0x01 || 0x10 <= code <= 0x12 || 0x40 <= code <= 0x4d
  }

  const MAX_REASON := 256

  /** `is_known_command` */
  predicate IsKnownCommand(command: Bytes) {
    0 < |command| <= COMMAND_LENGTH && TypeOfCommand(Padded(command)) != MissingOrUnknown
  }

  function EncodeReject(command: Bytes, code: int, reason: Bytes, extra: Option<Bytes32>): Result<Bytes>
    requires IsRejectionCode(code)
  {
    if !IsKnownCommand(command) then Err(UnknownRejectedCommand)
    else if |reason| > MAX_REASON then Err(StringTooBig)
    else Ok(EncodeString(command) + ([code] + (EncodeString(reason) + if extra.Some? then extra.value else [])))
  }

  /** The code is read and checked, but the object keeps its default code zero. */
  function ReadReject(s: Bytes): Parsed<Payload> {
    var (command, s1) :- ReadString(s);
    if !IsKnownCommand(command) then Fail(UnknownRejectedCommand)
    else
      var (code, s2) :- ReadUint(s1, 1);
      if !IsRejectionCode(code) then Fail(InvalidRejectionCode)
      else
        var (reason, s3) :- ReadString(s2);
        if |reason| > MAX_REASON then Fail(StringTooBig)
        else match ReadHash(s3)
          case Got(h, rest) => Got(RejectMsg(command, 0, reason, Some(h)), rest)
          case Fail(_) => Got(RejectMsg(command, 0, reason, None), s3)
  }

  /** What `serialize` appends for a payload on a stream of protocol version `version`. */
  function Encode(p: Payload, version: U32): Result<Bytes>
    requires p.WellFormed()
  {
    match p
    case VersionMsg(v) => Ok(EncodeVersion(v))
    case NullMsg(_) => Ok([])
    case PingPongMsg(_, nonce) => Ok(LE(nonce, 8))
    case GetHeadersMsg(_, hashes, stop) => EncodeGetHeaders(hashes, stop, version)
    case AddrMsg(items) => EncodeAddr(items)
    case InventoryMsg(_, items) => EncodeInventory(items)
    case RejectMsg(command, code, reason, extra) => EncodeReject(command, code, reason, extra)
  }

  /** `from_type` and `deserialize`: `headers` has no handler. */
  function Decode(t: MessageType, s: Bytes): Parsed<Payload> {
    match t
    case Version => var (v, rest) :- ReadVersion(s); Got(VersionMsg(v), rest)
    case VerAck => Got(NullMsg(t), s)
    case MemPool => Got(NullMsg(t), s)
    case GetAddr => Got(NullMsg(t), s)
    case Ping => var (n, rest) :- ReadU64(s); Got(PingPongMsg(t, n), rest)
    case Pong => var (n, rest) :- ReadU64(s); Got(PingPongMsg(t, n), rest)
    case GetHeaders =>
      var (g, rest) :- ReadGetHeaders(s);
      Got(GetHeadersMsg(g.protocolVersion, g.hashes, g.hashStop), rest)
    case Addr => var (items, rest) :- ReadAddr(s); Got(AddrMsg(items), rest)
    case Inv => var (items, rest) :- ReadInventory(s); Got(InventoryMsg(t, items), rest)
    case GetData => var (items, rest) :- ReadInventory(s); Got(InventoryMsg(t, items), rest)
    case NotFound => var (items, rest) :- ReadInventory(s); Got(InventoryMsg(t, items), rest)
    case Reject => ReadReject(s)
    case Headers => Fail(MessagePayLoadUnhandleable)
    case MissingOrUnknown => Got(NullMsg(t), s)
  }

  /** No `headers` payload is read, whatever its bytes. */
  lemma HeadersUnread(s: Bytes)
    ensures Decode(Headers, s) == Fail(MessagePayLoadUnhandleable)
  {
  }

  /** The rejection codes, one by one. */
  lemma RejectionCodes(code: int)
    ensures IsRejectionCode(code) <==>
      code in {0, 1, 16, 17, 18, 64, 65, 66, 67, 68, 69, 70, 71, 72, 73, 74, 75, 76, 77}
  {
  }

  /** The payloads that the receiver gives back as they were. */
  predicate Faithful(p: Payload, version: U32) {
    match p
    case VersionMsg(v) => WireVersion(v)
    case NullMsg(_) => true
    case PingPongMsg(_, _) => true
    case GetHeadersMsg(v, hashes, _) => v == version && |hashes| <= MAX_HEADERS_ITEMS
    case AddrMsg(items) => forall s | s in items :: WireService(s)
    case InventoryMsg(_, _) => true
    case RejectMsg(_, code, _, _) => code == 0
  }

  lemma RejectRoundTrip(command: Bytes, code: int, reason: Bytes, extra: Option<Bytes32>)
    requires IsRejectionCode(code) && EncodeReject(command, code, reason, extra).Ok?
    ensures ReadReject(EncodeReject(command, code, reason, extra).value)
            == Got(RejectMsg(command, 0, reason, extra), [])
  {
    hide TypeOfCommand;
    var t3: Bytes := if extra.Some? then extra.value else [];
    var t2 := EncodeString(reason) + t3;
    var t1 := [code] + t2;
    StringRoundTrip(command, t1);
    Pow256Values();
    assert LE(code, 1) == [code] + LE(code / 256, 0);
    assert t1 == LE(code, 1) + t2;
    ReadUintOf(code, 1, t2);
    StringRoundTrip(reason, t3);
    if extra.Some? {
      assert t3[..32] == t3 && t3[32..] == [];
    }
  }

  /**
    A payload that could be written is read back as it was exactly when it is faithful: the reader refuses
    negative times and heights and more than 160 hashes, turns IPv6 addresses with a zero first half into IPv4,
    and forgets rejection codes.
   */
  lemma PayloadRoundTrip(p: Payload, version: U32)
    requires p.WellFormed() && Encode(p, version).Ok?
    ensures Decode(p.Type(), Encode(p, version).value) == Got(p, []) <==> Faithful(p, version)
  {
    hide ReadVersion, ReadAddr, ReadInventory, ReadGetHeaders, ReadReject, EncodeVersion, WireService, Representable;
    var b := Encode(p, version).value;
    assert b + [] == b;
    match p
    case VersionMsg(v) =>
      if WireVersion(v) { VersionRoundTrip(v, []); }
      if ReadVersion(b) == Got(v, []) { VersionRange(b); }
    case NullMsg(_) =>
    case PingPongMsg(_, nonce) => ReadU64Of(nonce, []);
    case GetHeadersMsg(v, hashes, stop) => GetHeadersRoundTrip(hashes, stop, version, []);
    case AddrMsg(items) =>
      if Faithful(p, version) { AddrRoundTrip(items, []); }
      if ReadAddr(b) == Got(items, []) { AddrRange(b); }
    case InventoryMsg(_, items) => InventoryRoundTrip(items, []);
    case RejectMsg(command, code, reason, extra) => RejectRoundTrip(command, code, reason, extra);
  }

  /** `serialize` on a stream. */
  method Serialize(st: DataStream, p: Payload, version: U32) returns (r: Result<()>)
    requires st.Valid() && p.WellFormed()
    modifies st`buffer
    ensures st.Valid()
    ensures r.Ok? ==> Encode(p, version).Ok? && st.buffer == old(st.buffer) + Encode(p, version).value
    ensures r.Ok? && Encode(p, version).value != [] ==> |st.buffer| <= MAX_STREAM_SIZE
    ensures r.Err? ==> match Encode(p, version)
      case Err(e) => r == Err(e) || |old(st.buffer)| + 4 > MAX_STREAM_SIZE
      case Ok(bytes) => |old(st.buffer)| + |bytes| > MAX_STREAM_SIZE
  {
    hide EncodeVersion, EncodeGetHeaders, EncodeAddr, EncodeInventory, LE, EncodeString, IsKnownCommand;
    match p
    case VersionMsg(v) => r := PutVersion(st, v);
    case NullMsg(_) =>
      r := Ok(());
      assert st.buffer == st.buffer + [];
    case PingPongMsg(_, nonce) => r := PutUint(st, nonce, 8);
    case GetHeadersMsg(_, hashes, stop) => r := PutGetHeaders(st, hashes, stop, version);
    case AddrMsg(items) => r := PutAddr(st, items);
    case InventoryMsg(_, items) => r := PutInventory(st, items);
    case RejectMsg(command, code, reason, extra) => r := PutReject(st, command, code, reason, extra);
  }

  method PutReject(st: DataStream, command: Bytes, code: int, reason: Bytes, extra: Option<Bytes32>)
    returns (r: Result<()>)
    requires st.Valid() && IsRejectionCode(code)
    modifies st`buffer
    ensures st.Valid()
    ensures match EncodeReject(command, code, reason, extra)
      case Err(e) => r == Err(e) && st.buffer == old(st.buffer)
      case Ok(bytes) => Appended(st, old(st.buffer), r, bytes)
    ensures r.Ok? ==> |st.buffer| <= MAX_STREAM_SIZE
  {
    hide EncodeString, TypeOfCommand, Padded;
    if !IsKnownCommand(command) { return Err(UnknownRejectedCommand); }
    if |reason| > MAX_REASON { return Err(StringTooBig); }
    r := PutString(st, command);
    if r.Err? { return; }
    r := PutBytes(st, [code]);
    if r.Err? { return; }
    r := PutString(st, reason);
    if r.Err? { return; }
    ghost var tail: Bytes := if extra.Some? then extra.value else [];
    if extra.Some? {
      r := PutBytes(st, extra.value);
    }
    assert r.Ok? ==> st.buffer == old(st.buffer) + (EncodeString(command) + ([code] + (EncodeString(reason) + tail)));
  }

  method GetReject(st: DataStream) returns (r: Result<Payload>)
    requires st.Valid()
    modifies st`pos
    ensures st.Valid() && Follows(st, r, ReadReject(old(st.Unread())))
  {
    hide ReadString, ReadUint, IsKnownCommand;
    var command :- GetString(st);
    if !IsKnownCommand(command) { return Err(UnknownRejectedCommand); }
    var code :- GetUint(st, 1);
    if !IsRejectionCode(code) { return Err(InvalidRejectionCode); }
    var reason :- GetString(st);
    if |reason| > MAX_REASON { return Err(StringTooBig); }
    var extra: Option<Bytes32> := None;
    if |st.buffer| - st.pos >= 32 {
      var h := GetHash(st);
      extra := Some(h.value);
    }
    return Ok(RejectMsg(command, 0, reason, extra));
  }

  /** `deserialize` of the payload class for a message type. */
  method Deserialize(st: DataStream, t: MessageType) returns (r: Result<Payload>)
    requires st.Valid()
    modifies st`pos
    ensures st.Valid() && Follows(st, r, Decode(t, old(st.Unread())))
  {
    hide ReadVersion, ReadU64, ReadGetHeaders, ReadAddr, ReadInventory, ReadReject;
    match t
    case Version =>
      var v :- Serialization.GetVersion(st);
      r := Ok(VersionMsg(v));
    case Ping =>
      var n :- GetU64(st);
      r := Ok(PingPongMsg(t, n));
    case Pong =>
      var n :- GetU64(st);
      r := Ok(PingPongMsg(t, n));
    case GetHeaders =>
      var g :- GetGetHeaders(st);
      r := Ok(GetHeadersMsg(g.protocolVersion, g.hashes, g.hashStop));
    case Addr =>
      var items :- Serialization.GetAddr(st);
      r := Ok(AddrMsg(items));
    case Inv =>
      var items :- GetInventory(st);
      r := Ok(InventoryMsg(t, items));
    case GetData =>
      var items :- GetInventory(st);
      r := Ok(InventoryMsg(t, items));
    case NotFound =>
      var items :- GetInventory(st);
      r := Ok(InventoryMsg(t, items));
    case Reject => r := GetReject(st);
    case Headers => r := Err(MessagePayLoadUnhandleable);
    case _ => r := Ok(NullMsg(t));
  }
}
