/**
  What a node does with one complete inbound message (src/node/network/node.cpp, the body of
  `parse_messages` after `write`, and `process_inbound_message`), as a function of the session.
 */
module Processing {
  import opened Common
  import opened Bits
  import opened Addresses
  import opened Codec
  import opened Payloads
  import opened Protocol
  import opened Framing
  import opened Handshake
  import opened PayloadTypes

  const DEFAULT_PROTOCOL_VERSION := 170_002
  const MIN_SUPPORTED_VERSION := DEFAULT_PROTOCOL_VERSION
  const MAX_SUPPORTED_VERSION := DEFAULT_PROTOCOL_VERSION

  /** What is fixed for the life of a connection. */
  datatype Config = Config(net: Net, local: VersionPayload, inboundConnection: bool) {
    predicate Valid() {
      && local.Fits()
      && local.protocolVersion == DEFAULT_PROTOCOL_VERSION
      && net.version == DEFAULT_PROTOCOL_VERSION
    }
  }

  /** What the session with a peer remembers between messages. */
  datatype Peer = Peer(
    status: Status,
    version: int,
    remote: VersionPayload,
    pingPending: bool,
    pingNonce: Option<U64>,
    getAddrs: nat
  )

  const NO_SERVICE := VersionService(0, IPEndpoint(V4(0), 0))

  /** A version payload as it is constructed. */
  const NO_VERSION := VersionPayload(0, 0, 0, NO_SERVICE, NO_SERVICE, 0, [], 0, false)

  const NEW_PEER := Peer(NOT_INITIATED, DEFAULT_PROTOCOL_VERSION, NO_VERSION, false, None, 0)

  datatype Priority = High | Normal | Low {
    function Value(): nat {
      match this
      case High => 0
      case Normal => 1
      case Low => 2
    }
  }

  /** A message queued for sending, or a payload handed to the node hub. */
  datatype Action = Push(p: Payload, priority: Priority) | Notify(payload: Payload)

  /**
    Our own version, unless it has been sent already, the acknowledgement, and a word to the hub. What the hub is
    given is `previous`, the version remembered so far: the received one has been swapped with it.
   */
  function VersionAnswers(cfg: Config, status: Status, previous: VersionPayload): seq<Action> {
    (if HasFlag(status, 1) then [] else [Push(VersionMsg(cfg.local), High)])
    + [Push(NullMsg(VerAck), High), Notify(VersionMsg(previous))]
  }

  /** `process_inbound_message` */
  function Process(cfg: Config, peer: Peer, p: Payload): Result<(Peer, seq<Action>)> {
    match p
    case VersionMsg(v) =>
      if v.protocolVersion < MIN_SUPPORTED_VERSION || v.protocolVersion > MAX_SUPPORTED_VERSION
        then Err(InvalidProtocolVersion)
      else if v.nonce == cfg.local.nonce then Err(ConnectedToSelf)
      else
        Ok((peer.(remote := v, version := Min(cfg.local.protocolVersion, v.protocolVersion)),
            VersionAnswers(cfg, peer.status, peer.remote)))
    case NullMsg(k) =>
      if k == VerAck || (k == GetAddr && cfg.inboundConnection && peer.getAddrs > 1) then Ok((peer, []))
      else Ok((peer, [Notify(p)]))
    case PingPongMsg(k, nonce) =>
      if k == Ping then Ok((peer, [Push(PingPongMsg(Pong, nonce), High)]))
      else if !peer.pingPending || peer.pingNonce.None? then Err(UnsolicitedPong)
      else if nonce != peer.pingNonce.value then Err(InvalidPingPongNonce)
      else Ok((peer.(pingPending := false, pingNonce := None), []))
    case _ => Ok((peer, [Notify(p)]))
  }

  /** The type of a complete frame. */
  function FrameType(net: Net, frame: Bytes): MessageType
    requires |frame| >= HEADER_LENGTH
  {
    TypeOfCommand(ParseHeader(frame).command)
  }

  /** Deserialization, which has to use up the frame. */
  function Unpack(t: MessageType, payload: Bytes): Result<Payload> {
    match Decode(t, payload)
    case Fail(e) => Err(e)
    case Got(p, rest) => if rest != [] then Err(MessagePayloadExtraData) else Ok(p)
  }

  /** One frame let through: its payload and what it set off. */
  datatype Delivery = Delivery(frame: Bytes, payload: Payload, actions: seq<Action>)

  /** Handshake check, deserialization, flooding check and processing of one complete frame. */
  function Deliver(cfg: Config, peer: Peer, frame: Bytes, flooding: bool): Result<(Peer, Delivery)>
    requires |frame| >= HEADER_LENGTH
  {
    var t := FrameType(cfg.net, frame);
    match Check(peer.status, Event(Inbound, t))
    case Err(e) => Err(e)
    case Ok(status) =>
      match Unpack(t, frame[HEADER_LENGTH..])
      case Err(e) => Err(e)
      case Ok(p) =>
        if flooding then Err(MessageFloodingDetected)
        else
          match Process(cfg, peer.(status := status), p)
          case Err(e) => Err(e)
          case Ok((next, actions)) =>
            Ok((next.(getAddrs := next.getAddrs + if t == GetAddr then 1 else 0), Delivery(frame, p, actions)))
  }

  /**
    Which of several errors a message is refused with: being out of order comes before a broken payload, that before
    flooding, and flooding before what is wrong with the contents.
   */
  lemma Precedence(cfg: Config, peer: Peer, frame: Bytes, flooding: bool)
    requires |frame| >= HEADER_LENGTH
    ensures var t := FrameType(cfg.net, frame);
      var order, payload := Check(peer.status, Event(Inbound, t)), Unpack(t, frame[HEADER_LENGTH..]);
      && (order.Err? ==> Deliver(cfg, peer, frame, flooding) == Err(order.error))
      && (order.Ok? && payload.Err? ==> Deliver(cfg, peer, frame, flooding) == Err(payload.error))
      && (order.Ok? && payload.Ok? && flooding ==> Deliver(cfg, peer, frame, true) == Err(MessageFloodingDetected))
  {
    hide Check, Unpack, Process;
  }

  /** A payload is of the type its frame announced. */
  lemma DecodedType(t: MessageType, s: Bytes)
    ensures Decode(t, s).Got? ==> Decode(t, s).value.Type() == t
  {
    hide ReadVersion, ReadU64, ReadGetHeaders, ReadAddr, ReadInventory, ReadReject;
    if t == Reject && Decode(t, s).Got? {
      RejectedType(s);
    }
  }

  lemma RejectedType(s: Bytes)
    ensures ReadReject(s).Got? ==> ReadReject(s).value.RejectMsg?
  {
    hide ReadString, ReadUint, IsKnownCommand, IsRejectionCode;
  }

  /** Not one of the two conditions that ask for more bytes. */
  predicate Definite<T>(r: Parsed<T>) {
    r.Fail? ==> r.error != MessageHeaderIncomplete && r.error != MessageBodyIncomplete
  }

  lemma DefiniteCompact(s: Bytes)
    ensures Definite(ReadCompact(s)) && Definite(ReadString(s))
  {
    hide FromLE;
  }

  lemma DefiniteServices(s: Bytes)
    ensures Definite(ReadNodeService(s)) && Definite(ReadVersionService(s)) && Definite(ReadInventoryItem(s))
  {
    hide FromLE, FromBE;
  }

  lemma {:induction false} DefiniteItems<T(!new)>(s: Bytes, n: nat, read: Bytes -> Parsed<T>)
    requires forall b: Bytes :: Definite(read(b))
    ensures Definite(ReadItems(s, n, read))
    decreases n
  {
    assert Definite(read(s));
    if n > 0 && read(s).Got? {
      DefiniteItems(read(s).rest, n - 1, read);
    }
  }

  lemma DefiniteVectors(s: Bytes)
    ensures Definite(ReadAddr(s)) && Definite(ReadInventory(s)) && Definite(ReadGetHeaders(s))
  {
    hide ReadCompact, ReadNodeService, ReadInventoryItem, ReadItems;
    forall b: Bytes ensures Definite(ReadNodeService(b)) && Definite(ReadInventoryItem(b)) && Definite(ReadHash(b)) {
      DefiniteServices(b);
    }
    DefiniteCompact(s);
    if ReadCompact(s).Got? {
      var n, rest := ReadCompact(s).value, ReadCompact(s).rest;
      DefiniteItems(rest, n, ReadNodeService);
      DefiniteItems(rest, n, ReadInventoryItem);
    }
    if ReadU32(s).Got? {
      var s1 := ReadU32(s).rest;
      DefiniteCompact(s1);
      if ReadCompact(s1).Got? {
        DefiniteItems(ReadCompact(s1).rest, ReadCompact(s1).value, ReadHash);
      }
    }
  }

  lemma DefiniteVersion(s: Bytes)
    ensures Definite(ReadVersion(s))
  {
    hide ReadString, ReadVersionService, FromLE, ToSigned;
    if ReadVersionHead(s).Got? {
      var s1 := ReadVersionHead(s).rest;
      DefiniteServices(s1);
      if ReadVersionService(s1).Got? {
        var s2 := ReadVersionService(s1).rest;
        DefiniteServices(s2);
        if ReadVersionService(s2).Got? && ReadU64(ReadVersionService(s2).rest).Got? {
          DefiniteCompact(ReadU64(ReadVersionService(s2).rest).rest);
        }
      }
    }
  }

  lemma DefiniteReject(s: Bytes)
    ensures Definite(ReadReject(s))
  {
    hide ReadString, IsKnownCommand, FromLE;
    DefiniteCompact(s);
    if ReadString(s).Got? {
      var s1 := ReadString(s).rest;
      if ReadUint(s1, 1).Got? {
        DefiniteCompact(ReadUint(s1, 1).rest);
      }
    }
  }

  lemma DefiniteDecode(t: MessageType, s: Bytes)
    ensures Definite(Decode(t, s))
  {
    hide ReadVersion, ReadGetHeaders, ReadAddr, ReadInventory, ReadReject, FromLE;
    DefiniteVersion(s);
    DefiniteVectors(s);
    DefiniteReject(s);
  }

  /** A refused message is never taken for an unfinished one, so the loop always ends the session on it. */
  lemma RefusalIsFinal(cfg: Config, peer: Peer, frame: Bytes, flooding: bool)
    requires |frame| >= HEADER_LENGTH
    ensures Deliver(cfg, peer, frame, flooding).Err? ==>
      Deliver(cfg, peer, frame, flooding).error !in {MessageHeaderIncomplete, MessageBodyIncomplete}
  {
    hide Decode, HasFlag, BitAnd, BitOr;
    DefiniteDecode(FrameType(cfg.net, frame), frame[HEADER_LENGTH..]);
  }
}
