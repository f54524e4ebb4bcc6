/**
  Messages on their way out (src/node/network/node.cpp, `push_message`): what a payload is packed into, and
  what the peer makes of the packed messages that follow one another on the wire.
 */
module Outbox {
  import opened Common
  import opened Codec
  import opened Protocol
  import opened Framing
  import opened Handshake
  import opened PayloadTypes
  import opened Processing
  import opened Receive

  /** A message on its way out, with the payload it was made of. */
  datatype Outgoing = Outgoing(bytes: Bytes, kind: MessageType, priority: Priority, payload: Payload)

  /** The bytes `push` makes of a payload, unless it refuses it. */
  function Packed(net: Net, p: Payload): Option<Bytes>
    requires p.WellFormed()
  {
    match Encode(p, DEFAULT_PROTOCOL_VERSION)
    case Err(_) => None
    case Ok(body) =>
      if |body| >= 0x1_0000_0000 then None
      else if Judge(net, Build(net, p.Type(), body)).Ok? then Some(Build(net, p.Type(), body))
      else None
  }

  /** A complete message that validates, of the type it says, made of its payload. */
  predicate Sound(net: Net, o: Outgoing) {
    && |o.bytes| >= HEADER_LENGTH && Frame(net, o.bytes) == Whole(|o.bytes|) && FrameType(net, o.bytes) == o.kind
    && o.payload.WellFormed() && Packed(net, o.payload) == Some(o.bytes)
  }

  predicate AllSound(net: Net, os: seq<Outgoing>) {
    forall o | o in os :: Sound(net, o)
  }

  function Flat(os: seq<Outgoing>): Bytes {
    if os == [] then [] else os[0].bytes + Flat(os[1..])
  }

  lemma {:induction false} FlatAppend(os: seq<Outgoing>, o: Outgoing)
    ensures Flat(os + [o]) == Flat(os) + o.bytes
    decreases |os|
  {
    if os == [] {
      assert [o][1..] == [];
    } else {
      FlatAppend(os[1..], o);
      assert (os + [o])[1..] == os[1..] + [o];
    }
  }

  /** What the pushes among the actions add to the queue; a payload that does not pack is dropped. */
  function Queued(net: Net, actions: seq<Action>): seq<Outgoing> {
    if actions == [] then []
    else
      (match actions[0]
       case Push(p, priority) =>
         if p.WellFormed() && Packed(net, p).Some? then [Outgoing(Packed(net, p).value, p.Type(), priority, p)] else []
       case Notify(_) => [])
      + Queued(net, actions[1..])
  }

  function Notified(actions: seq<Action>): seq<Payload> {
    if actions == [] then []
    else (if actions[0].Notify? then [actions[0].payload] else []) + Notified(actions[1..])
  }

  lemma {:induction false} QueuedAppend(net: Net, actions: seq<Action>, a: Action)
    ensures Queued(net, actions + [a]) == Queued(net, actions) + Queued(net, [a])
    ensures Notified(actions + [a]) == Notified(actions) + Notified([a])
    decreases |actions|
  {
    hide Packed;
    if actions == [] {
      assert [] + [a] == [a];
    } else {
      QueuedAppend(net, actions[1..], a);
      assert (actions + [a])[1..] == actions[1..] + [a];
    }
  }

  lemma PackedIsSound(net: Net, p: Payload, priority: Priority)
    requires p.WellFormed() && Packed(net, p).Some?
    ensures Sound(net, Outgoing(Packed(net, p).value, p.Type(), priority, p))
    ensures Packed(net, p).value[HEADER_LENGTH..] == Encode(p, DEFAULT_PROTOCOL_VERSION).value
  {
    hide Encode, Build, Judge, Frame;
    var body := Encode(p, DEFAULT_PROTOCOL_VERSION).value;
    assert p.Type() != MissingOrUnknown;
    BuiltHeader(net, p.Type(), body);
    BuiltIsFramed(net, p.Type(), body, []);
    assert Build(net, p.Type(), body) + [] == Build(net, p.Type(), body);
  }

  /** What the peer reads from a packed payload is the payload. */
  lemma PackedUnpacks(net: Net, p: Payload)
    requires p.WellFormed() && Packed(net, p).Some?
    ensures |Packed(net, p).value| >= HEADER_LENGTH
    ensures Unpack(FrameType(net, Packed(net, p).value), Packed(net, p).value[HEADER_LENGTH..]) == Ok(p)
            <==> Faithful(p, DEFAULT_PROTOCOL_VERSION)
  {
    hide Encode, Decode, Packed, Faithful;
    PackedIsSound(net, p, Normal);
    EncodeOfPacked(net, p);
    PayloadRoundTrip(p, DEFAULT_PROTOCOL_VERSION);
  }

  lemma EncodeOfPacked(net: Net, p: Payload)
    requires p.WellFormed() && Packed(net, p).Some?
    ensures Encode(p, DEFAULT_PROTOCOL_VERSION).Ok?
  {
  }

  /** An answer to a ping is never refused. */
  lemma PongPacks(net: Net, nonce: U64)
    ensures Packed(net, PingPongMsg(Pong, nonce)).Some?
  {
    hide Build, LE, TypeOfCommand, CheckVector, ParseHeader;
    var body := LE(nonce, 8);
    assert |body| == 8;
    BuiltHeader(net, Pong, body);
  }

  /** The session after these frames, when all of them are let through. */
  function PeerAfter(cfg: Config, peer: Peer, os: seq<Outgoing>): Option<Peer>
    decreases |os|
  {
    if os == [] then Some(peer)
    else if |os[0].bytes| < HEADER_LENGTH then None
    else match Deliver(cfg, peer, os[0].bytes, false)
      case Err(_) => None
      case Ok((next, _)) => PeerAfter(cfg, next, os[1..])
  }

  predicate SameFrames(ds: seq<Delivery>, os: seq<Outgoing>) {
    |ds| <= |os| && forall i | 0 <= i < |ds| :: ds[i].frame == os[i].bytes
  }

  lemma FrontOfFlat(net: Net, os: seq<Outgoing>, w: Bytes)
    requires AllSound(net, os) && w <= Flat(os)
    ensures w != [] && |w| >= |os[0].bytes| ==>
              Frame(net, w) == Whole(|os[0].bytes|) && w[..|os[0].bytes|] == os[0].bytes
                && w[|os[0].bytes|..] <= Flat(os[1..])
    ensures w == [] || |w| < |os[0].bytes| ==> Frame(net, w) == More
  {
    hide Frame, FrameType, Packed;
    if os != [] {
      var first := os[0].bytes;
      var n := |first|;
      assert Sound(net, os[0]);
      var flat := Flat(os);
      assert flat == first + Flat(os[1..]);
      if n <= |w| {
        assert w[..n] == flat[..n] == first;
        assert w == first + w[n..];
        assert w[n..] == flat[n..|w|];
        assert flat[n..] == Flat(os[1..]);
        WholeExtends(net, first, w[n..]);
      } else {
        assert w == first[..|w|];
        assert first == w + first[|w|..];
        MoreBeforeWhole(net, w, first[|w|..]);
      }
    } else {
      ShortIsMore(net, w);
    }
  }

  /** `r` is what a peer makes of the part `w` of the messages `os` that has arrived. */
  ghost predicate Explains(cfg: Config, peer: Peer, os: seq<Outgoing>, w: Bytes, r: Drained) {
    var k := |r.delivered|;
    && SameFrames(r.delivered, os)
    && PeerAfter(cfg, peer, os[..k]).Some?
    && var now := PeerAfter(cfg, peer, os[..k]).value;
       match r.end
       case Open(last, pending) =>
         w == Flat(os[..k]) + pending && last == now && (k < |os| ==> |pending| < |os[k].bytes|)
       case Closed(why) =>
         && k < |os|
         && |w| >= |Flat(os[..k])| + |os[k].bytes|
         && |os[k].bytes| >= HEADER_LENGTH
         && why.Refused? && Deliver(cfg, now, os[k].bytes, false) == Err(why.error)
  }

  /** One message let through, in front of what follows it. */
  lemma ExplainsNext(cfg: Config, peer: Peer, next: Peer, os: seq<Outgoing>, d: Delivery, w: Bytes, r: Drained)
    requires os != [] && |os[0].bytes| >= HEADER_LENGTH && d.frame == os[0].bytes
    requires Deliver(cfg, peer, os[0].bytes, false) == Ok((next, d))
    requires Explains(cfg, next, os[1..], w, r)
    ensures Explains(cfg, peer, os, os[0].bytes + w, Drained([d] + r.delivered, r.end))
  {
    hide Deliver;
    var k := |r.delivered|;
    assert os[..k + 1][0] == os[0] && os[..k + 1][1..] == os[1..][..k];
    assert Flat(os[..k + 1]) == os[0].bytes + Flat(os[1..][..k]);
    assert PeerAfter(cfg, peer, os[..k + 1]) == PeerAfter(cfg, next, os[1..][..k]);
    if r.end.Open? {
      assert os[0].bytes + w == Flat(os[..k + 1]) + r.end.pending;
    }
  }

  lemma ExplainsNone(cfg: Config, peer: Peer, os: seq<Outgoing>, w: Bytes)
    ensures (os != [] ==> |w| < |os[0].bytes|) ==> Explains(cfg, peer, os, w, Drained([], Open(peer, w)))
    ensures os != [] && |w| >= |os[0].bytes| >= HEADER_LENGTH && Deliver(cfg, peer, os[0].bytes, false).Err? ==>
              Explains(cfg, peer, os, w, Drained([], Closed(Refused(Deliver(cfg, peer, os[0].bytes, false).error))))
  {
    hide Deliver;
    assert os[..0] == [];
    assert [] + w == w;
  }

  /**
    Whatever part of the messages has arrived, the peer takes exactly the complete ones, as they were and in
    order. It never finds a frame broken: it stops early only at a message that its session does not let through.
   */
  lemma {:induction false} WireIsDelivered(cfg: Config, peer: Peer, os: seq<Outgoing>, w: Bytes)
    requires AllSound(cfg.net, os) && w <= Flat(os)
    ensures Explains(cfg, peer, os, w, DrainAll(cfg, peer, w))
    decreases |os|
  {
    hide Frame, Deliver, FrameType, Explains, Packed;
    FrontOfFlat(cfg.net, os, w);
    ExplainsNone(cfg, peer, os, w);
    assert os != [] ==> Sound(cfg.net, os[0]);
    if os != [] && |w| >= |os[0].bytes| {
      var n := |os[0].bytes|;
      var step := Deliver(cfg, peer, w[..n], false);
      if step.Ok? {
        var (next, d) := step.value;
        WireIsDelivered(cfg, next, os[1..], w[n..]);
        DeliveredFrame(cfg, peer, w[..n]);
        var r := DrainAll(cfg, next, w[n..]);
        ExplainsNext(cfg, peer, next, os, d, w[n..], r);
        assert w == os[0].bytes + w[n..];
        assert DrainAll(cfg, peer, w) == Drained([d] + r.delivered, r.end);
      }
    }
  }

  lemma DeliveredFrame(cfg: Config, peer: Peer, frame: Bytes)
    requires |frame| >= HEADER_LENGTH
    ensures Deliver(cfg, peer, frame, false).Ok? ==>
      && Deliver(cfg, peer, frame, false).value.1.frame == frame
      && Unpack(FrameType(cfg.net, frame), frame[HEADER_LENGTH..])
         == Ok(Deliver(cfg, peer, frame, false).value.1.payload)
  {
    hide Check, Unpack, Process, FrameType;
  }

  /** A message let through is a whole frame, and its payload is what the frame holds. */
  predicate Genuine(net: Net, d: Delivery) {
    && |d.frame| >= HEADER_LENGTH && Frame(net, d.frame) == Whole(|d.frame|)
    && Unpack(FrameType(net, d.frame), d.frame[HEADER_LENGTH..]) == Ok(d.payload)
  }

  function FlatFrames(ds: seq<Delivery>): Bytes {
    if ds == [] then [] else FlatFrames(ds[..|ds| - 1]) + ds[|ds| - 1].frame
  }

  lemma FlatFramesAppend(ds: seq<Delivery>, d: Delivery)
    ensures FlatFrames(ds + [d]) == FlatFrames(ds) + d.frame
  {
    assert (ds + [d])[..|ds|] == ds;
  }

  lemma {:induction false} FlatSplit(os: seq<Outgoing>, k: nat)
    requires k <= |os|
    ensures Flat(os) == Flat(os[..k]) + Flat(os[k..])
    decreases k
  {
    if k == 0 {
      assert os[..0] == [] && os[0..] == os;
    } else {
      FlatSplit(os[1..], k - 1);
      assert os[1..][..k - 1] == os[..k][1..] && os[1..][k - 1..] == os[k..];
      assert Flat(os[..k]) == os[0].bytes + Flat(os[..k][1..]);
    }
  }

  /** Two whole messages at the front of one stream are the same message. */
  lemma SameFront(net: Net, a: Bytes, b: Bytes, s: Bytes)
    requires Frame(net, a) == Whole(|a|) && Frame(net, b) == Whole(|b|) && a <= s && b <= s
    ensures a == b
  {
    hide Frame;
    assert s == a + s[|a|..] && s == b + s[|b|..];
    WholeExtends(net, a, s[|a|..]);
    WholeExtends(net, b, s[|b|..]);
  }

  /** Whole frames that make up the start of a sequence of messages are those messages. */
  lemma {:induction false} FramesAgree(net: Net, os: seq<Outgoing>, ds: seq<Delivery>)
    requires AllSound(net, os) && FlatFrames(ds) <= Flat(os)
    requires forall d | d in ds :: Genuine(net, d)
    ensures SameFrames(ds, os) && Flat(os[..|ds|]) == FlatFrames(ds)
    decreases |ds|
  {
    hide Frame, FrameType, Unpack, Packed;
    if ds == [] {
      assert os[..0] == [];
    } else {
      var k := |ds| - 1;
      var front, last := ds[..k], ds[k];
      assert FlatFrames(ds) == FlatFrames(front) + last.frame;
      FramesAgree(net, os, front);
      assert last in ds;
      NextAgrees(net, os, k, last);
      assert forall i | 0 <= i < k :: ds[i] == front[i];
    }
  }

  /** A whole frame after the first `k` messages is the next one. */
  lemma NextAgrees(net: Net, os: seq<Outgoing>, k: nat, d: Delivery)
    requires AllSound(net, os) && k <= |os| && Genuine(net, d) && Flat(os[..k]) + d.frame <= Flat(os)
    ensures k < |os| && d.frame == os[k].bytes && Flat(os[..k + 1]) == Flat(os[..k]) + d.frame
  {
    hide Frame, FrameType, Unpack, Packed, Flat, AllSound;
    FlatSplit(os, k);
    PrefixAfter(Flat(os[..k]), d.frame, Flat(os[k..]));
    FlatFront(os, k);
    SoundAt(net, os, k);
    SameFront(net, d.frame, os[k].bytes, Flat(os[k..]));
    FlatNext(os, k);
  }

  lemma SoundAt(net: Net, os: seq<Outgoing>, k: nat)
    requires AllSound(net, os) && k < |os|
    ensures Sound(net, os[k])
  {
    hide Sound;
  }

  lemma FlatNext(os: seq<Outgoing>, k: nat)
    requires k < |os|
    ensures Flat(os[..k + 1]) == Flat(os[..k]) + os[k].bytes
  {
    hide Flat;
    FlatAppend(os[..k], os[k]);
    assert os[..k + 1] == os[..k] + [os[k]];
  }

  lemma PrefixAfter(a: Bytes, b: Bytes, c: Bytes)
    requires a + b <= a + c
    ensures b <= c
  {
    assert b == (a + b)[|a|..];
    assert c == (a + c)[|a|..];
  }

  lemma FlatFront(os: seq<Outgoing>, k: nat)
    requires k <= |os| && Flat(os[k..]) != []
    ensures k < |os| && os[k].bytes <= Flat(os[k..])
  {
    assert k < |os| ==> os[k..][0] == os[k];
  }

  /** The frame of an address request, and what becomes of it once the handshake is complete. */
  lemma RequestDelivered(cfg: Config, peer: Peer, tail: Bytes)
    requires cfg.Valid() && peer.status == COMPLETED
    ensures Packed(cfg.net, NullMsg(GetAddr)).Some?
    ensures var f := Packed(cfg.net, NullMsg(GetAddr)).value;
      && |f| >= HEADER_LENGTH && Frame(cfg.net, f + tail) == Whole(|f|)
      && Deliver(cfg, peer, f, false) ==
           Ok((peer.(getAddrs := peer.getAddrs + 1),
               Delivery(f, NullMsg(GetAddr), if cfg.inboundConnection && peer.getAddrs > 1 then []
                        else [Notify(NullMsg(GetAddr))])))
  {
    hide Frame, Packed, FrameType, Unpack, Deliver, Faithful;
    RequestPacks(cfg.net);
    var f := Packed(cfg.net, NullMsg(GetAddr)).value;
    PackedIsSound(cfg.net, NullMsg(GetAddr), Normal);
    PackedUnpacks(cfg.net, NullMsg(GetAddr));
    assert Faithful(NullMsg(GetAddr), DEFAULT_PROTOCOL_VERSION) by { RequestIsFaithful(); }
    WholeExtends(cfg.net, f, tail);
    DeliverRequest(cfg, peer, f);
  }

  lemma RequestIsFaithful()
    ensures Faithful(NullMsg(GetAddr), DEFAULT_PROTOCOL_VERSION)
  {
  }

  lemma DeliverRequest(cfg: Config, peer: Peer, f: Bytes)
    requires peer.status == COMPLETED && |f| >= HEADER_LENGTH && FrameType(cfg.net, f) == GetAddr
    requires Unpack(GetAddr, f[HEADER_LENGTH..]) == Ok(NullMsg(GetAddr))
    ensures Deliver(cfg, peer, f, false) ==
      Ok((peer.(getAddrs := peer.getAddrs + 1),
          Delivery(f, NullMsg(GetAddr), if cfg.inboundConnection && peer.getAddrs > 1 then []
                   else [Notify(NullMsg(GetAddr))])))
  {
    hide FrameType, Unpack;
  }

  lemma RequestPacks(net: Net)
    ensures Packed(net, NullMsg(GetAddr)).Some?
  {
    hide Build, TypeOfCommand, CheckPayload, ParseHeader;
    BuiltHeader(net, GetAddr, []);
  }

  /**
    Three address requests in a row on an inbound connection: the second still reaches the hub, and the third is
    the first that does not.
   */
  lemma ThirdRequestIgnored(cfg: Config, peer: Peer)
    requires cfg.Valid() && cfg.inboundConnection && peer.status == COMPLETED && peer.getAddrs == 0
    ensures Packed(cfg.net, NullMsg(GetAddr)).Some?
    ensures var f := Packed(cfg.net, NullMsg(GetAddr)).value;
      && Handed(DrainAll(cfg, peer, f + f).delivered) == 2
      && Asked(DrainAll(cfg, peer, f + (f + f)).delivered) == 3
      && Handed(DrainAll(cfg, peer, f + (f + f)).delivered) == 2
  {
    hide Frame, Deliver, Packed, Handed;
    RequestPacks(cfg.net);
    var f := Packed(cfg.net, NullMsg(GetAddr)).value;
    RequestsDrained(cfg, peer, f + f);
    RequestsDrained(cfg, peer, f);
    RequestsDrained(cfg, peer.(getAddrs := 1), f);
    RequestsDrained(cfg, peer.(getAddrs := 1), []);
    RequestsDrained(cfg, peer.(getAddrs := 2), []);
    assert f + [] == f;
    ShortIsMore(cfg.net, []);
    RequestsHanded(cfg, peer, f + f);
    RequestsHanded(cfg, peer, f + (f + f));
  }

  /** One more request at the front of a stream. */
  lemma RequestsDrained(cfg: Config, peer: Peer, tail: Bytes)
    requires cfg.Valid() && peer.status == COMPLETED
    ensures Packed(cfg.net, NullMsg(GetAddr)).Some?
    ensures var f := Packed(cfg.net, NullMsg(GetAddr)).value;
      Asked(DrainAll(cfg, peer, f + tail).delivered)
      == 1 + Asked(DrainAll(cfg, peer.(getAddrs := peer.getAddrs + 1), tail).delivered)
  {
    hide Frame, Deliver, Packed;
    RequestDelivered(cfg, peer, tail);
    var f := Packed(cfg.net, NullMsg(GetAddr)).value;
    assert (f + tail)[..|f|] == f && (f + tail)[|f|..] == tail;
    var d := Deliver(cfg, peer, f, false).value.1;
    var ds := DrainAll(cfg, peer.(getAddrs := peer.getAddrs + 1), tail).delivered;
    assert ([d] + ds)[1..] == ds;
  }
}
