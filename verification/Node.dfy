/**
  `Node`: one connection to a peer (src/node/network/node.cpp), its receive loop proved against Receive and
  its send pump against the messages it was given.
 */
module Nodes {
  import opened Common
  import opened Bits
  import opened Codec
  import opened Payloads
  import opened Protocol
  import opened Framing
  import opened Handshake
  import opened PayloadTypes
  import opened Processing
  import opened Receive
  import opened Outbox
  import opened Hub
  import opened Messages

  const MAX_BYTES_PER_IO := 16 * 1024

  function Kinds(os: seq<Outgoing>): seq<MessageType> {
    if os == [] then [] else Kinds(os[..|os| - 1]) + [os[|os| - 1].kind]
  }

  /** The types of the messages of one direction that the handshake has let through, in order. */
  function KindsOf(accepted: seq<Event>, direction: Direction): seq<MessageType> {
    if accepted == [] then []
    else
      var last := accepted[|accepted| - 1];
      KindsOf(accepted[..|accepted| - 1], direction) + if last.direction == direction then [last.kind] else []
  }

  /** The bytes of the message in the barrel that have not been copied out yet. */
  function Unsent(outbound: Option<Outgoing>, cursor: int): Bytes {
    match outbound
    case None => []
    case Some(o) => if 0 <= cursor <= |o.bytes| then o.bytes[cursor..] else []
  }

  /** No byte is lost, repeated or reordered between the queue and the socket. */
  predicate Conserved(wire: Bytes, sendBuffer: Bytes, outbound: Option<Outgoing>, cursor: int, sent: seq<Outgoing>) {
    wire + (sendBuffer + Unsent(outbound, cursor)) == Flat(sent)
  }

  /** Everything pushed is still queued, was let out or was refused; all of it is complete messages. */
  ghost predicate Accounted(net: Net, queue: seq<Outgoing>, sent: seq<Outgoing>, refused: multiset<Outgoing>,
                            pushed: multiset<Outgoing>)
  {
    AllSound(net, queue) && AllSound(net, sent) && multiset(queue) + multiset(sent) + refused == pushed
  }

  /**
    The status word and the announcements are those of the checks made so far, and what was sent is what they let out.
   */
  ghost predicate Tracked(status: Status, completions: nat, sent: seq<Outgoing>, events: seq<Event>) {
    var s := Run(events);
    status == s.status && completions == s.completions && Kinds(sent) == KindsOf(s.accepted, Outbound)
  }

  lemma RunAppend(events: seq<Event>, e: Event)
    ensures Run(events + [e]) == Step(Run(events), e)
  {
    assert (events + [e])[..|events|] == events;
  }

  lemma KindsAppend(os: seq<Outgoing>, o: Outgoing)
    ensures Kinds(os + [o]) == Kinds(os) + [o.kind]
  {
    assert (os + [o])[..|os|] == os;
  }

  lemma KindsOfAppend(accepted: seq<Event>, e: Event, direction: Direction)
    ensures KindsOf(accepted + [e], direction)
            == KindsOf(accepted, direction) + if e.direction == direction then [e.kind] else []
  {
    assert (accepted + [e])[..|accepted|] == accepted;
  }

  /** An inbound check keeps the session tracked. */
  lemma TrackInbound(status: Status, completions: nat, sent: seq<Outgoing>, events: seq<Event>, t: MessageType)
    requires Tracked(status, completions, sent, events)
    ensures var e := Event(Inbound, t);
      var next := Check(status, e);
      Tracked(if next.Ok? then next.value else status, completions + Announced(next, e), sent, events + [e])
  {
    hide Check, Run;
    var e := Event(Inbound, t);
    RunAppend(events, e);
    KindsOfAppend(Run(events).accepted, e, Outbound);
  }

  /** An outbound check keeps the session tracked when the message is sent exactly if it was let through. */
  lemma TrackOutbound(status: Status, completions: nat, sent: seq<Outgoing>, events: seq<Event>, o: Outgoing)
    requires Tracked(status, completions, sent, events)
    ensures var e := Event(Outbound, o.kind);
      var next := Check(status, e);
      Tracked(if next.Ok? then next.value else status, completions + Announced(next, e),
              if next.Ok? then sent + [o] else sent, events + [e])
  {
    hide Check, Run;
    var e := Event(Outbound, o.kind);
    RunAppend(events, e);
    KindsOfAppend(Run(events).accepted, e, Outbound);
    KindsAppend(sent, o);
  }

  /** The session after a message of type `kind` came up for sending: a ping let out starts a sample. */
  function PeerAfterCheck(peer: Peer, kind: MessageType): Peer {
    match Check(peer.status, Event(Outbound, kind))
    case Err(_) => peer
    case Ok(status) => peer.(status := status, pingPending := peer.pingPending || kind == Ping)
  }

  /** What becomes of queue and session when a write starts, given what was left in the barrel. */
  ghost predicate Taken(unsent: Bytes, queue0: seq<Outgoing>, top: int, peer0: Peer, going: bool,
                        queue1: seq<Outgoing>, peer1: Peer)
  {
    if unsent != [] then going && queue1 == queue0 && peer1 == peer0
    else if queue0 == [] then !going && queue1 == [] && peer1 == peer0
    else
      && 0 <= top < |queue0|
      && queue1 == queue0[..top] + queue0[top + 1..]
      && peer1 == PeerAfterCheck(peer0, queue0[top].kind)
      && going == Check(peer0.status, Event(Outbound, queue0[top].kind)).Ok?
  }

  /** Whether a check has `on_handshake_completed` posted. */
  function Announced(next: Result<Status>, e: Event): nat {
    if next.Ok? && e.IsHandshake() && next.value == COMPLETED then 1 else 0
  }

  /** Taking a chunk of the message in the barrel. */
  lemma ConservedTake(wire: Bytes, sendBuffer: Bytes, o: Outgoing, cursor: int, n: int, sent: seq<Outgoing>)
    requires 0 <= cursor <= cursor + n <= |o.bytes|
    requires Conserved(wire, sendBuffer, Some(o), cursor, sent)
    ensures Conserved(wire, sendBuffer + o.bytes[cursor..cursor + n], Some(o), cursor + n, sent)
  {
    hide Flat, Unsent;
    UnsentIs(o, cursor);
    UnsentIs(o, cursor + n);
    MovePart(sendBuffer, o.bytes, cursor, cursor + n);
  }

  lemma UnsentIs(o: Outgoing, cursor: int)
    requires 0 <= cursor <= |o.bytes|
    ensures Unsent(Some(o), cursor) == o.bytes[cursor..]
  {
  }

  lemma MovePart(front: Bytes, back: Bytes, i: int, j: int)
    requires 0 <= i <= j <= |back|
    ensures front + back[i..] == (front + back[i..j]) + back[j..]
  {
    assert back[i..] == back[i..j] + back[j..];
  }

  /** Loading the barrel with the next message. */
  lemma ConservedLoad(wire: Bytes, sendBuffer: Bytes, o: Outgoing, sent: seq<Outgoing>)
    requires Conserved(wire, sendBuffer, None, 0, sent)
    ensures Conserved(wire, sendBuffer, Some(o), 0, sent + [o])
  {
    FlatAppend(sent, o);
    assert sendBuffer + [] == sendBuffer;
    assert o.bytes[0..] == o.bytes;
    assert wire + (sendBuffer + o.bytes) == (wire + sendBuffer) + o.bytes;
  }

  /** Bytes taken by the socket. */
  lemma ConservedWrite(wire: Bytes, sendBuffer: Bytes, outbound: Option<Outgoing>, cursor: int, sent: seq<Outgoing>,
                       n: int)
    requires 0 <= n <= |sendBuffer|
    requires Conserved(wire, sendBuffer, outbound, cursor, sent)
    ensures Conserved(wire + sendBuffer[..n], sendBuffer[n..], outbound, cursor, sent)
  {
    hide Flat, Unsent;
    assert sendBuffer == sendBuffer[..n] + sendBuffer[n..];
    var rest := Unsent(outbound, cursor);
    assert wire + (sendBuffer + rest) == (wire + sendBuffer[..n]) + (sendBuffer[n..] + rest);
  }

  lemma RemoveAt(queue: seq<Outgoing>, top: int)
    requires 0 <= top < |queue|
    ensures multiset(queue[..top] + queue[top + 1..]) + multiset{queue[top]} == multiset(queue)
  {
    assert queue == queue[..top] + ([queue[top]] + queue[top + 1..]);
  }

  lemma AccountedMove(net: Net, o: Outgoing, queue: seq<Outgoing>, sent: seq<Outgoing>, refused: multiset<Outgoing>,
                      pushed: multiset<Outgoing>)
    requires Accounted(net, [o] + queue, sent, refused, pushed)
    ensures Accounted(net, queue, sent + [o], refused, pushed)
    ensures Accounted(net, queue, sent, refused + multiset{o}, pushed)
  {
    hide Sound;
    assert o in [o] + queue;
    assert forall q | q in queue :: q in [o] + queue;
  }

  lemma AccountedTop(net: Net, queue: seq<Outgoing>, top: int, sent: seq<Outgoing>, refused: multiset<Outgoing>,
                     pushed: multiset<Outgoing>)
    requires 0 <= top < |queue|
    requires Accounted(net, queue, sent, refused, pushed)
    ensures Accounted(net, [queue[top]] + (queue[..top] + queue[top + 1..]), sent, refused, pushed)
  {
    hide Sound;
    RemoveAt(queue, top);
    var rest := queue[..top] + queue[top + 1..];
    forall q | q in [queue[top]] + rest ensures q in queue {
      if q in rest {
        assert q in queue[..top] || q in queue[top + 1..];
      }
    }
  }

  lemma SoundTop(net: Net, queue: seq<Outgoing>, top: int, sent: seq<Outgoing>, refused: multiset<Outgoing>,
                 pushed: multiset<Outgoing>)
    requires 0 <= top < |queue|
    requires Accounted(net, queue, sent, refused, pushed)
    ensures |queue[top].bytes| >= HEADER_LENGTH
  {
    hide Frame, FrameType, Packed;
    assert Sound(net, queue[top]);
  }

  lemma EmptyBarrel(wire: Bytes, sendBuffer: Bytes, outbound: Option<Outgoing>, cursor: int, sent: seq<Outgoing>)
    requires Conserved(wire, sendBuffer, outbound, cursor, sent)
    ensures Unsent(outbound, cursor) == [] ==> forall c :: Conserved(wire, sendBuffer, None, c, sent)
  {
  }

  /**
    What has arrived is whole frames, one after the other, then what is pending; after a failure, only the frames are
    known.
   */
  ghost predicate Framed(net: Net, arrived: Bytes, received: seq<Delivery>, pending: Bytes, failed: bool) {
    && (forall d | d in received :: Genuine(net, d))
    && FlatFrames(received) <= arrived
    && (!failed ==> arrived == FlatFrames(received) + pending)
  }

  lemma FramedMore(net: Net, arrived: Bytes, received: seq<Delivery>, pending: Bytes, data: Bytes)
    requires Framed(net, arrived, received, pending, false)
    ensures Framed(net, arrived + data, received, pending + data, false)
  {
    hide Genuine;
    assert arrived + data == FlatFrames(received) + (pending + data);
  }

  lemma FramedFailed(net: Net, arrived: Bytes, received: seq<Delivery>, pending: Bytes, data: Bytes)
    requires Framed(net, arrived, received, pending, false)
    ensures Framed(net, arrived + data, received, [], true)
  {
    hide Genuine;
  }

  lemma FramedWhole(net: Net, arrived: Bytes, received: seq<Delivery>, pending: Bytes, data: Bytes, d: Delivery,
                    rest: Bytes)
    requires Framed(net, arrived, received, pending, false) && Genuine(net, d)
    requires |rest| < |data| && d.frame + rest == pending + data
    ensures Framed(net, arrived + data[..|data| - |rest|], received + [d], [], false)
  {
    hide Genuine;
    FlatFramesAppend(received, d);
    var taken := data[..|data| - |rest|];
    assert pending + taken == (pending + data)[..|d.frame|] == d.frame;
    assert arrived + taken == (FlatFrames(received) + d.frame) + [];
  }

  function PongCount(ds: seq<Delivery>): nat {
    if ds == [] then 0 else PongCount(ds[..|ds| - 1]) + |PongIn(ds[|ds| - 1].payload)|
  }

  function PingCount(os: seq<Outgoing>): nat {
    if os == [] then 0 else PingCount(os[..|os| - 1]) + if os[|os| - 1].kind == Ping then 1 else 0
  }

  /** The address requests among payloads. */
  function Requests(ps: seq<Payload>): nat {
    if ps == [] then 0 else RequestOf(ps[0]) + Requests(ps[1..])
  }

  /**
    The books of a session: no more pongs than pings sent, one of which may be under way; the requests counted; what
    the hub was handed is what the messages set off, at most two requests on an inbound connection, and no version
    but the blank one.
   */
  ghost predicate Counted(cfg: Config, peer: Peer, received: seq<Delivery>, sent: seq<Outgoing>,
                          forwarded: seq<Payload>)
  {
    && PongCount(received) + (if peer.pingPending then 1 else 0) <= PingCount(sent)
    && peer.getAddrs == RequestCount(received)
    && forwarded == NotifiedBy(received)
    && Informed(cfg, peer, received, forwarded)
    && Requests(forwarded) == (if cfg.inboundConnection then Min(peer.getAddrs, 2) else peer.getAddrs)
    && (!HasFlag(peer.status, 2) ==> peer.remote == NO_VERSION)
    && (forall p | p in forwarded && p.VersionMsg? :: p.version == NO_VERSION)
  }

  /** The hub has what the messages let through hand to it, and the last version is remembered. */
  predicate Informed(cfg: Config, peer: Peer, received: seq<Delivery>, forwarded: seq<Payload>) {
    && peer.getAddrs == RequestCount(received)
    && forwarded == HubGets(cfg.inboundConnection, received, NO_VERSION, 0)
    && peer.remote == LastVersion(received, NO_VERSION)
  }

  lemma InformedDelivery(cfg: Config, before: Peer, frame: Bytes, after: Peer, d: Delivery, received: seq<Delivery>,
                         forwarded: seq<Payload>)
    requires Informed(cfg, before, received, forwarded)
    requires |frame| >= HEADER_LENGTH && Deliver(cfg, before, frame, false) == Ok((after, d))
    ensures Informed(cfg, after, received + [d], forwarded + Notified(d.actions))
  {
    hide Deliver, RequestOf, Notified, RequestCount, HubGets, LastVersion, Reaches;
    DeliveryHands(cfg, before, frame);
    HubGetsMore(cfg.inboundConnection, received, d, NO_VERSION, 0);
  }

  /** The books of a session that has not begun. */
  lemma NotBegun(cfg: Config)
    ensures Counted(cfg, NEW_PEER, [], [], []) && Framed(cfg.net, [], [], [], false)
    ensures Accounted(cfg.net, [], [], multiset{}, multiset{}) && Conserved([], [], None, 0, [])
    ensures Tracked(NOT_INITIATED, 0, [], [])
  {
  }

  lemma CountedKept(cfg: Config, before: Peer, after: Peer, received: seq<Delivery>, sent: seq<Outgoing>,
                    forwarded: seq<Payload>)
    requires Counted(cfg, before, received, sent, forwarded) && Kept(before, after)
    ensures Counted(cfg, after, received, sent, forwarded)
  {
    hide NotifiedBy, HasFlag;
  }

  lemma CountedNonce(cfg: Config, peer: Peer, received: seq<Delivery>, sent: seq<Outgoing>, forwarded: seq<Payload>,
                     nonce: U64)
    requires Counted(cfg, peer, received, sent, forwarded)
    ensures Counted(cfg, peer.(pingNonce := Some(nonce)), received, sent, forwarded)
  {
    hide NotifiedBy, HasFlag;
  }

  lemma OutboundFlag(status: Status, t: MessageType)
    requires Check(status, Event(Outbound, t)).Ok?
    ensures HasFlag(status, 2) <==> HasFlag(Check(status, Event(Outbound, t)).value, 2)
  {
    hide BitAnd, BitOr;
    if t == Version { FlagBits(status, 1); }
    if t == VerAck { FlagBits(status, 4); }
  }

  lemma PingCountAppend(os: seq<Outgoing>, o: Outgoing)
    ensures PingCount(os + [o]) == PingCount(os) + if o.kind == Ping then 1 else 0
  {
    assert (os + [o])[..|os|] == os;
  }

  /** A message that comes up for sending keeps the books. */
  lemma CountedCheck(cfg: Config, peer: Peer, received: seq<Delivery>, sent: seq<Outgoing>, forwarded: seq<Payload>,
                     o: Outgoing)
    requires Counted(cfg, peer, received, sent, forwarded)
    ensures Counted(cfg, PeerAfterCheck(peer, o.kind), received,
                    if Check(peer.status, Event(Outbound, o.kind)).Ok? then sent + [o] else sent, forwarded)
  {
    hide NotifiedBy, HasFlag, Check;
    PingCountAppend(sent, o);
    if Check(peer.status, Event(Outbound, o.kind)).Ok? { OutboundFlag(peer.status, o.kind); }
  }

  lemma CountsAppend(ds: seq<Delivery>, d: Delivery)
    ensures PongCount(ds + [d]) == PongCount(ds) + |PongIn(d.payload)|
    ensures RequestCount(ds + [d]) == RequestCount(ds) + RequestOf(d.payload)
  {
    assert (ds + [d])[..|ds|] == ds;
  }

  lemma {:induction false} RequestsJoin(a: seq<Payload>, b: seq<Payload>)
    ensures Requests(a + b) == Requests(a) + Requests(b)
    decreases |a|
  {
    if a == [] {
      assert a + b == b;
    } else {
      RequestsJoin(a[1..], b);
      assert (a + b)[1..] == a[1..] + b;
    }
  }

  /** What the hub is handed among the actions. */
  lemma {:induction false} HandedNotified(actions: seq<Action>)
    ensures Requests(Notified(actions)) == HandedOf(actions)
    ensures forall p | p in Notified(actions) && p.VersionMsg? :: p.version in ToldOf(actions)
    decreases |actions|
  {
    if actions != [] {
      HandedNotified(actions[1..]);
      var first: seq<Payload> := if actions[0].Notify? then [actions[0].payload] else [];
      RequestsJoin(first, Notified(actions[1..]));
      assert first != [] ==> first[1..] == [];
    }
  }

  /** A message let through keeps the books. */
  lemma CountedDelivery(cfg: Config, before: Peer, frame: Bytes, after: Peer, d: Delivery, received: seq<Delivery>,
                        sent: seq<Outgoing>, forwarded: seq<Payload>)
    requires Counted(cfg, before, received, sent, forwarded)
    requires |frame| >= HEADER_LENGTH && Deliver(cfg, before, frame, false) == Ok((after, d))
    ensures Counted(cfg, after, received + [d], sent, forwarded + Notified(d.actions))
  {
    hide Deliver, HasFlag, PongIn, RequestOf, HandedOf, ToldOf, Notified, Awaited, PongCount, RequestCount, Requests,
         NotifiedBy, Informed;
    CountsAppend(received, d);
    MoreBy(cfg.net, received, d);
    DeliveryAwaits(cfg, before, frame);
    PongEndsSample(cfg, before, frame);
    DeliveryTells(cfg, before, frame);
    DeliveryAnswers(cfg, before, frame);
    InformedDelivery(cfg, before, frame, after, d, received, forwarded);
    RequestsJoin(forwarded, Notified(d.actions));
    HandedNotified(d.actions);
    OneRequest(d.payload);
  }

  /** A pong let through ends the sample that was under way; nothing else does. */
  lemma PongEndsSample(cfg: Config, before: Peer, frame: Bytes)
    requires |frame| >= HEADER_LENGTH && Deliver(cfg, before, frame, false).Ok?
    ensures var (after, d) := Deliver(cfg, before, frame, false).value;
      (if before.pingPending then 1 else 0) == |PongIn(d.payload)| + if after.pingPending then 1 else 0
  {
    hide Unpack, Check, VersionAnswers;
  }

  /** A comparator-maximal element: the queue's order puts the largest priority value on top. */
  predicate IsTop(queue: seq<Outgoing>, top: int) {
    0 <= top < |queue| && forall j | 0 <= j < |queue| :: queue[j].priority.Value() <= queue[top].priority.Value()
  }

  /**
    What is sent first is a low-priority message, if there is one, and a high-priority one only if there is no other.
   */
  lemma LowFirst(queue: seq<Outgoing>, top: int)
    requires 0 <= top < |queue|
    ensures IsTop(queue, top) <==>
      || queue[top].priority == Low
      || (queue[top].priority == Normal && forall o | o in queue :: o.priority != Low)
      || (queue[top].priority == High && forall o | o in queue :: o.priority == High)
  {
    if IsTop(queue, top) {
      forall o | o in queue ensures o.priority.Value() <= queue[top].priority.Value() {
      }
    } else {
      var j :| 0 <= j < |queue| && queue[j].priority.Value() > queue[top].priority.Value();
      assert queue[j] in queue;
    }
  }

  class Node {
    const cfg: Config
    var peer: Peer
    var completions: nat
    var inbound: Message?
    var queue: seq<Outgoing>
    var outbound: Option<Outgoing>
    var cursor: int
    var sendBuffer: Bytes
    var isWriting: bool
    var stopRequested: bool
    /** Payloads handed to the node hub. */
    var forwarded: seq<Payload>
    /** Every handshake check made, in order. */
    ghost var events: seq<Event>
    /** Everything pushed, everything let out, and everything refused on its way out. */
    ghost var pushed: multiset<Outgoing>
    ghost var sent: seq<Outgoing>
    ghost var refused: multiset<Outgoing>
    /** The bytes that a running node was told the socket has taken. */
    ghost var wire: Bytes
    /** The bytes that have arrived, the messages let through, and whether one was refused. */
    ghost var arrived: Bytes
    ghost var received: seq<Delivery>
    ghost var failed: bool

    ghost predicate ValidInbound()
      reads this, inbound, if inbound == null then {} else {inbound.stream}
    {
      inbound != null ==> inbound.Valid() && !inbound.IsComplete() && inbound.net == cfg.net
    }

    ghost predicate ValidSession()
      reads this
    {
      cfg.Valid() && peer.version == DEFAULT_PROTOCOL_VERSION && Tracked(peer.status, completions, sent, events)
    }

    ghost predicate ValidOutbound()
      reads this
    {
      && Accounted(cfg.net, queue, sent, refused, pushed)
      && Conserved(wire, sendBuffer, outbound, cursor, sent)
      && (outbound.Some? ==> 0 < cursor <= |outbound.value.bytes|)
    }

    ghost predicate Core()
      reads this, inbound, if inbound == null then {} else {inbound.stream}
    {
      ValidSession() && ValidInbound() && ValidOutbound()
    }

    /** What has arrived is the messages let through, then the unfinished one; and the books on them are in order. */
    ghost predicate Recorded()
      reads this, inbound, if inbound == null then {} else {inbound.stream}
    {
      Framed(cfg.net, arrived, received, Pending(), failed) && Counted(cfg, peer, received, sent, forwarded)
    }

    ghost predicate Valid()
      reads this, inbound, if inbound == null then {} else {inbound.stream}
    {
      Core() && Recorded()
    }

    /** What is pending is short of a message. */
    lemma PendingIsMore()
      requires ValidInbound()
      ensures Frame(cfg.net, Pending()) == More
    {
      hide CheckHeader, Judge;
    }

    lemma NothingWhole()
      requires Core()
      ensures Frame(cfg.net, Pending()) == More
    {
      PendingIsMore();
    }

    /** The unfinished message. */
    ghost function Pending(): Bytes
      reads this, inbound, if inbound == null then {} else {inbound.stream}
    {
      if inbound == null then [] else inbound.stream.buffer
    }

    constructor (cfg: Config)
      requires cfg.Valid()
      ensures Valid() && this.cfg == cfg && peer == NEW_PEER && inbound == null && queue == [] && wire == []
      ensures !isWriting && !stopRequested && forwarded == [] && sent == [] && completions == 0
      ensures arrived == [] && received == [] && !failed
    {
      hide Accounted, Conserved, Tracked, Framed, Counted, Message.Valid, Message.IsComplete, Config.Valid;
      this.cfg := cfg;
      peer, completions, inbound := NEW_PEER, 0, null;
      queue, outbound, cursor, sendBuffer, isWriting, stopRequested := [], None, 0, [], false, false;
      forwarded, events, pushed, sent, refused, wire := [], [], multiset{}, [], multiset{}, [];
      arrived, received, failed := [], [], false;
      NotBegun(cfg);
    }

    /** `validate_message_for_protocol_handshake`; the caller accounts for an outbound message in `sent`. */
    method CheckHandshake(e: Event) returns (r: Result<()>)
      modifies this`peer, this`completions, this`events
      ensures events == old(events) + [e]
      ensures completions == old(completions) + Announced(Check(old(peer).status, e), e)
      ensures match Check(old(peer).status, e)
        case Err(error) => r == Err(error) && peer == old(peer)
        case Ok(status) => r.Ok? && peer == old(peer).(status := status)
    {
      hide BitAnd, BitOr;
      events := events + [e];
      var status := peer.status;
      if status == NOT_INITIATED && e.kind != Version { return Err(InvalidProtocolHandShake); }
      if status == COMPLETED {
        if e.kind == Version || e.kind == VerAck { return Err(DuplicateProtocolHandShake); }
        return Ok(());
      }
      var flag := 0;
      if e.kind == Version || e.kind == VerAck {
        flag := e.Flag();
        if BitAnd(status, flag) == flag { return Err(DuplicateProtocolHandShake); }
      }
      if flag != 0 {
        FlagBits(status, flag);
        var next := BitOr(status, flag);
        peer := peer.(status := next);
        if next == COMPLETED {
          completions := completions + 1;
        }
        return Ok(());
      }
      if status < VERSION_EXCHANGED { return Err(InvalidProtocolHandShake); }
      return Ok(());
    }

    /** `push_message` */
    method PushMessage(p: Payload, priority: Priority) returns (r: Result<()>)
      requires cfg.Valid() && ValidOutbound() && p.WellFormed()
      modifies this`queue, this`pushed
      ensures ValidOutbound()
      ensures r.Ok? <==> Packed(cfg.net, p).Some?
      ensures queue == old(queue) + if r.Ok? then [Outgoing(Packed(cfg.net, p).value, p.Type(), priority, p)] else []
    {
      hide Packed, Sound, Conserved;
      var bytes := Pack(cfg.net, p);
      if bytes.Err? { return Err(bytes.error); }
      PackedIsSound(cfg.net, p, priority);
      var o := Outgoing(bytes.value, p.Type(), priority, p);
      queue := queue + [o];
      pushed := pushed + multiset{o};
      return Ok(());
    }

    /** The answers to a version: our own, if it has not been sent yet, the acknowledgement, and a word to the hub. */
    method AnswerVersion(previous: VersionPayload)
      requires cfg.Valid() && ValidOutbound()
      modifies this`queue, this`pushed, this`forwarded
      ensures ValidOutbound()
      ensures var actions := VersionAnswers(cfg, peer.status, previous);
        queue == old(queue) + Queued(cfg.net, actions) && forwarded == old(forwarded) + Notified(actions)
    {
      hide Packed, Accounted, Conserved, HasFlag, VersionAnswers, Queued, Notified;
      var net := cfg.net;
      VersionEffects(cfg, peer.status, previous);
      OnePush(net, VersionMsg(cfg.local), High);
      OnePush(net, NullMsg(VerAck), High);
      if !HasFlag(peer.status, 1) {
        var _ := PushMessage(VersionMsg(cfg.local), High);
      }
      assert queue == old(queue) + if HasFlag(peer.status, 1) then []
             else Queued(net, [Push(VersionMsg(cfg.local), High)]);
      var _ := PushMessage(NullMsg(VerAck), High);
      forwarded := forwarded + [VersionMsg(previous)];
    }

    /** `process_inbound_message` */
    method ProcessInbound(p: Payload) returns (r: Result<()>)
      requires ValidSession() && ValidOutbound()
      modifies this`peer, this`queue, this`pushed, this`forwarded
      ensures ValidSession() && ValidOutbound()
      ensures match Process(cfg, old(peer), p)
        case Err(e) => r == Err(e) && peer == old(peer) && queue == old(queue) && forwarded == old(forwarded)
        case Ok((next, actions)) =>
          && r.Ok? && peer == next
          && queue == old(queue) + Queued(cfg.net, actions)
          && forwarded == old(forwarded) + Notified(actions)
    {
      hide Packed, Accounted, Conserved, VersionAnswers, Tracked, Queued, Notified;
      var net := cfg.net;
      NoActions(net);
      r := Ok(());
      match p
      case VersionMsg(v) =>
        if v.protocolVersion < MIN_SUPPORTED_VERSION || v.protocolVersion > MAX_SUPPORTED_VERSION {
          return Err(InvalidProtocolVersion);
        }
        if v.nonce == cfg.local.nonce { return Err(ConnectedToSelf); }
        var swapped := peer.remote;
        peer := peer.(remote := v, version := Min(cfg.local.protocolVersion, v.protocolVersion));
        AnswerVersion(swapped);
      case NullMsg(k) =>
        if !(k == VerAck || (k == GetAddr && cfg.inboundConnection && peer.getAddrs > 1)) {
          forwarded := forwarded + [p];
          OneNotify(net, p);
        }
      case PingPongMsg(k, nonce) =>
        if k == Ping {
          PongPacks(net, nonce);
          OnePush(net, PingPongMsg(Pong, nonce), High);
          r := PushMessage(PingPongMsg(Pong, nonce), High);
        } else {
          if !peer.pingPending || peer.pingNonce.None? { return Err(UnsolicitedPong); }
          if nonce != peer.pingNonce.value { return Err(InvalidPingPongNonce); }
          peer := peer.(pingPending := false, pingNonce := None);
        }
      case _ =>
        forwarded := forwarded + [p];
        OneNotify(net, p);
    }

    /** Feeding the message being read, or a new one. */
    method FeedInbound(data: Bytes) returns (r: Result<()>, rest: Bytes)
      requires ValidInbound() && data != []
      modifies this`inbound, inbound, if inbound == null then {} else {inbound.stream}
      ensures inbound != null && inbound.net == cfg.net
      ensures inbound == old(inbound) || (fresh(inbound) && fresh(inbound.stream))
      ensures match Frame(cfg.net, old(Pending()) + data)
        case More => Incomplete(r) && rest == [] && inbound.stream.buffer == old(Pending()) + data
                     && inbound.Valid() && !inbound.IsComplete()
        case Bad => r.Err? && !Incomplete(r)
        case Whole(n) => r.Ok? && inbound.stream.buffer + rest == old(Pending()) + data && |inbound.stream.buffer| == n
                         && inbound.Valid() && inbound.IsComplete()
    {
      hide Frame;
      ghost var before := Pending();
      if inbound == null {
        inbound := new Message(cfg.net);
      }
      assert inbound.stream.buffer == before;
      r, rest := inbound.Write(data);
    }

    /** Deserialization of a complete message, and the test for left-over bytes. */
    method UnpackInbound() returns (r: Result<Payload>)
      requires inbound != null && inbound.Valid() && inbound.IsComplete()
      modifies inbound.stream`pos
      ensures |inbound.stream.buffer| >= HEADER_LENGTH
      ensures r == Unpack(inbound.kind, inbound.stream.buffer[HEADER_LENGTH..])
    {
      hide Decode, Frame, CheckHeader, Judge;
      assert inbound.stream.Unread() == inbound.stream.buffer[HEADER_LENGTH..];
      r := Deserialize(inbound.stream, inbound.kind);
      if r.Ok? && inbound.stream.pos != |inbound.stream.buffer| { return Err(MessagePayloadExtraData); }
    }

    /** What follows once the message is complete: handshake, deserialization, flooding, processing. */
    method HandleComplete(flooding: bool) returns (r: Result<()>)
      requires ValidSession() && ValidOutbound()
      requires inbound != null && inbound.Valid() && inbound.IsComplete() && inbound.net == cfg.net
      modifies this`peer, this`completions, this`queue, this`pushed, this`forwarded, this`events, inbound.stream`pos
      ensures ValidSession() && ValidOutbound()
      ensures !Incomplete(r) && Handled(cfg, old(peer), inbound.stream.buffer, flooding, r, peer)
      ensures Effects(cfg, old(peer), inbound.stream.buffer, flooding, old(queue), queue, old(forwarded), forwarded)
    {
      hide Check, Process, Unpack, Deliver, Handled, Effects, Accounted, Conserved, Tracked, Queued, Notified,
           FrameType, Message.Valid, Message.IsComplete;
      ghost var before, frame, queue0, forwarded0 := peer, inbound.stream.buffer, queue, forwarded;
      var t := inbound.kind;
      CompleteMessage(inbound);
      DeliverSteps(cfg, before, frame, flooding);
      TrackInbound(peer.status, completions, sent, events, t);
      r := CheckHandshake(Event(Inbound, t));
      if r.Err? {
        HandledRefusal(cfg, before, frame, flooding, r.error, peer, queue, forwarded);
        return;
      }
      KeptByCheck(before, t);
      var payload := UnpackInbound();
      if payload.Err? {
        HandledRefusal(cfg, before, frame, flooding, payload.error, peer, queue, forwarded);
        return Err(payload.error);
      }
      if flooding {
        HandledRefusal(cfg, before, frame, flooding, MessageFloodingDetected, peer, queue, forwarded);
        return Err(MessageFloodingDetected);
      }
      ghost var status := peer.status;
      r := ProcessInbound(payload.value);
      if r.Err? {
        HandledRefusal(cfg, before, frame, flooding, r.error, peer, queue, forwarded);
        return;
      }
      if t == GetAddr {
        peer := peer.(getAddrs := peer.getAddrs + 1);
      }
      HandledDelivery(cfg, before, frame, peer, queue0, queue, forwarded0, forwarded);
      return Ok(());
    }

    /** One turn of the loop: feed the message being read and, once it is complete, deal with it. */
    method ReceiveOne(data: Bytes, flooding: bool) returns (r: Result<()>, rest: Bytes)
      requires Core() && data != []
      modifies this`peer, this`completions, this`inbound, this`queue, this`pushed, this`forwarded, this`events,
               inbound, if inbound == null then {} else {inbound.stream}
      ensures Core()
      ensures r.Ok? || Incomplete(r) ==> |rest| < |data|
      ensures Incomplete(r) ==> Frame(cfg.net, old(Pending()) + data) == More
      ensures inbound == null || inbound == old(inbound) || (fresh(inbound) && fresh(inbound.stream))
      ensures match Frame(cfg.net, old(Pending()) + data)
        case More => Incomplete(r) && rest == [] && Pending() == old(Pending()) + data
                     && peer == old(peer) && queue == old(queue) && forwarded == old(forwarded)
        case Bad => r.Err? && !Incomplete(r) && inbound == null && peer == old(peer) && queue == old(queue)
          && forwarded == old(forwarded)
        case Whole(n) =>
          && n <= |old(Pending()) + data| && inbound == null
          && rest == (old(Pending()) + data)[n..]
          && Handled(cfg, old(peer), (old(Pending()) + data)[..n], flooding, r, peer)
          && Effects(cfg, old(peer), (old(Pending()) + data)[..n], flooding, old(queue), queue, old(forwarded),
                     forwarded)
    {
      hide Handled, Effects, Accounted, Conserved, Tracked, Frame, Message.Valid, Message.IsComplete;
      ghost var all := Pending() + data;
      FrameSize(cfg.net, all);
      ghost var pending := Pending();
      PendingIsMore();
      r, rest := FeedInbound(data);
      if Incomplete(r) { return; }
      if r.Ok? {
        WholeShrinks(cfg.net, pending, data);
        ghost var frame := inbound.stream.buffer;
        assert all[..|frame|] == frame && all[|frame|..] == rest;
        r := HandleComplete(flooding);
      }
      inbound := null;
    }

    /** The records of a read that leaves a message unfinished. */
    ghost method RecordMore(pending: Bytes, data: Bytes)
      requires Core() && !failed && Counted(cfg, peer, received, sent, forwarded)
      requires Framed(cfg.net, arrived, received, pending, false) && Pending() == pending + data
      modifies this`arrived
      ensures Core() && Recorded() && arrived == old(arrived) + data
    {
      hide Accounted, Conserved, Tracked, Framed, Counted, Message.Valid, Message.IsComplete;
      FramedMore(cfg.net, arrived, received, pending, data);
      arrived := arrived + data;
    }

    /** The records of a message refused, or of a broken frame. */
    ghost method RecordFailed(before: Peer, pending: Bytes, data: Bytes)
      requires Core() && !failed && Counted(cfg, before, received, sent, forwarded) && Kept(before, peer)
      requires Framed(cfg.net, arrived, received, pending, false) && inbound == null
      modifies this`arrived, this`failed
      ensures Core() && Recorded() && arrived == old(arrived) + data && failed
    {
      hide Accounted, Conserved, Tracked, Framed, Counted, Kept, Message.Valid, Message.IsComplete;
      FramedFailed(cfg.net, arrived, received, pending, data);
      CountedKept(cfg, before, peer, received, sent, forwarded);
      arrived, failed := arrived + data, true;
    }

    /** The records of a message let through. */
    ghost method RecordWhole(before: Peer, pending: Bytes, data: Bytes, d: Delivery, rest: Bytes,
                             forwarded0: seq<Payload>)
      requires Core() && !failed && Counted(cfg, before, received, sent, forwarded0)
      requires Framed(cfg.net, arrived, received, pending, false) && inbound == null
      requires Genuine(cfg.net, d) && |rest| < |data| && d.frame + rest == pending + data
      requires |d.frame| >= HEADER_LENGTH && Deliver(cfg, before, d.frame, false) == Ok((peer, d))
      requires forwarded == forwarded0 + Notified(d.actions)
      modifies this`arrived, this`received
      ensures Core() && Recorded() && arrived + rest == old(arrived) + data && received == old(received) + [d]
    {
      hide Accounted, Conserved, Tracked, Framed, Counted, Deliver, Genuine, Notified, Message.Valid,
           Message.IsComplete;
      CountedDelivery(cfg, before, d.frame, peer, d, received, sent, forwarded0);
      FramedWhole(cfg.net, arrived, received, pending, data, d, rest);
      var taken := data[..|data| - |rest|];
      assert taken + rest == data by { Behind(d.frame, rest, pending, data); }
      arrived, received := arrived + taken, received + [d];
    }

    /** One turn of the loop, with its records: it follows one step of draining. */
    method Turn(data: Bytes, flooding: bool, ghost budget: nat)
      returns (r: Result<()>, rest: Bytes, ghost ds: seq<Delivery>)
      requires Core() && Recorded() && !failed && data != [] && flooding == (budget == 0)
      modifies this`peer, this`completions, this`inbound, this`queue, this`pushed, this`forwarded, this`events,
               this`arrived, this`received, this`failed, inbound, if inbound == null then {} else {inbound.stream}
      ensures Core() && Recorded() && failed == (r.Err? && !Incomplete(r))
      ensures inbound == null || inbound == old(inbound) || (fresh(inbound) && fresh(inbound.stream))
      ensures !failed ==> |rest| < |data|
      ensures Stepped(cfg, old(peer), old(Pending()) + data, budget, r, ds, peer, Pending() + rest)
      ensures Incomplete(r) ==> rest == []
      ensures failed ==> rest == [] && Pending() == []
      ensures queue == old(queue) + QueuedBy(cfg.net, ds) && forwarded == old(forwarded) + NotifiedBy(ds)
      ensures arrived + rest == old(arrived) + data && received == old(received) + ds
    {
      hide Frame, Deliver, Handled, Effects, Resumed, Drain, QueuedBy, NotifiedBy, Core, Framed, Counted, Genuine,
           Kept, Notified, Queued;
      ghost var all, before := Pending() + data, peer;
      ghost var queue0, forwarded0, pending0 := queue, forwarded, Pending();
      ds := [];
      NothingBy(cfg.net);
      r, rest := ReceiveOne(data, flooding);
      if Incomplete(r) {
        assert Pending() + [] == Pending();
        RecordMore(pending0, data);
      } else if r.Err? {
        TurnRefused(cfg, before, all, budget, flooding, r, peer);
        if Frame(cfg.net, all).Whole? {
          NoEffects(cfg, before, all[..Frame(cfg.net, all).n], flooding, queue0, queue, forwarded0, forwarded);
          RefusalKeeps(cfg, before, all[..Frame(cfg.net, all).n], flooding, r, peer);
        } else {
          NothingChanged(before);
        }
        RecordFailed(before, pending0, data);
        rest := [];
      } else {
        ghost var d := TurnDelivered(cfg, before, all, budget, flooding, r, peer);
        LetThrough(cfg, before, all, flooding, peer, d, queue0, queue, forwarded0, forwarded);
        OneBy(cfg.net, d);
        ds := [d];
        RecordWhole(before, pending0, data, d, rest, forwarded0);
        assert Pending() + rest == rest;
      }
    }

    /**
      `parse_messages`: what is delivered, queued, forwarded and left pending is what draining the pending bytes
      and the new ones together prescribes. A node does not read on after a failure.
     */
    method ParseMessages(data: Bytes) returns (r: Result<()>, ghost delivered: seq<Delivery>)
      requires Valid() && !failed
      modifies this`peer, this`completions, this`inbound, this`queue, this`pushed, this`forwarded, this`events,
               this`arrived, this`received, this`failed, inbound, if inbound == null then {} else {inbound.stream}
      ensures Valid()
      ensures inbound == null || inbound == old(inbound) || (fresh(inbound) && fresh(inbound.stream))
      ensures Outcome(Drain(cfg, old(peer), old(Pending()) + data, 32), r, delivered, peer, Pending())
      ensures queue == old(queue) + QueuedBy(cfg.net, delivered)
      ensures forwarded == old(forwarded) + NotifiedBy(delivered)
      ensures arrived == old(arrived) + data && received == old(received) + delivered && failed == r.Err?
    {
      hide Frame, Stepped, Resumed, Drain, QueuedBy, NotifiedBy, Core, Recorded;
      var rest := data;
      var parsed := 0;
      delivered := [];
      r := Ok(());
      NothingBy(cfg.net);
      ghost var goal := Drain(cfg, peer, Pending() + data, MAX_MESSAGES_PER_READ);
      ResumedNone(goal);
      while rest != []
        invariant Core() && Recorded() && !failed && r.Ok?
        invariant inbound == null || inbound == old(inbound) || (fresh(inbound) && fresh(inbound.stream))
        invariant 0 <= parsed <= MAX_MESSAGES_PER_READ
        invariant goal == Resumed(delivered, Drain(cfg, peer, Pending() + rest, MAX_MESSAGES_PER_READ - parsed))
        invariant queue == old(queue) + QueuedBy(cfg.net, delivered)
        invariant forwarded == old(forwarded) + NotifiedBy(delivered)
        invariant arrived + rest == old(arrived) + data && received == old(received) + delivered
        decreases |rest|
      {
        ghost var budget := MAX_MESSAGES_PER_READ - parsed;
        ghost var before, all := peer, Pending() + rest;
        ghost var ds;
        r, rest, ds := Turn(rest, parsed + 1 > MAX_MESSAGES_PER_READ, budget);
        Advanced(cfg, before, all, budget, r, ds, peer, Pending() + rest, delivered);
        SomeBy(cfg.net, delivered, ds);
        delivered := delivered + ds;
        if r.Ok? {
          parsed := parsed + 1;
        } else if Incomplete(r) {
          r := Ok(());
        } else {
          return;
        }
      }
      assert Pending() + rest == Pending();
      NothingWhole();
      StuckDrain(cfg, peer, Pending(), MAX_MESSAGES_PER_READ - parsed);
      ResumedEnd(delivered, Open(peer, Pending()));
    }

    /**
      `on_ping_timer_expired` with the random nonce given. It waits for the answer to a ping that has been sent, but
      not for a ping that is still queued: the nonce remembered is that of the last ping queued.
     */
    method OnPingTimer(nonce: U64, running: bool) returns (r: Result<()>)
      requires Valid() && nonce > 0
      modifies this`queue, this`pushed, this`peer
      ensures Valid() && r.Ok?
      ensures !running || old(peer).pingPending ==> queue == old(queue) && peer == old(peer)
      ensures running && !old(peer).pingPending ==>
        && Packed(cfg.net, PingPongMsg(Ping, nonce)).Some?
        && queue == old(queue) + [Outgoing(Packed(cfg.net, PingPongMsg(Ping, nonce)).value, Ping, High,
                                           PingPongMsg(Ping, nonce))]
        && peer == old(peer).(pingNonce := Some(nonce))
    {
      hide Packed, Accounted, Conserved, Tracked, Framed, Counted;
      if !running || peer.pingPending { return Ok(()); }
      PingPacks(cfg.net, nonce);
      CountedNonce(cfg, peer, received, sent, forwarded, nonce);
      var pushedPing := PushMessage(PingPongMsg(Ping, nonce), High);
      peer := peer.(pingNonce := Some(nonce));
      return Ok(());
    }

    /** The barrel is emptied of a message that has been copied out, and loaded from the top of the queue. */
    method LoadBarrel(top: int) returns (loaded: bool)
      requires ValidOutbound()
      requires queue != [] ==> IsTop(queue, top)
      modifies this`outbound, this`queue, this`cursor
      ensures old(Unsent(outbound, cursor)) != [] ==>
        !loaded && outbound == old(outbound) && outbound.Some? && cursor == old(cursor) < |outbound.value.bytes|
          && queue == old(queue)
      ensures old(Unsent(outbound, cursor)) == [] && old(queue) == [] ==> !loaded && outbound == None && queue == []
      ensures old(Unsent(outbound, cursor)) == [] && old(queue) != [] ==>
        && loaded && outbound == Some(old(queue)[top]) && cursor == 0
        && queue == old(queue)[..top] + old(queue)[top + 1..]
    {
      hide Accounted, Conserved;
      if outbound.Some? && cursor == |outbound.value.bytes| {
        outbound := None;
      }
      if outbound.Some? { return false; }
      if queue == [] { return false; }
      outbound := Some(queue[top]);
      queue := queue[..top] + queue[top + 1..];
      cursor := 0;
      return true;
    }

    /**
      A message just loaded is checked against the handshake before any of it is copied out; a refused one is
      dropped and the session is to be ended.
     */
    method CheckLoaded() returns (ok: bool)
      requires ValidSession() && outbound.Some? && cursor == 0
      requires Accounted(cfg.net, [outbound.value] + queue, sent, refused, pushed)
      requires Conserved(wire, sendBuffer, None, 0, sent)
      modifies this`outbound, this`peer, this`completions, this`events, this`sent, this`refused, this`stopRequested
      ensures ValidSession() && Accounted(cfg.net, queue, sent, refused, pushed)
      ensures Conserved(wire, sendBuffer, outbound, 0, sent)
      ensures ok <==> Check(old(peer).status, Event(Outbound, old(outbound).value.kind)).Ok?
      ensures events == old(events) + [Event(Outbound, old(outbound).value.kind)]
      ensures ok ==> outbound == old(outbound) && sent == old(sent) + [outbound.value]
                     && stopRequested == old(stopRequested)
      ensures !ok ==> outbound == None && sent == old(sent) && stopRequested
                      && refused == old(refused) + multiset{old(outbound).value}
      ensures peer == PeerAfterCheck(old(peer), old(outbound).value.kind)
    {
      hide Check, Conserved, Accounted, Tracked;
      var o := outbound.value;
      TrackOutbound(peer.status, completions, sent, events, o);
      AccountedMove(cfg.net, o, queue, sent, refused, pushed);
      var r := CheckHandshake(Event(Outbound, o.kind));
      if r.Err? {
        refused := refused + multiset{o};
        outbound := None;
        stopRequested := true;
        return false;
      }
      ConservedLoad(wire, sendBuffer, o, sent);
      sent := sent + [o];
      if o.kind == Ping {
        peer := peer.(pingPending := true);
      }
      return true;
    }

    /** The same, with the records of the session. */
    method CheckRecorded() returns (ok: bool)
      requires ValidSession() && Recorded() && outbound.Some? && cursor == 0
      requires Accounted(cfg.net, [outbound.value] + queue, sent, refused, pushed)
      requires Conserved(wire, sendBuffer, None, 0, sent)
      modifies this`outbound, this`peer, this`completions, this`events, this`sent, this`refused, this`stopRequested
      ensures ValidSession() && Recorded() && Accounted(cfg.net, queue, sent, refused, pushed)
      ensures Conserved(wire, sendBuffer, outbound, 0, sent)
      ensures ok <==> Check(old(peer).status, Event(Outbound, old(outbound).value.kind)).Ok?
      ensures events == old(events) + [Event(Outbound, old(outbound).value.kind)]
      ensures ok ==> outbound == old(outbound) && sent == old(sent) + [outbound.value]
      ensures !ok ==> outbound == None && sent == old(sent) && stopRequested
      ensures peer == PeerAfterCheck(old(peer), old(outbound).value.kind)
    {
      hide Check, Conserved, Accounted, Tracked, PeerAfterCheck, Framed, Counted;
      CountedCheck(cfg, peer, received, sent, forwarded, outbound.value);
      ok := CheckLoaded();
    }

    /** The work of `start_write` once it has the right to write: `going` says whether a write follows. */
    method Advance(top: int) returns (going: bool)
      requires Valid()
      requires queue != [] ==> IsTop(queue, top)
      modifies this`outbound, this`queue, this`cursor, this`sendBuffer, this`peer, this`completions,
               this`events, this`sent, this`refused, this`stopRequested
      ensures Valid()
      ensures Taken(old(Unsent(outbound, cursor)), old(queue), top, old(peer), going, queue, peer)
      ensures old(Unsent(outbound, cursor)) == [] && old(queue) != [] ==>
        && events == old(events) + [Event(Outbound, old(queue)[top].kind)]
        && sent == old(sent) + (if going then [old(queue)[top]] else [])
        && (!going ==> stopRequested)
      ensures old(Unsent(outbound, cursor)) != [] || old(queue) == [] ==> events == old(events) && sent == old(sent)
      ensures if going then old(sendBuffer) < sendBuffer && |sendBuffer| <= |old(sendBuffer)| + 16_384
              else sendBuffer == old(sendBuffer)
    {
      hide Check, Conserved, Accounted, Tracked, Framed, Counted, PeerAfterCheck, Message.Valid, Message.IsComplete;
      EmptyBarrel(wire, sendBuffer, outbound, cursor, sent);
      ghost var queue0 := queue;
      var loaded := LoadBarrel(top);
      if outbound.None? { return false; }
      if loaded {
        AccountedTop(cfg.net, queue0, top, sent, refused, pushed);
        SoundTop(cfg.net, queue0, top, sent, refused, pushed);
        var ok := CheckRecorded();
        if !ok { return false; }
      }
      CopyOut();
      return true;
    }

    /**
      `start_write`. Whatever it does, Valid keeps the bytes conserved. A message is taken from the queue exactly
      when the barrel is empty, checked exactly then, and copied out in pieces of at most 16 KiB.
     */
    method StartWrite(socketOpen: bool, top: int)
      requires Valid()
      requires queue != [] ==> IsTop(queue, top)
      modifies this`isWriting, this`outbound, this`queue, this`cursor, this`sendBuffer, this`peer, this`completions,
               this`events, this`sent, this`refused, this`stopRequested
      ensures Valid()
      ensures !socketOpen || old(isWriting) ==>
        isWriting == old(isWriting) && sent == old(sent) && sendBuffer == old(sendBuffer) && queue == old(queue)
        && events == old(events) && peer == old(peer)
      ensures socketOpen && !old(isWriting) ==>
        && Taken(old(Unsent(outbound, cursor)), old(queue), top, old(peer), isWriting, queue, peer)
        && (if old(Unsent(outbound, cursor)) == [] && old(queue) != [] then
              && events == old(events) + [Event(Outbound, old(queue)[top].kind)]
              && sent == old(sent) + (if isWriting then [old(queue)[top]] else [])
              && (!isWriting ==> stopRequested)
            else events == old(events) && sent == old(sent))
        && (if isWriting then old(sendBuffer) < sendBuffer && |sendBuffer| <= |old(sendBuffer)| + 16_384
            else sendBuffer == old(sendBuffer))
    {
      hide Check, Conserved, Accounted, Tracked, Framed, Counted, Unsent, Taken, Message.Valid, Message.IsComplete;
      if !socketOpen || isWriting { return; }
      isWriting := true;
      var going := Advance(top);
      if !going {
        isWriting := false;
      }
    }

    /** The next piece of the message in the barrel goes to the send buffer. */
    method CopyOut()
      requires outbound.Some? && 0 <= cursor < |outbound.value.bytes|
      requires Conserved(wire, sendBuffer, outbound, cursor, sent)
      modifies this`sendBuffer, this`cursor
      ensures cursor == Min(old(cursor) + 16_384, |outbound.value.bytes|) > 0
      ensures Conserved(wire, sendBuffer, outbound, cursor, sent)
      ensures old(sendBuffer) < sendBuffer && |sendBuffer| <= |old(sendBuffer)| + 16_384
      ensures sendBuffer == old(sendBuffer) + outbound.value.bytes[old(cursor)..cursor]
    {
      hide Conserved;
      var o := outbound.value;
      var n := Min(MAX_BYTES_PER_IO, |o.bytes| - cursor);
      ConservedTake(wire, sendBuffer, o, cursor, n, sent);
      sendBuffer := sendBuffer + o.bytes[cursor..cursor + n];
      cursor := cursor + n;
    }

    /** `handle_write`: `n` bytes were taken by the socket, or the write failed, or the node no longer runs. */
    method HandleWrite(running: bool, failed: bool, n: int) returns (again: bool)
      requires Valid() && 0 <= n <= |sendBuffer|
      modifies this`isWriting, this`sendBuffer, this`wire, this`stopRequested
      ensures Valid()
      ensures !running || failed ==> wire == old(wire) && sendBuffer == old(sendBuffer) && !isWriting && !again
      ensures running && failed ==> stopRequested
      ensures running && !failed ==>
        && wire == old(wire) + old(sendBuffer)[..n] && sendBuffer == old(sendBuffer)[n..]
        && again == (sendBuffer != []) && isWriting == (old(isWriting) && again) && stopRequested == old(stopRequested)
    {
      hide Conserved, Accounted, Tracked, Framed, Counted, Message.Valid, Message.IsComplete;
      if !running {
        isWriting := false;
        return false;
      }
      if failed {
        isWriting := false;
        stopRequested := true;
        return false;
      }
      ConservedWrite(wire, sendBuffer, outbound, cursor, sent, n);
      wire := wire + sendBuffer[..n];
      sendBuffer := sendBuffer[n..];
      if sendBuffer != [] { return true; }
      isWriting := false;
      return false;
    }

    /** What the socket has taken is always a part, from the start, of the messages let out. */
    lemma WireIsPrefix()
      requires Valid()
      ensures wire <= Flat(sent)
      ensures sendBuffer == [] && Unsent(outbound, cursor) == [] ==> wire == Flat(sent)
      ensures AllSound(cfg.net, sent)
      ensures multiset(sent) <= pushed
      ensures Orderly(Run(events)) && Kinds(sent) == KindsOf(Run(events).accepted, Outbound)
      ensures completions == (if peer.status == COMPLETED then 1 else 0)
    {
      hide Sound, Run, Framed, Counted;
      assert wire + [] == wire;
      EveryRunOrderly(events);
    }
  }

  /** Making a message of a payload, which validates it. */
  method Pack(net: Net, p: Payload) returns (r: Result<Bytes>)
    requires p.WellFormed()
    ensures r.Ok? <==> Packed(net, p).Some?
    ensures r.Ok? ==> r.value == Packed(net, p).value
  {
    hide Encode, Build, Judge, Frame;
    var message := new Message(net);
    var pushed := message.Push(p, DEFAULT_PROTOCOL_VERSION);
    TooLong(net, p);
    if pushed.Err? { return Err(pushed.error); }
    return Ok(message.stream.buffer);
  }

  lemma VersionEffects(cfg: Config, status: Status, previous: VersionPayload)
    ensures var actions := VersionAnswers(cfg, status, previous);
      && Notified(actions) == [VersionMsg(previous)]
      && Queued(cfg.net, actions) ==
           (if HasFlag(status, 1) then [] else Queued(cfg.net, [Push(VersionMsg(cfg.local), High)]))
           + Queued(cfg.net, [Push(NullMsg(VerAck), High)])
  {
    hide HasFlag, Queued, Notified;
    var first, second, third := Push(VersionMsg(cfg.local), High), Push(NullMsg(VerAck), High),
        Notify(VersionMsg(previous));
    var done: seq<Action> := if HasFlag(status, 1) then [] else [first];
    assert VersionAnswers(cfg, status, previous) == (done + [second]) + [third];
    NoActions(cfg.net);
    QueuedAppend(cfg.net, done, second);
    QueuedAppend(cfg.net, done + [second], third);
    OneNotify(cfg.net, VersionMsg(previous));
    PushesNotify(first);
    PushesNotify(second);
  }

  lemma PushesNotify(a: Action)
    requires a.Push?
    ensures Notified([a]) == []
  {
    assert [a][1..] == [];
  }

  lemma PingPacks(net: Net, nonce: U64)
    ensures Packed(net, PingPongMsg(Ping, nonce)).Some?
  {
    hide Build, LE;
    var body := LE(nonce, 8);
    assert |body| == 8;
    BuiltHeader(net, Ping, body);
  }

  lemma NoActions(net: Net)
    ensures Queued(net, []) == [] && Notified([]) == []
  {
  }

  lemma OnePush(net: Net, p: Payload, priority: Priority)
    requires p.WellFormed()
    ensures Queued(net, [Push(p, priority)]) ==
            if Packed(net, p).Some? then [Outgoing(Packed(net, p).value, p.Type(), priority, p)] else []
    ensures Notified([Push(p, priority)]) == []
  {
    hide Packed;
    assert [Push(p, priority)][1..] == [];
  }

  lemma OneNotify(net: Net, p: Payload)
    ensures Queued(net, [Notify(p)]) == [] && Notified([Notify(p)]) == [p]
  {
    assert [Notify(p)][1..] == [];
  }

  lemma TooLong(net: Net, p: Payload)
    requires p.WellFormed()
    ensures Packed(net, p).Some? ==> HEADER_LENGTH + |Encode(p, DEFAULT_PROTOCOL_VERSION).value| <= MAX_MESSAGE_LENGTH
  {
    hide Encode, Build, CheckHeader, CheckPayload;
    if Packed(net, p).Some? {
      TypeIsKnown(p);
      BuiltHeader(net, p.Type(), Encode(p, DEFAULT_PROTOCOL_VERSION).value);
    }
  }

  /** A refused message leaves the session alone, except for the flag it may have set. */
  predicate Kept(before: Peer, after: Peer) {
    after == before.(status := after.status) && (HasFlag(before.status, 2) ==> HasFlag(after.status, 2))
  }

  lemma NothingChanged(peer: Peer)
    ensures Kept(peer, peer)
  {
    assert peer == peer.(status := peer.status);
  }

  lemma KeptByCheck(peer: Peer, t: MessageType)
    requires Check(peer.status, Event(Inbound, t)).Ok?
    ensures Kept(peer, peer.(status := Check(peer.status, Event(Inbound, t)).value))
  {
    hide Check, HasFlag;
    InboundFlag(peer.status, t);
  }

  /** What is made of a complete message, as far as the session goes. */
  predicate Handled(cfg: Config, before: Peer, frame: Bytes, flooding: bool, r: Result<()>, after: Peer) {
    |frame| >= HEADER_LENGTH &&
    match Deliver(cfg, before, frame, flooding)
    case Err(e) => r == Err(e) && !Incomplete(r) && Kept(before, after)
    case Ok((next, d)) => r.Ok? && after == next
  }

  /** What is made of a complete message, as far as the outside goes. */
  predicate Effects(cfg: Config, before: Peer, frame: Bytes, flooding: bool,
                    queue0: seq<Outgoing>, queue1: seq<Outgoing>, forwarded0: seq<Payload>, forwarded1: seq<Payload>) {
    |frame| >= HEADER_LENGTH &&
    match Deliver(cfg, before, frame, flooding)
    case Err(_) => queue1 == queue0 && forwarded1 == forwarded0
    case Ok((_, d)) => queue1 == queue0 + Queued(cfg.net, d.actions) && forwarded1 == forwarded0 + Notified(d.actions)
  }

  /** A complete message has a header, and is of the type the header says. */
  lemma CompleteMessage(m: Message)
    requires m.Valid() && m.IsComplete()
    ensures |m.stream.buffer| >= HEADER_LENGTH
    ensures m.kind == FrameType(m.net, m.stream.buffer)
  {
    hide Frame, CheckHeader, TypeOfCommand;
    HeaderKind(m.net, m.header);
  }

  /** The steps of `Deliver`, one by one. */
  lemma DeliverSteps(cfg: Config, peer: Peer, frame: Bytes, flooding: bool)
    requires |frame| >= HEADER_LENGTH
    ensures var t := FrameType(cfg.net, frame);
      var deliver := Deliver(cfg, peer, frame, flooding);
      match Check(peer.status, Event(Inbound, t))
      case Err(e) => deliver == Err(e)
      case Ok(status) =>
        match Unpack(t, frame[HEADER_LENGTH..])
        case Err(e) => deliver == Err(e)
        case Ok(p) =>
          if flooding then deliver == Err(MessageFloodingDetected)
          else
            match Process(cfg, peer.(status := status), p)
            case Err(e) => deliver == Err(e)
            case Ok((next, actions)) =>
              deliver == Ok((if t == GetAddr then next.(getAddrs := next.getAddrs + 1) else next,
                             Delivery(frame, p, actions)))
  {
    hide Check, Unpack, Process, FrameType;
  }

  lemma HandledRefusal(cfg: Config, before: Peer, frame: Bytes, flooding: bool, e: Error, after: Peer,
                       queue: seq<Outgoing>, forwarded: seq<Payload>)
    requires |frame| >= HEADER_LENGTH && Deliver(cfg, before, frame, flooding) == Err(e) && Kept(before, after)
    ensures Handled(cfg, before, frame, flooding, Err(e), after) && !Incomplete(Err(e))
    ensures Effects(cfg, before, frame, flooding, queue, queue, forwarded, forwarded)
  {
    hide Deliver;
    RefusalIsFinal(cfg, before, frame, flooding);
  }

  lemma HandledDelivery(cfg: Config, before: Peer, frame: Bytes, next: Peer, queue0: seq<Outgoing>,
                        queue1: seq<Outgoing>, forwarded0: seq<Payload>, forwarded1: seq<Payload>)
    requires |frame| >= HEADER_LENGTH && Deliver(cfg, before, frame, false).Ok?
    requires Deliver(cfg, before, frame, false).value.0 == next
    requires queue1 == queue0 + Queued(cfg.net, Deliver(cfg, before, frame, false).value.1.actions)
    requires forwarded1 == forwarded0 + Notified(Deliver(cfg, before, frame, false).value.1.actions)
    ensures Handled(cfg, before, frame, false, Ok(()), next)
    ensures Effects(cfg, before, frame, false, queue0, queue1, forwarded0, forwarded1)
  {
    hide Deliver, Queued, Notified;
  }

  /** The answer to a read, and the session after it, are those of `goal`. */
  ghost predicate Outcome(goal: Drained, r: Result<()>, delivered: seq<Delivery>, peer: Peer, pending: Bytes) {
    && goal.delivered == delivered
    && match goal.end
       case Open(p, rest) => r.Ok? && p == peer && rest == pending
       case Closed(why) => r.Err? && pending == [] && (why.Refused? ==> r == Err(why.error))
  }

  function Resumed(delivered: seq<Delivery>, r: Drained): Drained {
    Drained(delivered + r.delivered, r.end)
  }

  /** A turn that ends the session is the end of draining. */
  lemma TurnRefused(cfg: Config, before: Peer, all: Bytes, budget: nat, flooding: bool, r: Result<()>, after: Peer)
    requires r.Err? && flooding == (budget == 0)
    requires Frame(cfg.net, all) == Bad ||
             (Frame(cfg.net, all).Whole? && Frame(cfg.net, all).n <= |all|
              && Handled(cfg, before, all[..Frame(cfg.net, all).n], flooding, r, after))
    ensures Drain(cfg, before, all, budget) ==
      Drained([], Closed(if Frame(cfg.net, all) == Bad then Broken else Refused(r.error)))
    ensures Frame(cfg.net, all).Whole? ==>
      Frame(cfg.net, all).n >= HEADER_LENGTH && Deliver(cfg, before, all[..Frame(cfg.net, all).n], flooding).Err?
  {
    hide Frame, Deliver, Drain;
    DrainStep(cfg, before, all, budget);
  }

  /** A turn that delivers a message is one step of draining. */
  lemma TurnDelivered(cfg: Config, before: Peer, all: Bytes, budget: nat, flooding: bool, r: Result<()>, after: Peer)
    returns (d: Delivery)
    requires r.Ok? && flooding == (budget == 0) && Frame(cfg.net, all).Whole? && Frame(cfg.net, all).n <= |all|
    requires Handled(cfg, before, all[..Frame(cfg.net, all).n], flooding, r, after)
    ensures var n := Frame(cfg.net, all).n;
      && budget > 0 && n >= HEADER_LENGTH
      && Deliver(cfg, before, all[..n], flooding) == Ok((after, d))
      && Drain(cfg, before, all, budget) == Resumed([d], Drain(cfg, after, all[n..], budget - 1))
  {
    hide Frame, Deliver, Drain;
    DrainStep(cfg, before, all, budget);
    d := Deliver(cfg, before, all[..Frame(cfg.net, all).n], flooding).value.1;
  }

  lemma ResumedNone(r: Drained)
    ensures Resumed([], r) == r
  {
    assert [] + r.delivered == r.delivered;
  }

  lemma ResumedEnd(delivered: seq<Delivery>, end: End)
    ensures Resumed(delivered, Drained([], end)) == Drained(delivered, end)
  {
    assert delivered + [] == delivered;
  }

  lemma NoEffects(cfg: Config, before: Peer, frame: Bytes, flooding: bool,
                  queue0: seq<Outgoing>, queue1: seq<Outgoing>, forwarded0: seq<Payload>, forwarded1: seq<Payload>)
    requires |frame| >= HEADER_LENGTH && Deliver(cfg, before, frame, flooding).Err?
    requires Effects(cfg, before, frame, flooding, queue0, queue1, forwarded0, forwarded1)
    ensures queue1 == queue0 && forwarded1 == forwarded0
  {
    hide Deliver;
  }

  lemma RefusalKeeps(cfg: Config, before: Peer, frame: Bytes, flooding: bool, r: Result<()>, after: Peer)
    requires r.Err? && Handled(cfg, before, frame, flooding, r, after)
    ensures Kept(before, after)
  {
    hide Deliver, Kept;
  }

  lemma Behind(frame: Bytes, rest: Bytes, pending: Bytes, data: Bytes)
    requires frame + rest == pending + data && |rest| < |data|
    ensures data[..|data| - |rest|] + rest == data
  {
    assert data == (pending + data)[|pending|..];
    assert rest == (frame + rest)[|frame|..] == data[|data| - |rest|..];
  }

  /** What a message let through is, and what it did to the hub. */
  lemma LetThrough(cfg: Config, before: Peer, all: Bytes, flooding: bool, after: Peer, d: Delivery,
                   queue0: seq<Outgoing>, queue1: seq<Outgoing>, forwarded0: seq<Payload>, forwarded1: seq<Payload>)
    requires Frame(cfg.net, all).Whole? && HEADER_LENGTH <= Frame(cfg.net, all).n <= |all|
    requires Deliver(cfg, before, all[..Frame(cfg.net, all).n], flooding) == Ok((after, d))
    requires Effects(cfg, before, all[..Frame(cfg.net, all).n], flooding, queue0, queue1, forwarded0, forwarded1)
    ensures !flooding && d.frame == all[..Frame(cfg.net, all).n] && Genuine(cfg.net, d)
    ensures queue1 == queue0 + Queued(cfg.net, d.actions) && forwarded1 == forwarded0 + Notified(d.actions)
  {
    hide Deliver, Frame, FrameType, Unpack, Queued, Notified;
    var n := Frame(cfg.net, all).n;
    assert all == all[..n] + all[n..];
    WholeShrinks(cfg.net, all[..n], all[n..]);
    Flooded(cfg, before, all[..n]);
    DeliveredFrame(cfg, before, all[..n]);
  }

  /** What one turn makes of the bytes in front of it: one step of draining. */
  ghost predicate Stepped(cfg: Config, before: Peer, all: Bytes, budget: nat, r: Result<()>, ds: seq<Delivery>,
                          after: Peer, left: Bytes)
  {
    if Incomplete(r) then ds == [] && after == before && left == all
    else if r.Ok? then
      budget > 0 && |ds| == 1 && Drain(cfg, before, all, budget) == Resumed(ds, Drain(cfg, after, left, budget - 1))
    else ds == [] && Outcome(Drain(cfg, before, all, budget), r, [], after, [])
  }

  /** One turn on the way through a read. */
  lemma Advanced(cfg: Config, before: Peer, all: Bytes, budget: nat, r: Result<()>, ds: seq<Delivery>, after: Peer,
                 left: Bytes, delivered: seq<Delivery>)
    requires Stepped(cfg, before, all, budget, r, ds, after, left)
    ensures |ds| <= 1
    ensures r.Ok? ==>
      && budget > 0
      && Resumed(delivered, Drain(cfg, before, all, budget))
         == Resumed(delivered + ds, Drain(cfg, after, left, budget - 1))
    ensures Incomplete(r) ==>
      Resumed(delivered, Drain(cfg, before, all, budget)) == Resumed(delivered + ds, Drain(cfg, after, left, budget))
    ensures r.Err? && !Incomplete(r) ==>
      Outcome(Resumed(delivered, Drain(cfg, before, all, budget)), r, delivered + ds, after, [])
  {
    hide Drain;
    assert delivered + [] == delivered;
    if r.Ok? {
      assert ds == [ds[0]];
      ResumedNext(delivered, ds[0], Drain(cfg, after, left, budget - 1));
    }
  }

  lemma OneBy(net: Net, d: Delivery)
    ensures QueuedBy(net, [d]) == Queued(net, d.actions) && NotifiedBy([d]) == Notified(d.actions)
  {
    hide Queued, Notified;
    assert [d][..0] == [];
  }

  lemma SomeBy(net: Net, ds: seq<Delivery>, more: seq<Delivery>)
    requires |more| <= 1
    ensures QueuedBy(net, ds + more) == QueuedBy(net, ds) + QueuedBy(net, more)
    ensures NotifiedBy(ds + more) == NotifiedBy(ds) + NotifiedBy(more)
  {
    hide QueuedBy, NotifiedBy;
    if more == [] {
      NothingBy(net);
      assert ds + [] == ds;
    } else {
      assert more == [more[0]];
      OneBy(net, more[0]);
      MoreBy(net, ds, more[0]);
    }
  }

  lemma ResumedNext(delivered: seq<Delivery>, d: Delivery, r: Drained)
    ensures Resumed(delivered, Resumed([d], r)) == Resumed(delivered + [d], r)
  {
    assert delivered + ([d] + r.delivered) == (delivered + [d]) + r.delivered;
  }

  lemma StuckDrain(cfg: Config, peer: Peer, s: Bytes, budget: nat)
    requires Frame(cfg.net, s) == More
    ensures Drain(cfg, peer, s, budget) == Drained([], Open(peer, s))
  {
    hide Frame, Deliver;
  }

  /** What the messages of a read add to the queue. */
  function QueuedBy(net: Net, ds: seq<Delivery>): seq<Outgoing> {
    if ds == [] then [] else QueuedBy(net, ds[..|ds| - 1]) + Queued(net, ds[|ds| - 1].actions)
  }

  /** What the messages of a read hand to the node hub. */
  function NotifiedBy(ds: seq<Delivery>): seq<Payload> {
    if ds == [] then [] else NotifiedBy(ds[..|ds| - 1]) + Notified(ds[|ds| - 1].actions)
  }

  lemma NothingBy(net: Net)
    ensures QueuedBy(net, []) == [] && NotifiedBy([]) == []
  {
  }

  lemma MoreBy(net: Net, ds: seq<Delivery>, d: Delivery)
    ensures QueuedBy(net, ds + [d]) == QueuedBy(net, ds) + Queued(net, d.actions)
    ensures NotifiedBy(ds + [d]) == NotifiedBy(ds) + Notified(d.actions)
  {
    hide Queued, Notified;
    assert (ds + [d])[..|ds|] == ds;
  }

  /** One step of draining. */
  lemma DrainStep(cfg: Config, peer: Peer, s: Bytes, budget: nat)
    ensures Frame(cfg.net, s).Whole? ==> HEADER_LENGTH <= Frame(cfg.net, s).n <= |s|
    ensures match Frame(cfg.net, s)
      case More => Drain(cfg, peer, s, budget) == Drained([], Open(peer, s))
      case Bad => Drain(cfg, peer, s, budget) == Drained([], Closed(Broken))
      case Whole(n) =>
        match Deliver(cfg, peer, s[..n], budget == 0)
        case Err(e) => Drain(cfg, peer, s, budget) == Drained([], Closed(Refused(e)))
        case Ok((next, d)) =>
          && budget > 0
          && Drain(cfg, peer, s, budget) == Resumed([d], Drain(cfg, next, s[n..], budget - 1))
  {
    hide Frame, Deliver;
    FrameSize(cfg.net, s);
    if Frame(cfg.net, s).Whole? {
      Flooded(cfg, peer, s[..Frame(cfg.net, s).n]);
    }
  }
}
