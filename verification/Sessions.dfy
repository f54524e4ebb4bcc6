/** Whole sessions: any run of a node, and what one node's messages become at the other end. */
module Sessions {
  import opened Common
  import opened Codec
  import opened Protocol
  import opened Framing
  import opened FrameFormat
  import opened Handshake
  import opened PayloadTypes
  import opened Processing
  import opened Receive
  import opened Outbox
  import opened Hub
  import opened Messages
  import opened Nodes

  /** Something that happens to a node; `top` is the choice among messages of equal priority. */
  datatype Happening =
    | Arrives(data: Bytes)
    | Pushed(p: Payload, priority: Priority)
    | PingTimer(nonce: U64, running: bool)
    | WriteStarts(socketOpen: bool, top: int)
    | WriteEnds(stillRunning: bool, failed: bool, n: int)

  /** What the source demands of its callers and of the socket. */
  predicate Sensible(node: Node, h: Happening)
    reads node
  {
    match h
    case Arrives(_) => true
    case Pushed(p, _) => p.WellFormed()
    case PingTimer(nonce, _) => nonce > 0
    case WriteStarts(_, top) => node.queue != [] ==> IsTop(node.queue, top)
    case WriteEnds(_, _, n) => 0 <= n <= |node.sendBuffer|
  }

  /** The same, and nothing is read after a failure. */
  ghost predicate Possible(node: Node, h: Happening)
    reads node
  {
    Sensible(node, h) && (h.Arrives? ==> !node.failed)
  }

  /** One happening; a read that fails says so. */
  method Happen(node: Node, h: Happening) returns (ok: bool)
    requires node.Valid() && Possible(node, h)
    modifies node, node.inbound, if node.inbound == null then {} else {node.inbound.stream}
    ensures node.Valid() && node.failed == (old(node.failed) || !ok)
    ensures node.inbound == null || node.inbound == old(node.inbound)
            || (fresh(node.inbound) && fresh(node.inbound.stream))
  {
    hide Accounted, Conserved, Tracked, Framed, Counted, Message.Valid, Message.IsComplete, Drain, QueuedBy,
         NotifiedBy, Check;
    ok := true;
    match h
    case Arrives(data) =>
      var r, _ := node.ParseMessages(data);
      ok := r.Ok?;
    case Pushed(p, priority) => var _ := node.PushMessage(p, priority);
    case PingTimer(nonce, running) => var _ := node.OnPingTimer(nonce, running);
    case WriteStarts(socketOpen, top) => node.StartWrite(socketOpen, top);
    case WriteEnds(running, failed, n) => var _ := node.HandleWrite(running, failed, n);
  }

  /**
    Whatever happens to a node, in whatever order, what the socket has taken is a part from the start of complete
    messages that were pushed, each checked against the handshake once and before its first byte; the handshake is
    orderly and announced complete once; what has arrived is the messages let through and an unfinished one; no more
    pongs are let through than pings were sent; on an inbound connection at most two address requests reach the hub;
    and no version but a blank one does. Impossible happenings are skipped, and nothing is read after a failure.
   */
  method RunNode(cfg: Config, happenings: seq<Happening>) returns (node: Node)
    requires cfg.Valid()
    ensures fresh(node) && node.cfg == cfg && node.Valid()
    ensures node.wire <= Flat(node.sent) && AllSound(cfg.net, node.sent) && multiset(node.sent) <= node.pushed
    ensures Orderly(Run(node.events)) && node.peer.status == Run(node.events).status
    ensures Kinds(node.sent) == KindsOf(Run(node.events).accepted, Outbound)
    ensures node.completions == if node.peer.status == COMPLETED then 1 else 0
    ensures FlatFrames(node.received) <= node.arrived
    ensures !node.failed ==> node.arrived == FlatFrames(node.received) + node.Pending()
    ensures PongCount(node.received) <= PingCount(node.sent)
    ensures Requests(node.forwarded) == if cfg.inboundConnection then Min(RequestCount(node.received), 2)
            else RequestCount(node.received)
    ensures forall p | p in node.forwarded && p.VersionMsg? :: p.version == NO_VERSION
    ensures node.forwarded == HubGets(cfg.inboundConnection, node.received, NO_VERSION, 0)
    ensures forall d | d in node.received :: Authentic(cfg.net, d)
    ensures forall o | o in node.sent :: Formed(cfg.net, o.bytes, o.kind)
  {
    hide Accounted, Conserved, Message.Valid, Message.IsComplete, Run, AllSound, Flat, Framed, Counted, Authentic,
         Formed;
    node := new Node(cfg);
    var i := 0;
    var reading := true;
    while i < |happenings|
      invariant 0 <= i <= |happenings|
      invariant fresh(node) && node.cfg == cfg && node.Valid() && (reading ==> !node.failed)
      invariant node.inbound == null || (fresh(node.inbound) && fresh(node.inbound.stream))
    {
      if Sensible(node, happenings[i]) && (happenings[i].Arrives? ==> reading) {
        var ok := Happen(node, happenings[i]);
        reading := reading && ok;
      }
      i := i + 1;
    }
    node.WireIsPrefix();
    BooksAreOpen(cfg, node.peer, node.arrived, node.received, node.Pending(), node.failed, node.sent, node.forwarded);
    SentFormed(cfg.net, node.sent);
  }

  /** A message let through: its bytes are a whole message, and its payload is what its type is read as from them. */
  ghost predicate Authentic(net: Net, d: Delivery) {
    && Formed(net, d.frame, d.payload.Type())
    && Decode(d.payload.Type(), d.frame[24..]) == Got(d.payload, [])
  }

  lemma WholeFormed(net: Net, f: Bytes)
    requires |f| >= HEADER_LENGTH && Frame(net, f) == Whole(|f|)
    ensures Formed(net, f, FrameType(net, f))
  {
    hide Frame, TypeOfCommand, CommandBytes, BodyAllowed;
    WholeExactly(net, f, |f|);
    assert f[..|f|] == f;
    var t :| Formed(net, f, t);
    TypeIs(f[4..16], t);
  }

  lemma GenuineAuthentic(net: Net, d: Delivery)
    requires Genuine(net, d)
    ensures Authentic(net, d)
  {
    hide Frame, Formed, Decode, FrameType;
    WholeFormed(net, d.frame);
    DecodedType(FrameType(net, d.frame), d.frame[24..]);
  }

  lemma SentFormed(net: Net, sent: seq<Outgoing>)
    requires AllSound(net, sent)
    ensures forall o | o in sent :: Formed(net, o.bytes, o.kind)
  {
    hide Frame, Formed, Packed, FrameType;
    forall o | o in sent ensures Formed(net, o.bytes, o.kind) {
      assert Sound(net, o);
      WholeFormed(net, o.bytes);
    }
  }

  /** Every message that a stream yields is authentic. */
  lemma {:induction false} StreamAuthentic(cfg: Config, peer: Peer, s: Bytes)
    ensures forall d | d in DrainAll(cfg, peer, s).delivered :: Authentic(cfg.net, d)
    decreases |s|
  {
    hide Frame, Deliver, Authentic, Genuine;
    FrameSize(cfg.net, s);
    if Frame(cfg.net, s).Whole? {
      var n := Frame(cfg.net, s).n;
      var step := Deliver(cfg, peer, s[..n], false);
      if step.Ok? {
        DeliveryGenuine(cfg, peer, s, n);
        GenuineAuthentic(cfg.net, step.value.1);
        StreamAuthentic(cfg, step.value.0, s[n..]);
      }
    }
  }

  lemma DeliveryGenuine(cfg: Config, peer: Peer, s: Bytes, n: nat)
    requires Frame(cfg.net, s) == Whole(n) && HEADER_LENGTH <= n <= |s| && Deliver(cfg, peer, s[..n], false).Ok?
    ensures Genuine(cfg.net, Deliver(cfg, peer, s[..n], false).value.1)
  {
    hide Frame, Unpack, Check, Process;
    assert s[..n] + s[n..] == s;
    WholeShrinks(cfg.net, s[..n], s[n..]);
  }

  /**
    Two timers before the first ping is written: that ping goes out, but the honest answer to it is accepted only if
    both nonces happen to be the same.
   */
  method OverlappingTimers(node: Node, first: U64, second: U64)
    requires node.Valid() && node.peer.status == COMPLETED && !node.peer.pingPending && !node.isWriting
    requires node.queue == [] && Unsent(node.outbound, node.cursor) == [] && first > 0 && second > 0
    modifies node
    ensures node.Valid() && Packed(node.cfg.net, PingPongMsg(Ping, first)).Some?
    ensures node.sent == old(node.sent)
            + [Outgoing(Packed(node.cfg.net, PingPongMsg(Ping, first)).value, Ping, High, PingPongMsg(Ping, first))]
    ensures Process(node.cfg, node.peer, PingPongMsg(Pong, first)).Ok? <==> first == second
  {
    hide Accounted, Conserved, Tracked, Framed, Counted, Message.Valid, Message.IsComplete, Packed, Process, Unsent;
    var r1 := node.OnPingTimer(first, true);
    var r2 := node.OnPingTimer(second, true);
    node.StartWrite(true, 0);
    PongAccepted(node.cfg, node.peer, first);
  }

  lemma BooksAreOpen(cfg: Config, peer: Peer, arrived: Bytes, received: seq<Delivery>, pending: Bytes, failed: bool,
                     sent: seq<Outgoing>, forwarded: seq<Payload>)
    requires Framed(cfg.net, arrived, received, pending, failed) && Counted(cfg, peer, received, sent, forwarded)
    ensures FlatFrames(received) <= arrived && (!failed ==> arrived == FlatFrames(received) + pending)
    ensures PongCount(received) <= PingCount(sent)
    ensures Requests(forwarded) == if cfg.inboundConnection then Min(RequestCount(received), 2)
            else RequestCount(received)
    ensures forall p | p in forwarded && p.VersionMsg? :: p.version == NO_VERSION
    ensures forwarded == HubGets(cfg.inboundConnection, received, NO_VERSION, 0)
    ensures forall d | d in received :: Authentic(cfg.net, d)
  {
    hide Genuine, NotifiedBy, HasFlag, HubGets, Authentic;
    forall d | d in received ensures Authentic(cfg.net, d) {
      GenuineAuthentic(cfg.net, d);
    }
  }

  /** The reads of a connection, one after the other, until one fails (`handle_read`). */
  method ReadAll(node: Node, cuts: seq<Bytes>) returns (r: Result<()>, ghost delivered: seq<Delivery>)
    requires node.Valid() && !node.failed
    modifies node, node.inbound, if node.inbound == null then {} else {node.inbound.stream}
    ensures node.Valid()
    ensures Outcome(Reads(node.cfg, Drained([], Open(old(node.peer), old(node.Pending()))), cuts), r, delivered,
                    node.peer, node.Pending())
  {
    hide Accounted, Conserved, Tracked, Framed, Counted, Message.Valid, Message.IsComplete, Drain, QueuedBy,
         NotifiedBy, Reads;
    var i := 0;
    r := Ok(());
    delivered := [];
    ghost var goal := Reads(node.cfg, Drained([], Open(node.peer, node.Pending())), cuts);
    assert cuts[0..] == cuts;
    while i < |cuts|
      invariant 0 <= i <= |cuts| && r.Ok?
      invariant node.Valid() && !node.failed
      invariant node.inbound == null || node.inbound == old(node.inbound)
                || (fresh(node.inbound) && fresh(node.inbound.stream))
      invariant goal == Reads(node.cfg, Drained(delivered, Open(node.peer, node.Pending())), cuts[i..])
    {
      ReadsStep(node.cfg, delivered, node.peer, node.Pending(), cuts[i..]);
      ghost var one := Drain(node.cfg, node.peer, node.Pending() + cuts[i], MAX_MESSAGES_PER_READ);
      assert cuts[i..][1..] == cuts[i + 1..];
      ghost var more;
      r, more := node.ParseMessages(cuts[i]);
      delivered := delivered + more;
      i := i + 1;
      if r.Err? {
        ReadsEnd(node.cfg, Drained(delivered, one.end), cuts[i..]);
        return;
      }
    }
    ReadsEnd(node.cfg, Drained(delivered, Open(node.peer, node.Pending())), []);
    assert cuts[i..] == [];
  }

  lemma ReadsStep(cfg: Config, delivered: seq<Delivery>, peer: Peer, pending: Bytes, cuts: seq<Bytes>)
    requires cuts != []
    ensures var one := Drain(cfg, peer, pending + cuts[0], MAX_MESSAGES_PER_READ);
      Reads(cfg, Drained(delivered, Open(peer, pending)), cuts)
        == Reads(cfg, Drained(delivered + one.delivered, one.end), cuts[1..])
  {
    hide Drain;
  }

  lemma ReadsEnd(cfg: Config, r: Drained, cuts: seq<Bytes>)
    requires cuts == [] || r.end.Closed?
    ensures Reads(cfg, r, cuts) == r
  {
    hide Drain;
  }

  /**
    From one node to another: however the bytes that the sender's socket has taken are cut into reads that do not
    flood, the receiver takes exactly the complete messages among them, in order and as they were sent, and
    stops only at a message that its own session does not let through.
   */
  lemma EndToEnd(sender: Node, cfg: Config, peer: Peer, cuts: seq<Bytes>)
    requires sender.Valid() && cfg.net == sender.cfg.net
    requires Concat(cuts) == sender.wire && NoFlood(cfg, Opening(peer), cuts)
    ensures Explains(cfg, peer, sender.sent, sender.wire, Reads(cfg, Opening(peer), cuts))
  {
    hide Explains, Reads, NoFlood, DrainAll, AllSound, Flat;
    sender.WireIsPrefix();
    SegmentationIndependence(cfg, peer, cuts, cuts);
    WireIsDelivered(cfg, peer, sender.sent, sender.wire);
  }

  /** Every delivered payload is what its frame holds. */
  lemma {:induction false} DeliveredPayloads(cfg: Config, peer: Peer, s: Bytes, i: int)
    requires 0 <= i < |DrainAll(cfg, peer, s).delivered|
    ensures var d := DrainAll(cfg, peer, s).delivered[i];
      |d.frame| >= HEADER_LENGTH && Unpack(FrameType(cfg.net, d.frame), d.frame[HEADER_LENGTH..]) == Ok(d.payload)
    decreases |s|
  {
    hide Frame, Deliver, Unpack, FrameType;
    FrameSize(cfg.net, s);
    var n := Frame(cfg.net, s).n;
    DeliveredFrame(cfg, peer, s[..n]);
    if i > 0 {
      DeliveredPayloads(cfg, Deliver(cfg, peer, s[..n], false).value.0, s[n..], i - 1);
    }
  }

  /**
    The payloads, too, arrive in order: what is let through as the `i`-th message is the `i`-th payload that the
    sender let out, exactly when the wire format can carry it.
   */
  lemma PayloadsArrive(sender: Node, cfg: Config, peer: Peer, cuts: seq<Bytes>)
    requires sender.Valid() && cfg.net == sender.cfg.net
    requires Concat(cuts) == sender.wire && NoFlood(cfg, Opening(peer), cuts)
    ensures var ds := Reads(cfg, Opening(peer), cuts).delivered;
      && |ds| <= |sender.sent|
      && (forall i | 0 <= i < |ds| ::
            ds[i].payload == sender.sent[i].payload <==> Faithful(sender.sent[i].payload, DEFAULT_PROTOCOL_VERSION))
  {
    hide Reads, NoFlood, DrainAll, AllSound, Flat, Unpack, FrameType, Packed, Faithful, Deliver, PeerAfter;
    sender.WireIsPrefix();
    EndToEnd(sender, cfg, peer, cuts);
    SegmentationIndependence(cfg, peer, cuts, cuts);
    var ds := DrainAll(cfg, peer, sender.wire).delivered;
    forall i | 0 <= i < |ds|
      ensures ds[i].payload == sender.sent[i].payload <==> Faithful(sender.sent[i].payload, DEFAULT_PROTOCOL_VERSION)
    {
      DeliveredPayloads(cfg, peer, sender.wire, i);
      SentPayload(cfg.net, sender.sent, i, ds[i]);
    }
  }

  /** A frame that was sent holds the payload it was made of exactly when the wire format can carry it. */
  lemma SentPayload(net: Net, sent: seq<Outgoing>, i: int, d: Delivery)
    requires 0 <= i < |sent| && AllSound(net, sent) && d.frame == sent[i].bytes
    requires |d.frame| >= HEADER_LENGTH && Unpack(FrameType(net, d.frame), d.frame[HEADER_LENGTH..]) == Ok(d.payload)
    ensures d.payload == sent[i].payload <==> Faithful(sent[i].payload, DEFAULT_PROTOCOL_VERSION)
  {
    hide Unpack, FrameType, Packed, Faithful, Frame;
    assert sent[i] in sent && Sound(net, sent[i]);
    PackedUnpacks(net, sent[i].payload);
  }

  /**
    Two nodes, each with a life of its own: whatever else happens to either, if what has arrived at one is what the
    socket of the other has taken so far, or the start of it, then the messages let through are the messages sent, in
    order and byte for byte, with the payloads that were pushed where the wire format can carry them. While the
    receiver has not failed, it has let through all the complete ones.
   */
  lemma Conversation(sender: Node, receiver: Node)
    requires sender.Valid() && receiver.Valid() && sender.cfg.net == receiver.cfg.net
    requires receiver.arrived <= sender.wire
    ensures SameFrames(receiver.received, sender.sent)
    ensures forall i | 0 <= i < |receiver.received| ::
      receiver.received[i].payload == sender.sent[i].payload <==>
        Faithful(sender.sent[i].payload, DEFAULT_PROTOCOL_VERSION)
    ensures !receiver.failed && |receiver.received| < |sender.sent| ==>
      |receiver.Pending()| < |sender.sent[|receiver.received|].bytes|
  {
    hide AllSound, Flat, Unpack, FrameType, Packed, Faithful, FlatFrames, Frame, Counted, Accounted, Conserved,
         Message.Valid;
    sender.WireIsPrefix();
    var net := sender.cfg.net;
    var ds := receiver.received;
    assert FlatFrames(ds) <= Flat(sender.sent);
    FramesAgree(net, sender.sent, ds);
    forall i | 0 <= i < |ds|
      ensures ds[i].payload == sender.sent[i].payload <==> Faithful(sender.sent[i].payload, DEFAULT_PROTOCOL_VERSION)
    {
      assert ds[i] in ds && Genuine(net, ds[i]);
      SentPayload(net, sender.sent, i, ds[i]);
    }
    if !receiver.failed && |ds| < |sender.sent| {
      receiver.NothingWhole();
      NextIsUnfinished(net, sender.sent, |ds|, receiver.Pending());
    }
  }

  /** What is pending is short of the next message sent. */
  lemma NextIsUnfinished(net: Net, os: seq<Outgoing>, k: nat, pending: Bytes)
    requires AllSound(net, os) && k < |os| && Flat(os[..k]) + pending <= Flat(os) && Frame(net, pending) == More
    ensures |pending| < |os[k].bytes|
  {
    hide Frame, FrameType, Packed;
    FlatSplit(os, k);
    var rest := Flat(os[k..]);
    assert pending <= rest by {
      assert pending == (Flat(os[..k]) + pending)[|Flat(os[..k])|..];
    }
    assert forall o | o in os[k..] :: o in os;
    FrontOfFlat(net, os[k..], pending);
    assert os[k..][0] == os[k];
    assert Sound(net, os[k]);
  }
}
