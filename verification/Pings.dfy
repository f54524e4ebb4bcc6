/**
  Pings and their answers over whole sessions (src/node/network/node.cpp): exactly which pong a node accepts, as long
  as its timer does not queue a ping while one is waiting to be sent.
 */
module Pings {
  import opened Common
  import opened Protocol
  import opened Framing
  import opened Handshake
  import opened PayloadTypes
  import opened Processing
  import opened Receive
  import opened Outbox
  import opened Messages
  import opened Nodes
  import opened Sessions

  function NonceOf(p: Payload): U64 {
    if p.PingPongMsg? then p.nonce else 0
  }

  function PingOf(o: Outgoing): seq<U64> {
    if o.kind == Ping then [NonceOf(o.payload)] else []
  }

  /** The nonces of the pings among messages. */
  function PingsIn(os: seq<Outgoing>): (nonces: seq<U64>)
    ensures |nonces| == PingCount(os)
  {
    if os == [] then [] else PingsIn(os[..|os| - 1]) + PingOf(os[|os| - 1])
  }

  lemma PingsAppend(os: seq<Outgoing>, o: Outgoing)
    ensures PingsIn(os + [o]) == PingsIn(os) + PingOf(o)
  {
    assert (os + [o])[..|os|] == os;
  }

  lemma {:induction false} PingsJoin(a: seq<Outgoing>, b: seq<Outgoing>)
    ensures PingsIn(a + b) == PingsIn(a) + PingsIn(b)
    decreases |b|
  {
    hide PingOf, PingsIn;
    if b == [] {
      assert a + b == a;
      NoPings();
    } else {
      var n := |b| - 1;
      PingsJoin(a, b[..n]);
      PingsAppend(a + b[..n], b[n]);
      PingsAppend(b[..n], b[n]);
      assert a + b == (a + b[..n]) + [b[n]];
      assert b == b[..n] + [b[n]];
      assert (PingsIn(a) + PingsIn(b[..n])) + PingOf(b[n]) == PingsIn(a) + (PingsIn(b[..n]) + PingOf(b[n]));
    }
  }

  lemma NoPings()
    ensures PingsIn([]) == []
  {
  }

  /**
    The pings of a session in step: every ping sent but perhaps the last has been answered. Until the last one is, its
    nonce is the one remembered and no ping is queued; after that, at most the ping whose nonce is remembered is.
   */
  ghost predicate InStep(peer: Peer, queue: seq<Outgoing>, sent: seq<Outgoing>, received: seq<Delivery>) {
    && |PingsIn(sent)| == PongCount(received) + (if peer.pingPending then 1 else 0)
    && if peer.pingPending then
         PingsIn(queue) == [] && PingsIn(sent) != [] && peer.pingNonce == Some(PingsIn(sent)[|PingsIn(sent)| - 1])
       else
         PingsIn(queue) == [] || (peer.pingNonce.Some? && PingsIn(queue) == [peer.pingNonce.value])
  }

  lemma NothingInStep()
    ensures InStep(NEW_PEER, [], [], [])
  {
  }

  /** The pong accepted is the answer to the last ping sent, as long as it has not been answered. */
  lemma HonestPong(cfg: Config, peer: Peer, queue: seq<Outgoing>, sent: seq<Outgoing>, received: seq<Delivery>,
                   nonce: U64)
    requires InStep(peer, queue, sent, received)
    ensures Process(cfg, peer, PingPongMsg(Pong, nonce)).Ok? <==>
            PongCount(received) < PingCount(sent) && nonce == PingsIn(sent)[PingCount(sent) - 1]
  {
    hide Process;
    PongAccepted(cfg, peer, nonce);
    assert Awaited(peer) == [nonce] <==> peer.pingPending && peer.pingNonce == Some(nonce) by {
      assert Awaited(peer) == [nonce] ==> Awaited(peer)[0] == nonce;
    }
  }

  /** The timer queues a ping when none is queued. */
  lemma TimerInStep(peer: Peer, queue: seq<Outgoing>, sent: seq<Outgoing>, received: seq<Delivery>, o: Outgoing)
    requires InStep(peer, queue, sent, received) && !peer.pingPending && PingsIn(queue) == []
    requires o.kind == Ping && o.payload.PingPongMsg?
    ensures InStep(peer.(pingNonce := Some(o.payload.nonce)), queue + [o], sent, received)
  {
    PingsAppend(queue, o);
  }

  /** Other messages are queued. */
  lemma PushInStep(peer: Peer, queue: seq<Outgoing>, sent: seq<Outgoing>, received: seq<Delivery>, more: seq<Outgoing>)
    requires InStep(peer, queue, sent, received) && PingsIn(more) == []
    ensures InStep(peer, queue + more, sent, received)
  {
    PingsJoin(queue, more);
    assert PingsIn(queue) + [] == PingsIn(queue);
  }

  /** The pings queued once the message at `top` is taken out. */
  lemma PingsTaken(queue: seq<Outgoing>, top: int)
    requires 0 <= top < |queue|
    ensures var rest := queue[..top] + queue[top + 1..];
      if queue[top].kind != Ping then PingsIn(rest) == PingsIn(queue)
      else
        && |PingsIn(rest)| == |PingsIn(queue)| - 1
        && (PingsIn(rest) == [] ==> PingsIn(queue) == [NonceOf(queue[top].payload)])
  {
    hide PingsIn;
    var o := queue[top];
    var front, back := queue[..top], queue[top + 1..];
    assert queue == (front + [o]) + back;
    PingsJoin(front + [o], back);
    PingsAppend(front, o);
    PingsJoin(front, back);
    if o.kind != Ping {
      assert PingsIn(front) + [] == PingsIn(front);
    } else if PingsIn(front) + PingsIn(back) == [] {
      assert |PingsIn(front)| + |PingsIn(back)| == 0;
      assert PingsIn(queue) == ([] + [NonceOf(o.payload)]) + [];
    }
  }

  /** A message comes up for sending. */
  lemma TakenInStep(peer: Peer, queue: seq<Outgoing>, sent: seq<Outgoing>, received: seq<Delivery>, top: int)
    requires InStep(peer, queue, sent, received) && 0 <= top < |queue|
    ensures var o := queue[top];
      var going := Check(peer.status, Event(Outbound, o.kind)).Ok?;
      InStep(PeerAfterCheck(peer, o.kind), queue[..top] + queue[top + 1..], sent + if going then [o] else [], received)
  {
    hide Check, PingsIn, PongCount;
    PingsTaken(queue, top);
    PingsAppend(sent, queue[top]);
    assert sent + [] == sent;
  }

  /** What reading leaves of the ping under way when `pongs` are let through. */
  predicate Settles(before: Peer, after: Peer, pongs: int) {
    || (pongs == 0 && after.pingPending == before.pingPending && after.pingNonce == before.pingNonce)
    || (pongs == 1 && before.pingPending && !after.pingPending && after.pingNonce.None?)
  }

  lemma {:induction false} PongCountFirst(d: Delivery, ds: seq<Delivery>)
    ensures PongCount([d] + ds) == |PongIn(d.payload)| + PongCount(ds)
    decreases |ds|
  {
    hide PongIn;
    if ds == [] {
      assert [d] + ds == [d] && [d][..0] == [];
    } else {
      var n := |ds| - 1;
      PongCountFirst(d, ds[..n]);
      assert ([d] + ds)[..n + 1] == [d] + ds[..n];
    }
  }

  lemma {:induction false} PongCountJoin(a: seq<Delivery>, b: seq<Delivery>)
    ensures PongCount(a + b) == PongCount(a) + PongCount(b)
    decreases |b|
  {
    hide PongIn;
    if b == [] {
      assert a + b == a;
    } else {
      var n := |b| - 1;
      PongCountJoin(a, b[..n]);
      assert (a + b)[..|a| + n] == a + b[..n];
    }
  }

  lemma {:induction false} QueuedFirst(net: Net, d: Delivery, ds: seq<Delivery>)
    ensures QueuedBy(net, [d] + ds) == Queued(net, d.actions) + QueuedBy(net, ds)
    decreases |ds|
  {
    hide Queued;
    if ds == [] {
      assert [d] + ds == [d] && [d][..0] == [];
    } else {
      var n := |ds| - 1;
      QueuedFirst(net, d, ds[..n]);
      assert ([d] + ds)[..n + 1] == [d] + ds[..n];
    }
  }

  /** One message let through queues no ping. */
  lemma DeliverySettles(cfg: Config, peer: Peer, frame: Bytes, flooding: bool)
    requires |frame| >= HEADER_LENGTH && Deliver(cfg, peer, frame, flooding).Ok?
    ensures var (after, d) := Deliver(cfg, peer, frame, flooding).value;
      Settles(peer, after, |PongIn(d.payload)|) && PingsIn(Queued(cfg.net, d.actions)) == []
  {
    hide Unpack, Check, Process;
    var t := FrameType(cfg.net, frame);
    var now := peer.(status := Check(peer.status, Event(Inbound, t)).value);
    ProcessSettles(cfg, now, Unpack(t, frame[HEADER_LENGTH..]).value);
  }

  lemma ProcessSettles(cfg: Config, peer: Peer, p: Payload)
    requires Process(cfg, peer, p).Ok?
    ensures var (after, actions) := Process(cfg, peer, p).value;
      Settles(peer, after, |PongIn(p)|) && PingsIn(Queued(cfg.net, actions)) == []
  {
    hide HasFlag, Packed;
    var (after, actions) := Process(cfg, peer, p).value;
    forall a | a in actions && a.Push? ensures a.p.Type() != Ping {
    }
    NoPingsQueued(cfg.net, actions);
  }

  lemma {:induction false} NoPingsQueued(net: Net, actions: seq<Action>)
    requires forall a | a in actions && a.Push? :: a.p.Type() != Ping
    ensures PingsIn(Queued(net, actions)) == []
    decreases |actions|
  {
    hide Packed;
    if actions != [] {
      NoPingsQueued(net, actions[1..]);
      assert actions[0] in actions;
      var first := OneQueued(net, actions[0]);
      assert Queued(net, actions) == first + Queued(net, actions[1..]);
      assert PingsIn(first) == [] by {
        assert first != [] ==> first[..0] == [];
      }
      PingsJoin(first, Queued(net, actions[1..]));
    }
  }

  /** What one action queues. */
  function OneQueued(net: Net, a: Action): seq<Outgoing> {
    if a.Push? && a.p.WellFormed() && Packed(net, a.p).Some?
    then [Outgoing(Packed(net, a.p).value, a.p.Type(), a.priority, a.p)] else []
  }

  /** Reading while the session stays open. */
  lemma {:induction false} DrainSettles(cfg: Config, peer: Peer, s: Bytes, budget: nat)
    ensures var r := Drain(cfg, peer, s, budget);
      r.end.Open? ==>
        && Settles(peer, r.end.peer, PongCount(r.delivered))
        && PingsIn(QueuedBy(cfg.net, r.delivered)) == []
    decreases |s|
  {
    hide Frame, Deliver, PongIn, Queued, Drain, QueuedBy, PongCount, PingsIn;
    DrainStep(cfg, peer, s, budget);
    NothingSettles(cfg.net, peer);
    if Frame(cfg.net, s).Whole? {
      var n := Frame(cfg.net, s).n;
      var step := Deliver(cfg, peer, s[..n], budget == 0);
      if step.Ok? {
        var (next, d) := step.value;
        DeliverySettles(cfg, peer, s[..n], budget == 0);
        DrainSettles(cfg, next, s[n..], budget - 1);
        var rest := Drain(cfg, next, s[n..], budget - 1).delivered;
        PongCountFirst(d, rest);
        QueuedFirst(cfg.net, d, rest);
        PingsJoin(Queued(cfg.net, d.actions), QueuedBy(cfg.net, rest));
      }
    }
  }

  lemma NothingSettles(net: Net, peer: Peer)
    ensures PongCount([]) == 0 && PingsIn(QueuedBy(net, [])) == [] && Settles(peer, peer, 0)
  {
  }

  /** Messages arrive, and the session stays open. */
  lemma ReadInStep(cfg: Config, peer: Peer, s: Bytes, queue: seq<Outgoing>, sent: seq<Outgoing>,
                   received: seq<Delivery>)
    requires InStep(peer, queue, sent, received)
    ensures var r := Drain(cfg, peer, s, MAX_MESSAGES_PER_READ);
      r.end.Open? ==> InStep(r.end.peer, queue + QueuedBy(cfg.net, r.delivered), sent, received + r.delivered)
  {
    hide Drain, QueuedBy, PongCount, PingsIn;
    var r := Drain(cfg, peer, s, MAX_MESSAGES_PER_READ);
    DrainSettles(cfg, peer, s, MAX_MESSAGES_PER_READ);
    PongCountJoin(received, r.delivered);
    if r.end.Open? {
      PushInStep(peer, queue, sent, received, QueuedBy(cfg.net, r.delivered));
    }
  }

  /** The timer does not expire while a ping is queued, and nobody else queues pings. */
  predicate Steady(node: Node, h: Happening)
    reads node
  {
    match h
    case Pushed(p, _) => p.Type() != Ping
    case PingTimer(_, _) => PingsIn(node.queue) == []
    case _ => true
  }

  /** One happening that keeps the pings in step. */
  method HappenInStep(node: Node, h: Happening) returns (ok: bool)
    requires node.Valid() && Possible(node, h) && Steady(node, h)
    requires !node.failed ==> InStep(node.peer, node.queue, node.sent, node.received)
    modifies node, node.inbound, if node.inbound == null then {} else {node.inbound.stream}
    ensures node.Valid() && node.failed == (old(node.failed) || !ok)
    ensures node.inbound == null || node.inbound == old(node.inbound)
            || (fresh(node.inbound) && fresh(node.inbound.stream))
    ensures !node.failed ==> InStep(node.peer, node.queue, node.sent, node.received)
  {
    hide Accounted, Conserved, Tracked, Framed, Counted, Message.Valid, Message.IsComplete, Drain, QueuedBy,
         NotifiedBy, Check, InStep, PingsIn, Packed, PeerAfterCheck, Unsent, Taken;
    ok := true;
    ghost var peer0, queue0, sent0, received0 := node.peer, node.queue, node.sent, node.received;
    match h
    case Arrives(data) =>
      ReadInStep(node.cfg, peer0, node.Pending() + data, queue0, sent0, received0);
      var r, _ := node.ParseMessages(data);
      ok := r.Ok?;
    case Pushed(p, priority) =>
      var r := node.PushMessage(p, priority);
      if !node.failed { QueuedInStep(peer0, queue0, sent0, received0, node.queue); }
    case PingTimer(nonce, running) => TimerKeepsStep(node, nonce, running);
    case WriteStarts(socketOpen, top) => WriteKeepsStep(node, socketOpen, top);
    case WriteEnds(running, failed, n) => var _ := node.HandleWrite(running, failed, n);
  }

  method TimerKeepsStep(node: Node, nonce: U64, running: bool)
    requires node.Valid() && nonce > 0 && PingsIn(node.queue) == []
    requires !node.failed ==> InStep(node.peer, node.queue, node.sent, node.received)
    modifies node`queue, node`pushed, node`peer
    ensures node.Valid()
    ensures !node.failed ==> InStep(node.peer, node.queue, node.sent, node.received)
  {
    hide Accounted, Conserved, Tracked, Framed, Counted, Message.Valid, Message.IsComplete, InStep, PingsIn, Packed;
    if running && !node.peer.pingPending && !node.failed {
      PingPacks(node.cfg.net, nonce);
      ghost var o := Outgoing(Packed(node.cfg.net, PingPongMsg(Ping, nonce)).value, Ping, High,
                              PingPongMsg(Ping, nonce));
      TimerInStep(node.peer, node.queue, node.sent, node.received, o);
    }
    var _ := node.OnPingTimer(nonce, running);
  }

  method WriteKeepsStep(node: Node, socketOpen: bool, top: int)
    requires node.Valid() && (node.queue != [] ==> IsTop(node.queue, top))
    requires !node.failed ==> InStep(node.peer, node.queue, node.sent, node.received)
    modifies node`isWriting, node`outbound, node`queue, node`cursor, node`sendBuffer, node`peer, node`completions,
             node`events, node`sent, node`refused, node`stopRequested
    ensures node.Valid()
    ensures !node.failed ==> InStep(node.peer, node.queue, node.sent, node.received)
  {
    hide Accounted, Conserved, Tracked, Framed, Counted, Message.Valid, Message.IsComplete, InStep, PingsIn, Check,
         PeerAfterCheck, Unsent;
    if node.queue != [] && !node.failed { TakenInStep(node.peer, node.queue, node.sent, node.received, top); }
    node.StartWrite(socketOpen, top);
  }

  /** At most one message that is not a ping is queued. */
  lemma QueuedInStep(peer: Peer, queue: seq<Outgoing>, sent: seq<Outgoing>, received: seq<Delivery>,
                     after: seq<Outgoing>)
    requires InStep(peer, queue, sent, received)
    requires after == queue || (|after| == |queue| + 1 && after == queue + [after[|queue|]]
                                && after[|queue|].kind != Ping)
    ensures InStep(peer, after, sent, received)
  {
    hide InStep;
    if after != queue {
      PingsAppend([], after[|queue|]);
      assert [] + [after[|queue|]] == [after[|queue|]];
      PushInStep(peer, queue, sent, received, [after[|queue|]]);
    }
  }

  /**
    Whatever happens to a node, in whatever order, as long as its timer does not expire while a ping is queued: until
    a read fails, the pong it accepts is the answer to the last ping sent, exactly as long as that has not come.
   */
  method RunInStep(cfg: Config, happenings: seq<Happening>) returns (node: Node)
    requires cfg.Valid()
    ensures fresh(node) && node.cfg == cfg && node.Valid()
    ensures !node.failed ==> forall nonce: U64 ::
      Process(cfg, node.peer, PingPongMsg(Pong, nonce)).Ok? <==>
        PongCount(node.received) < PingCount(node.sent) && nonce == PingsIn(node.sent)[PingCount(node.sent) - 1]
  {
    hide Accounted, Conserved, Tracked, Message.Valid, Message.IsComplete, Framed, Counted, InStep, Process;
    node := new Node(cfg);
    var i := 0;
    var reading := true;
    NothingInStep();
    while i < |happenings|
      invariant 0 <= i <= |happenings|
      invariant fresh(node) && node.cfg == cfg && node.Valid() && (reading ==> !node.failed)
      invariant node.inbound == null || (fresh(node.inbound) && fresh(node.inbound.stream))
      invariant !node.failed ==> InStep(node.peer, node.queue, node.sent, node.received)
    {
      var h := happenings[i];
      if Sensible(node, h) && Steady(node, h) && (h.Arrives? ==> reading) {
        var ok := HappenInStep(node, h);
        reading := reading && ok;
      }
      i := i + 1;
    }
    if !node.failed {
      forall nonce: U64 ensures Process(cfg, node.peer, PingPongMsg(Pong, nonce)).Ok? <==>
          PongCount(node.received) < PingCount(node.sent) && nonce == PingsIn(node.sent)[PingCount(node.sent) - 1]
      {
        HonestPong(cfg, node.peer, node.queue, node.sent, node.received, nonce);
      }
    }
  }
}
