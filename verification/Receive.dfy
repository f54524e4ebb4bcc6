/**
  The receive loop on byte sequences (src/node/network/node.cpp, `parse_messages`): which messages a stream
  yields, what becomes of them, and that neither depends on how the socket cut the stream.
 */
module Receive {
  import opened Common
  import opened Bits
  import opened Codec
  import opened Payloads
  import opened Protocol
  import opened Framing
  import opened Handshake
  import opened PayloadTypes
  import opened Processing

  const MAX_MESSAGES_PER_READ := 32

  /** Why a session is to be disconnected: a frame that does not validate, or a complete message that is refused. */
  datatype Reason = Broken | Refused(error: Error)

  /** Where a session stands: open, with the unfinished start of a message, or to be disconnected. */
  datatype End = Open(peer: Peer, pending: Bytes) | Closed(why: Reason)
  datatype Drained = Drained(delivered: seq<Delivery>, end: End)

  lemma FrameSize(net: Net, s: Bytes)
    ensures Frame(net, s).Whole? ==> HEADER_LENGTH <= Frame(net, s).n <= |s|
  {
    hide CheckHeader, Judge;
  }

  /** All messages of a stream, with no limit on their number. */
  function DrainAll(cfg: Config, peer: Peer, s: Bytes): Drained
    decreases |s|
  {
    FrameSize(cfg.net, s);
    match Frame(cfg.net, s)
    case More => Drained([], Open(peer, s))
    case Bad => Drained([], Closed(Broken))
    case Whole(n) =>
      match Deliver(cfg, peer, s[..n], false)
      case Err(e) => Drained([], Closed(Refused(e)))
      case Ok((next, d)) =>
        var r := DrainAll(cfg, next, s[n..]);
        Drained([d] + r.delivered, r.end)
  }

  /** The messages of one read: one more than `budget` is flooding. */
  function Drain(cfg: Config, peer: Peer, s: Bytes, budget: nat): Drained
    decreases |s|
  {
    FrameSize(cfg.net, s);
    match Frame(cfg.net, s)
    case More => Drained([], Open(peer, s))
    case Bad => Drained([], Closed(Broken))
    case Whole(n) =>
      match Deliver(cfg, peer, s[..n], budget == 0)
      case Err(e) => Drained([], Closed(Refused(e)))
      case Ok((next, d)) =>
        assert budget > 0 by { Flooded(cfg, peer, s[..n]); }
        var r := Drain(cfg, next, s[n..], budget - 1);
        Drained([d] + r.delivered, r.end)
  }

  /** A message that would have been let through is refused as flooding; no other is let through instead. */
  lemma Flooded(cfg: Config, peer: Peer, frame: Bytes)
    requires |frame| >= HEADER_LENGTH
    ensures Deliver(cfg, peer, frame, true).Err?
    ensures Deliver(cfg, peer, frame, false).Ok? ==> Deliver(cfg, peer, frame, true) == Err(MessageFloodingDetected)
  {
    hide Check, Unpack, Process;
  }

  /** How many messages were completed: those let through and, if there is one, the one refused. */
  function Completed(r: Drained): nat {
    |r.delivered| + if r.end.Closed? && r.end.why.Refused? then 1 else 0
  }

  /** The limit changes nothing while it is kept, and cuts off exactly what exceeds it. */
  lemma {:induction false} FloodLimit(cfg: Config, peer: Peer, s: Bytes, budget: nat)
    ensures var all := DrainAll(cfg, peer, s);
      var limited := Drain(cfg, peer, s, budget);
      && (Completed(all) <= budget ==> limited == all)
      && (|all.delivered| > budget ==>
            limited == Drained(all.delivered[..budget], Closed(Refused(MessageFloodingDetected))))
      && (|all.delivered| == budget < Completed(all) ==>
            limited.delivered == all.delivered && limited.end.Closed? && limited.end.why.Refused?)
    decreases |s|
  {
    hide Frame, Deliver;
    FrameSize(cfg.net, s);
    if Frame(cfg.net, s).Whole? {
      var n := Frame(cfg.net, s).n;
      var step := Deliver(cfg, peer, s[..n], false);
      Flooded(cfg, peer, s[..n]);
      if step.Ok? && budget > 0 {
        FloodLimit(cfg, step.value.0, s[n..], budget - 1);
        var r := DrainAll(cfg, step.value.0, s[n..]);
        if |r.delivered| > budget - 1 {
          assert ([step.value.1] + r.delivered)[..budget] == [step.value.1] + r.delivered[..budget - 1];
        }
      }
    }
  }

  /** Going on with more bytes after `r`. */
  function Continue(cfg: Config, r: Drained, t: Bytes): Drained {
    match r.end
    case Closed(_) => r
    case Open(peer, pending) =>
      var r2 := DrainAll(cfg, peer, pending + t);
      Drained(r.delivered + r2.delivered, r2.end)
  }

  lemma ContinueAfter(cfg: Config, before: seq<Delivery>, r: Drained, t: Bytes)
    ensures var c := Continue(cfg, r, t);
      Continue(cfg, Drained(before + r.delivered, r.end), t) == Drained(before + c.delivered, c.end)
  {
    hide DrainAll;
    if r.end.Open? {
      var r2 := DrainAll(cfg, r.end.peer, r.end.pending + t);
      assert (before + r.delivered) + r2.delivered == before + (r.delivered + r2.delivered);
    }
  }

  /** A stream read in two parts yields what it yields read at once. */
  lemma {:induction false} DrainSplits(cfg: Config, peer: Peer, s: Bytes, t: Bytes)
    ensures DrainAll(cfg, peer, s + t) == Continue(cfg, DrainAll(cfg, peer, s), t)
    decreases |s|
  {
    hide Frame, Deliver;
    FrameSize(cfg.net, s);
    match Frame(cfg.net, s)
    case More =>
      var r := DrainAll(cfg, peer, s + t);
      assert [] + r.delivered == r.delivered;
    case Bad => BadExtends(cfg.net, s, t);
    case Whole(n) =>
      WholeExtends(cfg.net, s, t);
      assert (s + t)[..n] == s[..n];
      assert (s + t)[n..] == s[n..] + t;
      var step := Deliver(cfg, peer, s[..n], false);
      if step.Ok? {
        DrainSplits(cfg, step.value.0, s[n..], t);
        ContinueAfter(cfg, [step.value.1], DrainAll(cfg, step.value.0, s[n..]), t);
      }
  }

  /** What is left pending is the unfinished start of a message. */
  lemma {:induction false} PendingIsStuck(cfg: Config, peer: Peer, s: Bytes)
    ensures var r := DrainAll(cfg, peer, s);
      r.end.Open? ==> DrainAll(cfg, r.end.peer, r.end.pending) == Drained([], r.end)
    decreases |s|
  {
    hide Frame, Deliver;
    FrameSize(cfg.net, s);
    if Frame(cfg.net, s).Whole? {
      var n := Frame(cfg.net, s).n;
      var step := Deliver(cfg, peer, s[..n], false);
      if step.Ok? {
        PendingIsStuck(cfg, step.value.0, s[n..]);
      }
    }
  }

  /** A sequence of reads, each with its own limit; a failed read is the last one. */
  function Reads(cfg: Config, r: Drained, chunks: seq<Bytes>): Drained
    decreases |chunks|
  {
    if chunks == [] || r.end.Closed? then r
    else
      var one := Drain(cfg, r.end.peer, r.end.pending + chunks[0], MAX_MESSAGES_PER_READ);
      Reads(cfg, Drained(r.delivered + one.delivered, one.end), chunks[1..])
  }

  /** No read of the sequence completes more than 32 messages. */
  ghost predicate NoFlood(cfg: Config, r: Drained, chunks: seq<Bytes>)
    decreases |chunks|
  {
    chunks == [] || r.end.Closed? ||
    (var one := DrainAll(cfg, r.end.peer, r.end.pending + chunks[0]);
     && Completed(one) <= MAX_MESSAGES_PER_READ
     && NoFlood(cfg, Drained(r.delivered + one.delivered, one.end), chunks[1..]))
  }

  /** Reads that do not flood are one read of their concatenation. */
  lemma {:induction false} ReadsAreContinue(cfg: Config, r: Drained, chunks: seq<Bytes>)
    requires NoFlood(cfg, r, chunks)
    requires r.end.Open? ==> DrainAll(cfg, r.end.peer, r.end.pending) == Drained([], r.end)
    ensures Reads(cfg, r, chunks) == Continue(cfg, r, Concat(chunks))
    decreases |chunks|
  {
    hide Drain, DrainAll;
    if r.end.Open? {
      var peer, pending := r.end.peer, r.end.pending;
      if chunks == [] {
        assert pending + [] == pending;
        assert r.delivered + [] == r.delivered;
      } else {
        var one := DrainAll(cfg, peer, pending + chunks[0]);
        FloodLimit(cfg, peer, pending + chunks[0], MAX_MESSAGES_PER_READ);
        PendingIsStuck(cfg, peer, pending + chunks[0]);
        ReadsAreContinue(cfg, Drained(r.delivered + one.delivered, one.end), chunks[1..]);
        DrainSplits(cfg, peer, pending + chunks[0], Concat(chunks[1..]));
        assert pending + Concat(chunks) == (pending + chunks[0]) + Concat(chunks[1..]);
        ContinueAfter(cfg, r.delivered, one, Concat(chunks[1..]));
      }
    }
  }

  function Opening(peer: Peer): Drained {
    Drained([], Open(peer, []))
  }

  /**
    Two ways of cutting the same stream into reads, neither of which floods, give the same messages, the same
    actions and the same outcome: those of the stream read at once.
   */
  lemma SegmentationIndependence(cfg: Config, peer: Peer, cut1: seq<Bytes>, cut2: seq<Bytes>)
    requires Concat(cut1) == Concat(cut2)
    requires NoFlood(cfg, Opening(peer), cut1) && NoFlood(cfg, Opening(peer), cut2)
    ensures Reads(cfg, Opening(peer), cut1) == DrainAll(cfg, peer, Concat(cut1)) == Reads(cfg, Opening(peer), cut2)
  {
    hide DrainAll, Reads, NoFlood;
    NothingYet(cfg, peer);
    ReadsAreContinue(cfg, Opening(peer), cut1);
    ReadsAreContinue(cfg, Opening(peer), cut2);
    assert [] + Concat(cut1) == Concat(cut1);
    var all := DrainAll(cfg, peer, Concat(cut1));
    assert [] + all.delivered == all.delivered;
  }

  lemma NothingYet(cfg: Config, peer: Peer)
    ensures DrainAll(cfg, peer, []) == Drained([], Open(peer, []))
  {
    hide Deliver;
  }

  function PingOf(p: Payload): seq<U64> {
    if p.PingPongMsg? && p.pingKind == Ping then [p.nonce] else []
  }

  function PongOf(a: Action): seq<U64> {
    if a.Push? && a.p.PingPongMsg? && a.p.pingKind == Pong then [a.p.nonce] else []
  }

  function VersionOf(p: Payload): nat {
    if p.VersionMsg? then 1 else 0
  }

  function VerAckOf(a: Action): nat {
    if a.Push? && a.p == NullMsg(VerAck) then 1 else 0
  }

  /** The nonces of the pings among the messages. */
  function Pings(ds: seq<Delivery>): seq<U64> {
    if ds == [] then [] else PingOf(ds[0].payload) + Pings(ds[1..])
  }

  function PongsOf(actions: seq<Action>): seq<U64> {
    if actions == [] then [] else PongOf(actions[0]) + PongsOf(actions[1..])
  }

  /** The nonces of the pongs that the messages made the node queue. */
  function Pongs(ds: seq<Delivery>): seq<U64> {
    if ds == [] then [] else PongsOf(ds[0].actions) + Pongs(ds[1..])
  }

  function Versions(ds: seq<Delivery>): nat {
    if ds == [] then 0 else VersionOf(ds[0].payload) + Versions(ds[1..])
  }

  function VerAcksOf(actions: seq<Action>): nat {
    if actions == [] then 0 else VerAckOf(actions[0]) + VerAcksOf(actions[1..])
  }

  function VerAcks(ds: seq<Delivery>): nat {
    if ds == [] then 0 else VerAcksOf(ds[0].actions) + VerAcks(ds[1..])
  }

  lemma OneAction(a: Action)
    ensures PongsOf([a]) == PongOf(a) && VerAcksOf([a]) == VerAckOf(a)
  {
    assert [a][1..] == [];
  }

  lemma MoreActions(a: Action, rest: seq<Action>)
    ensures PongsOf([a] + rest) == PongOf(a) + PongsOf(rest) && VerAcksOf([a] + rest) == VerAckOf(a) + VerAcksOf(rest)
  {
    assert ([a] + rest)[1..] == rest;
  }

  /** What processing one payload answers. */
  lemma ProcessAnswers(cfg: Config, peer: Peer, p: Payload)
    requires Process(cfg, peer, p).Ok?
    ensures var (next, actions) := Process(cfg, peer, p).value;
      PongsOf(actions) == PingOf(p) && VerAcksOf(actions) == VersionOf(p) && next.status == peer.status
  {
    hide HasFlag, PongsOf, VerAcksOf;
    var actions := Process(cfg, peer, p).value.1;
    var none: seq<Action> := [];
    assert PongsOf(none) == [] && VerAcksOf(none) == 0 by { NoAction(); }
    match p
    case VersionMsg(v) =>
      var verack, tail := Push(NullMsg(VerAck), High), [Notify(VersionMsg(peer.remote))];
      OneAction(Notify(VersionMsg(peer.remote)));
      MoreActions(verack, tail);
      MoreActions(Push(VersionMsg(cfg.local), High), [verack] + tail);
      assert actions == [verack] + tail || actions == [Push(VersionMsg(cfg.local), High)] + ([verack] + tail);
    case _ =>
      if |actions| == 1 {
        OneAction(actions[0]);
        assert actions == [actions[0]];
      }
  }

  lemma NoAction()
    ensures PongsOf([]) == [] && VerAcksOf([]) == 0
  {
  }

  /** What one delivery answers, and what it does to the handshake. */
  lemma DeliveryAnswers(cfg: Config, peer: Peer, frame: Bytes)
    requires |frame| >= HEADER_LENGTH
    requires Deliver(cfg, peer, frame, false).Ok?
    ensures var (next, d) := Deliver(cfg, peer, frame, false).value;
      && PongsOf(d.actions) == PingOf(d.payload)
      && VerAcksOf(d.actions) == VersionOf(d.payload)
      && (d.payload.VersionMsg? ==> !HasFlag(peer.status, 2) && HasFlag(next.status, 2))
      && (HasFlag(peer.status, 2) ==> HasFlag(next.status, 2))
  {
    hide Unpack, Process, Check, HasFlag, PongsOf, VerAcksOf;
    var t := FrameType(cfg.net, frame);
    var payload := frame[HEADER_LENGTH..];
    UnpackedType(t, payload);
    InboundFlag(peer.status, t);
    ProcessAnswers(cfg, peer.(status := Check(peer.status, Event(Inbound, t)).value), Unpack(t, payload).value);
  }

  lemma UnpackedType(t: MessageType, payload: Bytes)
    ensures Unpack(t, payload).Ok? ==> Unpack(t, payload).value.Type() == t
  {
    hide Decode;
    DecodedType(t, payload);
  }

  lemma InboundFlag(status: Status, t: MessageType)
    requires Check(status, Event(Inbound, t)).Ok?
    ensures var next := Check(status, Event(Inbound, t)).value;
      && (t == Version ==> !HasFlag(status, 2) && HasFlag(next, 2))
      && (HasFlag(status, 2) ==> HasFlag(next, 2))
  {
    hide BitAnd, BitOr;
    if t == Version { FlagBits(status, 2); }
    if t == VerAck { FlagBits(status, 8); }
  }

  /**
    Over a whole stream every ping is answered by exactly one pong with its nonce, in order; a version is taken
    at most once in a session, and is what a verack answers.
   */
  lemma {:induction false} StreamAnswers(cfg: Config, peer: Peer, s: Bytes)
    ensures var ds := DrainAll(cfg, peer, s).delivered;
      && Pongs(ds) == Pings(ds)
      && VerAcks(ds) == Versions(ds) <= (if HasFlag(peer.status, 2) then 0 else 1)
    decreases |s|
  {
    hide Frame, Deliver, HasFlag, PongsOf, VerAcksOf, PingOf;
    FrameSize(cfg.net, s);
    if Frame(cfg.net, s).Whole? {
      var n := Frame(cfg.net, s).n;
      var step := Deliver(cfg, peer, s[..n], false);
      if step.Ok? {
        var d := step.value.1;
        DeliveryAnswers(cfg, peer, s[..n]);
        StreamAnswers(cfg, step.value.0, s[n..]);
        assert ([d] + DrainAll(cfg, step.value.0, s[n..]).delivered)[1..]
               == DrainAll(cfg, step.value.0, s[n..]).delivered;
      }
    }
  }

  function PongIn(p: Payload): seq<U64> {
    if p.PingPongMsg? && p.pingKind != Ping then [p.nonce] else []
  }

  /** The nonces of the pongs among the messages. */
  function PongsIn(ds: seq<Delivery>): seq<U64> {
    if ds == [] then [] else PongIn(ds[0].payload) + PongsIn(ds[1..])
  }

  /** What the session waits for: the nonce of its own ping, if one is under way. */
  function Awaited(peer: Peer): seq<U64> {
    if peer.pingPending && peer.pingNonce.Some? then [peer.pingNonce.value] else []
  }

  /** Which payloads are refused, and why. */
  lemma Refusals(cfg: Config, peer: Peer, p: Payload)
    ensures Process(cfg, peer, p) == Err(InvalidProtocolVersion) <==>
            p.VersionMsg? && p.version.protocolVersion != 170_002
    ensures Process(cfg, peer, p) == Err(ConnectedToSelf) <==>
      p.VersionMsg? && p.version.protocolVersion == 170_002 && p.version.nonce == cfg.local.nonce
    ensures Process(cfg, peer, p) == Err(UnsolicitedPong) <==> PongIn(p) != [] && Awaited(peer) == []
    ensures Process(cfg, peer, p) == Err(InvalidPingPongNonce) <==>
      PongIn(p) != [] && Awaited(peer) != [] && PongIn(p) != Awaited(peer)
    ensures Process(cfg, peer, p).Err? ==>
      Process(cfg, peer, p).error in {InvalidProtocolVersion, ConnectedToSelf, UnsolicitedPong, InvalidPingPongNonce}
  {
    hide VersionAnswers;
    assert PongIn(p) != [] && Awaited(peer) != [] ==>
           (PongIn(p) == Awaited(peer) <==> PongIn(p)[0] == Awaited(peer)[0]);
  }

  /** A pong is accepted exactly when its nonce is the awaited one. */
  lemma PongAccepted(cfg: Config, peer: Peer, nonce: U64)
    ensures Process(cfg, peer, PingPongMsg(Pong, nonce)).Ok? <==> Awaited(peer) == [nonce]
  {
    hide VersionAnswers;
    assert Awaited(peer) == [nonce] ==> Awaited(peer)[0] == nonce;
  }

  /** What is let through leaves awaited what was, but for the pong in it. */
  lemma PongIsAwaited(cfg: Config, peer: Peer, p: Payload)
    requires Process(cfg, peer, p).Ok?
    ensures Awaited(peer) == PongIn(p) + Awaited(Process(cfg, peer, p).value.0)
  {
    hide VersionAnswers;
  }

  lemma DeliveryAwaits(cfg: Config, peer: Peer, frame: Bytes)
    requires |frame| >= HEADER_LENGTH && Deliver(cfg, peer, frame, false).Ok?
    ensures var (next, d) := Deliver(cfg, peer, frame, false).value;
      Awaited(peer) == PongIn(d.payload) + Awaited(next)
  {
    hide Unpack, Process, Check;
    var t := FrameType(cfg.net, frame);
    PongIsAwaited(cfg, peer.(status := Check(peer.status, Event(Inbound, t)).value),
                  Unpack(t, frame[HEADER_LENGTH..]).value);
  }

  /**
    Over a whole stream at most one pong is let through, and only the answer to our own ping; while the session is
    open it is let through or still awaited.
   */
  lemma {:induction false} PongsAreAwaited(cfg: Config, peer: Peer, s: Bytes)
    ensures var r := DrainAll(cfg, peer, s);
      && PongsIn(r.delivered) <= Awaited(peer)
      && (r.end.Open? ==> PongsIn(r.delivered) + Awaited(r.end.peer) == Awaited(peer))
    decreases |s|
  {
    hide Frame, Deliver, PongIn, Awaited;
    FrameSize(cfg.net, s);
    if Frame(cfg.net, s).Whole? {
      var n := Frame(cfg.net, s).n;
      var step := Deliver(cfg, peer, s[..n], false);
      if step.Ok? {
        DeliveryAwaits(cfg, peer, s[..n]);
        PongsAreAwaited(cfg, step.value.0, s[n..]);
        var rest := DrainAll(cfg, step.value.0, s[n..]);
        assert ([step.value.1] + rest.delivered)[1..] == rest.delivered;
      }
    }
  }

  function RequestOf(p: Payload): nat {
    if p == NullMsg(GetAddr) then 1 else 0
  }

  /** How many address requests there are among the messages. */
  function Asked(ds: seq<Delivery>): nat {
    if ds == [] then 0 else RequestOf(ds[0].payload) + Asked(ds[1..])
  }

  function HandedOf(actions: seq<Action>): nat {
    if actions == [] then 0
    else (if actions[0].Notify? then RequestOf(actions[0].payload) else 0) + HandedOf(actions[1..])
  }

  /** How many address requests were handed to the hub. */
  function Handed(ds: seq<Delivery>): nat {
    if ds == [] then 0 else HandedOf(ds[0].actions) + Handed(ds[1..])
  }

  /** The versions the hub was told of. */
  function ToldOf(actions: seq<Action>): seq<VersionPayload> {
    if actions == [] then []
    else
      (if actions[0].Notify? && actions[0].payload.VersionMsg? then [actions[0].payload.version] else [])
      + ToldOf(actions[1..])
  }

  function Told(ds: seq<Delivery>): seq<VersionPayload> {
    if ds == [] then [] else ToldOf(ds[0].actions) + Told(ds[1..])
  }

  lemma NotifyOnly(p: Payload)
    ensures HandedOf([Notify(p)]) == RequestOf(p)
    ensures ToldOf([Notify(p)]) == if p.VersionMsg? then [p.version] else []
  {
    assert [Notify(p)][1..] == [];
  }

  lemma PushThen(p: Payload, priority: Priority, rest: seq<Action>)
    ensures HandedOf([Push(p, priority)] + rest) == HandedOf(rest) && ToldOf([Push(p, priority)] + rest) == ToldOf(rest)
  {
    assert ([Push(p, priority)] + rest)[1..] == rest;
  }

  /** What the hub gets to know of one payload. */
  lemma ProcessTells(cfg: Config, peer: Peer, p: Payload)
    requires Process(cfg, peer, p).Ok?
    ensures var (next, actions) := Process(cfg, peer, p).value;
      && HandedOf(actions) == (if cfg.inboundConnection && peer.getAddrs > 1 then 0 else RequestOf(p))
      && ToldOf(actions) == (if p.VersionMsg? then [peer.remote] else [])
      && next.getAddrs == peer.getAddrs && (!p.VersionMsg? ==> next.remote == peer.remote)
  {
    hide HasFlag, HandedOf, ToldOf;
    var none: seq<Action> := [];
    assert HandedOf(none) == 0 && ToldOf(none) == [] by { ToldNothing(); }
    match p
    case VersionMsg(v) =>
      var verack, tail := Push(NullMsg(VerAck), High), [Notify(VersionMsg(peer.remote))];
      NotifyOnly(VersionMsg(peer.remote));
      PushThen(NullMsg(VerAck), High, tail);
      PushThen(VersionMsg(cfg.local), High, [verack] + tail);
      assert VersionAnswers(cfg, peer.status, peer.remote) ==
        if HasFlag(peer.status, 1) then [verack] + tail else [Push(VersionMsg(cfg.local), High)] + ([verack] + tail);
    case PingPongMsg(k, nonce) =>
      PushThen(PingPongMsg(Pong, nonce), High, none);
      assert [Push(PingPongMsg(Pong, nonce), High)] + none == [Push(PingPongMsg(Pong, nonce), High)];
    case _ => NotifyOnly(p);
  }

  lemma ToldNothing()
    ensures HandedOf([]) == 0 && ToldOf([]) == []
  {
  }

  lemma DeliveryTells(cfg: Config, peer: Peer, frame: Bytes)
    requires |frame| >= HEADER_LENGTH && Deliver(cfg, peer, frame, false).Ok?
    ensures var (next, d) := Deliver(cfg, peer, frame, false).value;
      && HandedOf(d.actions) == (if cfg.inboundConnection && peer.getAddrs > 1 then 0 else RequestOf(d.payload))
      && ToldOf(d.actions) == (if d.payload.VersionMsg? then [peer.remote] else [])
      && next.getAddrs == peer.getAddrs + RequestOf(d.payload)
      && (!d.payload.VersionMsg? ==> next.remote == peer.remote)
  {
    hide Unpack, Process, Check, HandedOf, ToldOf;
    var t := FrameType(cfg.net, frame);
    var payload := frame[HEADER_LENGTH..];
    UnpackedType(t, payload);
    var p := Unpack(t, payload).value;
    assert t == GetAddr <==> p == NullMsg(GetAddr) by { RequestType(t, payload); }
    ProcessTells(cfg, peer.(status := Check(peer.status, Event(Inbound, t)).value), p);
  }

  lemma RequestType(t: MessageType, payload: Bytes)
    requires Unpack(t, payload).Ok?
    ensures t == GetAddr <==> Unpack(t, payload).value == NullMsg(GetAddr)
  {
    hide Decode;
    DecodedType(t, payload);
    DecodedRequest(payload);
  }

  lemma DecodedRequest(payload: Bytes)
    ensures Decode(GetAddr, payload) == Got(NullMsg(GetAddr), payload)
  {
  }

  /**
    On an inbound connection the first two address requests of a session reach the hub and no later one does; on
    an outbound connection all of them do.
   */
  lemma {:induction false} RequestsHanded(cfg: Config, peer: Peer, s: Bytes)
    ensures var ds := DrainAll(cfg, peer, s).delivered;
      Handed(ds) == if cfg.inboundConnection then Min(Asked(ds), Max(0, 2 - peer.getAddrs)) else Asked(ds)
    decreases |s|
  {
    hide Frame, Deliver, HandedOf, RequestOf;
    FrameSize(cfg.net, s);
    if Frame(cfg.net, s).Whole? {
      var n := Frame(cfg.net, s).n;
      var step := Deliver(cfg, peer, s[..n], false);
      if step.Ok? {
        var (next, d) := step.value;
        DeliveryTells(cfg, peer, s[..n]);
        assert RequestOf(d.payload) <= 1 by { OneRequest(d.payload); }
        RequestsHanded(cfg, next, s[n..]);
        assert ([d] + DrainAll(cfg, next, s[n..]).delivered)[1..] == DrainAll(cfg, next, s[n..]).delivered;
      }
    }
  }

  lemma OneRequest(p: Payload)
    ensures RequestOf(p) <= 1
  {
  }

  /**
    The hub is told of a version exactly when one is taken, and what it is told is the version remembered before
    the stream, never the one received.
   */
  lemma {:induction false} HubIsToldThePrevious(cfg: Config, peer: Peer, s: Bytes)
    ensures var ds := DrainAll(cfg, peer, s).delivered;
      Told(ds) == if Versions(ds) == 1 then [peer.remote] else []
    decreases |s|
  {
    hide Frame, Deliver, HasFlag, ToldOf, RequestOf, HandedOf;
    FrameSize(cfg.net, s);
    if Frame(cfg.net, s).Whole? {
      var n := Frame(cfg.net, s).n;
      var step := Deliver(cfg, peer, s[..n], false);
      if step.Ok? {
        var (next, d) := step.value;
        DeliveryTells(cfg, peer, s[..n]);
        DeliveryAnswers(cfg, peer, s[..n]);
        StreamAnswers(cfg, next, s[n..]);
        HubIsToldThePrevious(cfg, next, s[n..]);
        assert ([d] + DrainAll(cfg, next, s[n..]).delivered)[1..] == DrainAll(cfg, next, s[n..]).delivered;
      }
    }
  }
}
