/**
  What the node hub gets of the messages a node lets through (src/node/network/node.cpp, `process_inbound_message`).
 */
module Hub {
  import opened Common
  import opened Bits
  import opened Payloads
  import opened Protocol
  import opened Framing
  import opened Handshake
  import opened PayloadTypes
  import opened Processing
  import opened Receive
  import opened Outbox

  /**
    What of a message reaches the hub, when `requests` address requests came before it: nothing of a verack, a ping, a
    pong, or a third or later address request on an inbound connection; of a version, the `previous` one; any other
    message as it is.
   */
  function Reaches(inbound: bool, p: Payload, previous: VersionPayload, requests: nat): seq<Payload> {
    if p == NullMsg(VerAck) || p.PingPongMsg? || (inbound && p == NullMsg(GetAddr) && requests >= 2) then []
    else if p.VersionMsg? then [VersionMsg(previous)]
    else [p]
  }

  function RequestCount(ds: seq<Delivery>): nat {
    if ds == [] then 0 else RequestCount(ds[..|ds| - 1]) + RequestOf(ds[|ds| - 1].payload)
  }

  /** The last version among the messages, or the one before them. */
  function LastVersion(ds: seq<Delivery>, previous: VersionPayload): VersionPayload {
    if ds == [] then previous
    else if ds[|ds| - 1].payload.VersionMsg? then ds[|ds| - 1].payload.version
    else LastVersion(ds[..|ds| - 1], previous)
  }

  /** What the hub gets of a sequence of messages. */
  function HubGets(inbound: bool, ds: seq<Delivery>, previous: VersionPayload, requests: nat): seq<Payload> {
    if ds == [] then []
    else
      var before := ds[..|ds| - 1];
      HubGets(inbound, before, previous, requests)
      + Reaches(inbound, ds[|ds| - 1].payload, LastVersion(before, previous), requests + RequestCount(before))
  }

  lemma HubGetsMore(inbound: bool, ds: seq<Delivery>, d: Delivery, previous: VersionPayload, requests: nat)
    ensures HubGets(inbound, ds + [d], previous, requests) ==
            HubGets(inbound, ds, previous, requests)
            + Reaches(inbound, d.payload, LastVersion(ds, previous), requests + RequestCount(ds))
    ensures LastVersion(ds + [d], previous) ==
            if d.payload.VersionMsg? then d.payload.version else LastVersion(ds, previous)
    ensures RequestCount(ds + [d]) == RequestCount(ds) + RequestOf(d.payload)
  {
    hide Reaches;
    assert (ds + [d])[..|ds|] == ds;
  }

  /** The first message apart. */
  lemma {:induction false} HubGetsFirst(inbound: bool, d: Delivery, ds: seq<Delivery>, previous: VersionPayload,
                                        requests: nat)
    ensures var next := if d.payload.VersionMsg? then d.payload.version else previous;
      && HubGets(inbound, [d] + ds, previous, requests) ==
         Reaches(inbound, d.payload, previous, requests)
         + HubGets(inbound, ds, next, requests + RequestOf(d.payload))
      && LastVersion([d] + ds, previous) == LastVersion(ds, next)
      && RequestCount([d] + ds) == RequestOf(d.payload) + RequestCount(ds)
    decreases |ds|
  {
    hide Reaches, RequestOf;
    if ds == [] {
      assert [d] + ds == [] + [d];
      HubGetsMore(inbound, [], d, previous, requests);
    } else {
      var n := |ds| - 1;
      HubGetsFirst(inbound, d, ds[..n], previous, requests);
      HubGetsMore(inbound, [d] + ds[..n], ds[n], previous, requests);
      assert [d] + ds == ([d] + ds[..n]) + [ds[n]];
    }
  }

  lemma NotifiedOne(p: Payload)
    ensures Notified([Notify(p)]) == [p]
  {
    assert [Notify(p)][1..] == [];
  }

  lemma NotifiedAfter(p: Payload, priority: Priority, rest: seq<Action>)
    ensures Notified([Push(p, priority)] + rest) == Notified(rest)
  {
    assert ([Push(p, priority)] + rest)[1..] == rest;
  }

  lemma NotifiedNone()
    ensures Notified([]) == []
  {
  }

  /** What one payload hands to the hub, and the version remembered after it. */
  lemma ProcessHands(cfg: Config, peer: Peer, p: Payload)
    requires Process(cfg, peer, p).Ok?
    ensures var (next, actions) := Process(cfg, peer, p).value;
      && Notified(actions) == Reaches(cfg.inboundConnection, p, peer.remote, peer.getAddrs)
      && next.remote == (if p.VersionMsg? then p.version else peer.remote)
      && (forall a | a in actions && a.Push? :: a.priority == High)
  {
    hide HasFlag, Notified;
    NotifiedNone();
    match p
    case VersionMsg(v) =>
      var verack, tail := Push(NullMsg(VerAck), High), [Notify(VersionMsg(peer.remote))];
      NotifiedOne(VersionMsg(peer.remote));
      NotifiedAfter(NullMsg(VerAck), High, tail);
      NotifiedAfter(VersionMsg(cfg.local), High, [verack] + tail);
      assert VersionAnswers(cfg, peer.status, peer.remote) ==
        if HasFlag(peer.status, 1) then [verack] + tail else [Push(VersionMsg(cfg.local), High)] + ([verack] + tail);
    case PingPongMsg(k, nonce) =>
      NotifiedAfter(PingPongMsg(Pong, nonce), High, []);
      assert [Push(PingPongMsg(Pong, nonce), High)] + [] == [Push(PingPongMsg(Pong, nonce), High)];
    case _ => NotifiedOne(p);
  }

  lemma DeliveryHands(cfg: Config, peer: Peer, frame: Bytes)
    requires |frame| >= HEADER_LENGTH && Deliver(cfg, peer, frame, false).Ok?
    ensures var (next, d) := Deliver(cfg, peer, frame, false).value;
      && Notified(d.actions) == Reaches(cfg.inboundConnection, d.payload, peer.remote, peer.getAddrs)
      && next.remote == (if d.payload.VersionMsg? then d.payload.version else peer.remote)
      && next.getAddrs == peer.getAddrs + RequestOf(d.payload)
  {
    hide Unpack, Process, Check, Notified, Reaches, RequestOf;
    var t := FrameType(cfg.net, frame);
    ProcessHands(cfg, peer.(status := Check(peer.status, Event(Inbound, t)).value),
                 Unpack(t, frame[HEADER_LENGTH..]).value);
    DeliveryTells(cfg, peer, frame);
  }

  /** Everything handed to the hub. */
  function HandedIn(ds: seq<Delivery>): seq<Payload> {
    if ds == [] then [] else Notified(ds[0].actions) + HandedIn(ds[1..])
  }

  lemma FirstHands(cfg: Config, peer: Peer, d: Delivery, ds: seq<Delivery>)
    requires Notified(d.actions) == Reaches(cfg.inboundConnection, d.payload, peer.remote, peer.getAddrs)
    requires HandedIn(ds) ==
             HubGets(cfg.inboundConnection, ds, if d.payload.VersionMsg? then d.payload.version else peer.remote,
                     peer.getAddrs + RequestOf(d.payload))
    ensures HandedIn([d] + ds) == HubGets(cfg.inboundConnection, [d] + ds, peer.remote, peer.getAddrs)
  {
    hide Notified, Reaches, RequestOf, HubGets, LastVersion, RequestCount;
    HubGetsFirst(cfg.inboundConnection, d, ds, peer.remote, peer.getAddrs);
    assert ([d] + ds)[1..] == ds;
  }

  /** Over every stream the hub gets exactly that of the messages let through. */
  lemma {:induction false} StreamHands(cfg: Config, peer: Peer, s: Bytes)
    ensures var ds := DrainAll(cfg, peer, s).delivered;
      HandedIn(ds) == HubGets(cfg.inboundConnection, ds, peer.remote, peer.getAddrs)
    decreases |s|
  {
    hide Frame, Deliver, Notified, Reaches, RequestOf, HubGets, LastVersion, RequestCount;
    FrameSize(cfg.net, s);
    HubGetsNothing(cfg, peer);
    if Frame(cfg.net, s).Whole? {
      var n := Frame(cfg.net, s).n;
      var step := Deliver(cfg, peer, s[..n], false);
      if step.Ok? {
        var (next, d) := step.value;
        DeliveryHands(cfg, peer, s[..n]);
        StreamHands(cfg, next, s[n..]);
        FirstHands(cfg, peer, d, DrainAll(cfg, next, s[n..]).delivered);
      }
    }
  }

  lemma HubGetsNothing(cfg: Config, peer: Peer)
    ensures HubGets(cfg.inboundConnection, [], peer.remote, peer.getAddrs) == []
  {
  }

  /** What is pushed in answer to a message: our version, unless it has been sent, and a verack; a pong to a ping. */
  function AnswersTo(local: VersionPayload, greeted: bool, p: Payload): seq<Payload> {
    if p.VersionMsg? then (if greeted then [] else [VersionMsg(local)]) + [NullMsg(VerAck)]
    else if p.PingPongMsg? && p.pingKind == Ping then [PingPongMsg(Pong, p.nonce)]
    else []
  }

  function PushedOf(actions: seq<Action>): seq<Payload> {
    if actions == [] then [] else (if actions[0].Push? then [actions[0].p] else []) + PushedOf(actions[1..])
  }

  lemma PushedOne(a: Action, rest: seq<Action>)
    ensures PushedOf([a] + rest) == (if a.Push? then [a.p] else []) + PushedOf(rest)
    ensures PushedOf([a]) == if a.Push? then [a.p] else []
  {
    assert ([a] + rest)[1..] == rest && [a][1..] == [];
  }

  lemma ProcessPushes(cfg: Config, peer: Peer, p: Payload)
    requires Process(cfg, peer, p).Ok?
    ensures PushedOf(Process(cfg, peer, p).value.1) == AnswersTo(cfg.local, HasFlag(peer.status, 1), p)
    ensures Process(cfg, peer, p).value.0.status == peer.status
  {
    hide HasFlag, PushedOf;
    assert PushedOf([]) == [] by { PushedNone(); }
    match p
    case VersionMsg(v) =>
      var verack, told := Push(NullMsg(VerAck), High), Notify(VersionMsg(peer.remote));
      PushedOne(verack, [told]);
      PushedOne(told, []);
      PushedOne(Push(VersionMsg(cfg.local), High), [verack] + [told]);
      assert VersionAnswers(cfg, peer.status, peer.remote) ==
        if HasFlag(peer.status, 1) then [verack] + [told]
          else [Push(VersionMsg(cfg.local), High)] + ([verack] + [told]);
    case PingPongMsg(k, nonce) => PushedOne(Push(PingPongMsg(Pong, nonce), High), []);
    case _ => PushedOne(Notify(p), []);
  }

  lemma PushedNone()
    ensures PushedOf([]) == []
  {
  }

  /** What comes in does not change whether our version has been sent. */
  lemma GreetingKept(status: Status, t: MessageType)
    requires Check(status, Event(Inbound, t)).Ok?
    ensures HasFlag(status, 1) <==> HasFlag(Check(status, Event(Inbound, t)).value, 1)
  {
    hide BitAnd, BitOr;
    if t == Version { FlagBits(status, 2); }
    if t == VerAck { FlagBits(status, 8); }
  }

  lemma DeliveryPushes(cfg: Config, peer: Peer, frame: Bytes)
    requires |frame| >= HEADER_LENGTH && Deliver(cfg, peer, frame, false).Ok?
    ensures var (next, d) := Deliver(cfg, peer, frame, false).value;
      && PushedOf(d.actions) == AnswersTo(cfg.local, HasFlag(peer.status, 1), d.payload)
      && (HasFlag(next.status, 1) <==> HasFlag(peer.status, 1))
  {
    hide Unpack, Process, Check, PushedOf, AnswersTo, HasFlag;
    var t := FrameType(cfg.net, frame);
    GreetingKept(peer.status, t);
    ProcessPushes(cfg, peer.(status := Check(peer.status, Event(Inbound, t)).value),
                  Unpack(t, frame[HEADER_LENGTH..]).value);
  }

  /** Everything pushed in answer to messages, and what they call for. */
  function PushedIn(ds: seq<Delivery>): seq<Payload> {
    if ds == [] then [] else PushedOf(ds[0].actions) + PushedIn(ds[1..])
  }

  function AnswersIn(local: VersionPayload, greeted: bool, ds: seq<Delivery>): seq<Payload> {
    if ds == [] then [] else AnswersTo(local, greeted, ds[0].payload) + AnswersIn(local, greeted, ds[1..])
  }

  /** Over every stream the answers are exactly those that the messages let through call for, in order. */
  lemma {:induction false} StreamPushes(cfg: Config, peer: Peer, s: Bytes)
    ensures var ds := DrainAll(cfg, peer, s).delivered;
      PushedIn(ds) == AnswersIn(cfg.local, HasFlag(peer.status, 1), ds)
    decreases |s|
  {
    hide Frame, Deliver, PushedOf, AnswersTo, HasFlag;
    FrameSize(cfg.net, s);
    if Frame(cfg.net, s).Whole? {
      var n := Frame(cfg.net, s).n;
      var step := Deliver(cfg, peer, s[..n], false);
      if step.Ok? {
        var (next, d) := step.value;
        DeliveryPushes(cfg, peer, s[..n]);
        StreamPushes(cfg, next, s[n..]);
        var rest := DrainAll(cfg, next, s[n..]).delivered;
        assert ([d] + rest)[1..] == rest;
      }
    }
  }
}
