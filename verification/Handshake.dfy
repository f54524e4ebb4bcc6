/**
  The protocol handshake (src/node/network/node.cpp, `validate_message_for_protocol_handshake`): one
  status word per session, shared by both directions.
 */
module Handshake {
  import opened Bits
  import opened Codec
  import opened Protocol

  datatype Direction = Outbound | Inbound

  type Status = n: int | 0 <= n < 16

  const NOT_INITIATED: Status := 0
  const VERSION_EXCHANGED: Status := 3
  const COMPLETED: Status := 15

  datatype Event = Event(direction: Direction, kind: MessageType) {
    predicate IsHandshake() {
      kind == Version || kind == VerAck
    }

    /** `1 << direction` for version, `4 << direction` for verack, zero for anything else. */
    function Flag(): nat {
      (if kind == Version then 1 else if kind == VerAck then 4 else 0) * (if direction == Inbound then 2 else 1)
    }
  }

  predicate HasFlag(status: int, flag: int)
    requires flag > 0
  {
    status / flag % 2 == 1
  }

  lemma FlagBits(status: Status, flag: int)
    requires flag in {1, 2, 4, 8}
    ensures BitAnd(status, flag) == flag <==> HasFlag(status, flag)
    ensures BitOr(status, flag) == if HasFlag(status, flag) then status else status + flag
    ensures 0 <= BitOr(status, flag) < 16
  {
    var k := if flag == 1 then 0 else if flag == 2 then 1 else if flag == 4 then 2 else 3;
    assert Pow2(0) == 1 && Pow2(1) == 2 && Pow2(2) == 4 && Pow2(3) == 8;
    SingleBit(status, k);
  }

  /** The status after a message, or why the message is refused. */
  function Check(status: Status, event: Event): Result<Status> {
    var flag := event.Flag();
    if status == NOT_INITIATED && event.kind != Version then Err(InvalidProtocolHandShake)
    else if status == COMPLETED then
      if event.IsHandshake() then Err(DuplicateProtocolHandShake) else Ok(status)
    else if flag != 0 then
      FlagBits(status, flag);
      if BitAnd(status, flag) == flag then Err(DuplicateProtocolHandShake) else Ok(BitOr(status, flag))
    else if status < VERSION_EXCHANGED then Err(InvalidProtocolHandShake)
    else Ok(status)
  }

  /** Which messages are refused, and why: a handshake message the second time, any other before its time. */
  lemma Refused(status: Status, e: Event)
    ensures Check(status, e) == Err(DuplicateProtocolHandShake) <==> e.IsHandshake() && HasFlag(status, e.Flag())
    ensures Check(status, e) == Err(InvalidProtocolHandShake) <==>
      (status == 0 && e.kind != Version) || (!e.IsHandshake() && status < 3)
    ensures Check(status, e).Err? ==>
      Check(status, e).error in {DuplicateProtocolHandShake, InvalidProtocolHandShake}
  {
    hide BitAnd, BitOr;
    if e.IsHandshake() { FlagBits(status, e.Flag()); }
  }

  /** A session so far: the status word, the messages let through, and how often completion was announced. */
  datatype Session = Session(status: Status, accepted: seq<Event>, completions: nat)

  const START := Session(NOT_INITIATED, [], 0)

  /** One check; a refused message changes nothing. */
  function Step(s: Session, event: Event): Session {
    match Check(s.status, event)
    case Err(_) => s
    case Ok(status) =>
      Session(status, s.accepted + [event],
              s.completions + if event.IsHandshake() && status == COMPLETED then 1 else 0)
  }

  /** The session after any interleaving of inbound and outbound messages. */
  function Run(events: seq<Event>): Session {
    if events == [] then START
    else Step(Run(events[..|events| - 1]), events[|events| - 1])
  }

  function Accepted(accepted: seq<Event>, direction: Direction, kind: MessageType): nat {
    if Event(direction, kind) in accepted then 1 else 0
  }

  /** How many of the four handshake messages have been let through. */
  function HandshakeCount(accepted: seq<Event>): nat {
    Accepted(accepted, Outbound, Version) + Accepted(accepted, Inbound, Version)
    + Accepted(accepted, Outbound, VerAck) + Accepted(accepted, Inbound, VerAck)
  }

  /** The word that a set of accepted handshake messages amounts to. */
  function Word(accepted: seq<Event>): Status {
    Accepted(accepted, Outbound, Version) + 2 * Accepted(accepted, Inbound, Version)
    + 4 * Accepted(accepted, Outbound, VerAck) + 8 * Accepted(accepted, Inbound, VerAck)
  }

  /** When other messages may pass: at least two handshake messages, among them a version. */
  predicate Ready(accepted: seq<Event>) {
    && HandshakeCount(accepted) >= 2
    && Accepted(accepted, Outbound, Version) + Accepted(accepted, Inbound, Version) >= 1
    && (Accepted(accepted, Outbound, VerAck) + Accepted(accepted, Inbound, VerAck) == 0 ==>
          Accepted(accepted, Outbound, Version) + Accepted(accepted, Inbound, Version) == 2)
  }

  ghost predicate Orderly(s: Session) {
    && s.status == Word(s.accepted)
    && (s.accepted != [] ==> s.accepted[0].kind == Version)
    && s.completions == (if s.status == COMPLETED then 1 else 0)
    && (forall i, j | 0 <= i < j < |s.accepted| && s.accepted[i].IsHandshake() :: s.accepted[i] != s.accepted[j])
    && (forall k | 0 <= k < |s.accepted| && !s.accepted[k].IsHandshake() :: Ready(s.accepted[..k]))
  }

  lemma AcceptedAfter(accepted: seq<Event>, event: Event, direction: Direction, kind: MessageType)
    ensures Accepted(accepted + [event], direction, kind) ==
            if event == Event(direction, kind) then 1 else Accepted(accepted, direction, kind)
  {
  }

  lemma WordAfter(accepted: seq<Event>, event: Event)
    ensures !event.IsHandshake() ==> Word(accepted + [event]) == Word(accepted)
    ensures event.IsHandshake() && event !in accepted ==> Word(accepted + [event]) == Word(accepted) + event.Flag()
    ensures event.IsHandshake() ==> (HasFlag(Word(accepted), event.Flag()) <==> event in accepted)
  {
    AcceptedAfter(accepted, event, Outbound, Version);
    AcceptedAfter(accepted, event, Inbound, Version);
    AcceptedAfter(accepted, event, Outbound, VerAck);
    AcceptedAfter(accepted, event, Inbound, VerAck);
  }

  /** A non-empty session starts with a version, so a version has been let through. */
  lemma VersionFirst(s: Session)
    requires Orderly(s) && s.accepted != []
    ensures Accepted(s.accepted, Outbound, Version) + Accepted(s.accepted, Inbound, Version) >= 1
  {
    var first := s.accepted[0];
    assert first in s.accepted;
    assert first == Event(first.direction, Version);
    if first.direction == Outbound {
      assert first == Event(Outbound, Version);
    } else {
      assert first == Event(Inbound, Version);
    }
  }

  /** Other messages pass exactly when at least two handshake messages have. */
  lemma OthersNeedTwo(s: Session, event: Event)
    requires Orderly(s) && !event.IsHandshake()
    ensures Check(s.status, event).Ok? <==> HandshakeCount(s.accepted) >= 2
    ensures Check(s.status, event).Ok? ==> Ready(s.accepted)
  {
    if s.accepted != [] {
      VersionFirst(s);
    }
  }

  lemma StepOrderly(s: Session, event: Event)
    requires Orderly(s)
    ensures Orderly(Step(s, event))
  {
    hide Word;
    var t := Step(s, event);
    WordAfter(s.accepted, event);
    if t != s {
      assert t.accepted == s.accepted + [event];
      assert forall k | 0 <= k <= |s.accepted| :: t.accepted[..k] == s.accepted[..k];
      if event.IsHandshake() {
        FlagBits(s.status, event.Flag());
        WordStart(s.accepted);
      } else {
        OthersNeedTwo(s, event);
      }
    }
  }

  lemma WordStart(accepted: seq<Event>)
    ensures accepted == [] ==> Word(accepted) == 0
  {
  }

  /**
    Every interleaving is orderly: the status word is exactly the set of accepted handshake messages, each is
    accepted at most once, the first accepted message is a version, completion is announced exactly once, on the
    fourth, and other messages pass only after two handshake messages including a version.
   */
  lemma {:induction false} EveryRunOrderly(events: seq<Event>)
    ensures Orderly(Run(events))
    decreases |events|
  {
    if events == [] {
      WordStart([]);
    } else {
      EveryRunOrderly(events[..|events| - 1]);
      StepOrderly(Run(events[..|events| - 1]), events[|events| - 1]);
    }
  }

  /**
    The intended rule, both versions before anything else, is missed exactly in the states that have one version
    and at least one verack.
   */
  lemma ExchangeGap(events: seq<Event>, event: Event)
    requires !event.IsHandshake()
    ensures var s := Run(events);
      (Check(s.status, event).Ok? && !(HasFlag(s.status, 1) && HasFlag(s.status, 2)))
      <==> s.status in {5, 6, 9, 10, 13, 14}
  {
    hide Check, Run;
    EveryRunOrderly(events);
    var s := Run(events);
    OthersNeedTwo(s, event);
    if s.accepted != [] {
      VersionFirst(s);
    }
    OneVersionSomeVerack(Accepted(s.accepted, Outbound, Version), Accepted(s.accepted, Inbound, Version),
                         Accepted(s.accepted, Outbound, VerAck), Accepted(s.accepted, Inbound, VerAck));
  }

  lemma OneVersionSomeVerack(a: int, b: int, c: int, d: int)
    requires 0 <= a <= 1 && 0 <= b <= 1 && 0 <= c <= 1 && 0 <= d <= 1 && (a + b >= 1 || c + d == 0)
    ensures var w := a + 2 * b + 4 * c + 8 * d;
      (a + b + c + d >= 2 && !(HasFlag(w, 1) && HasFlag(w, 2))) <==> w in {5, 6, 9, 10, 13, 14}
  {
  }

  /** One such run: our version, our verack, then a ping from a peer that never sent its version. */
  lemma ExchangeGapWitness()
    ensures var s := Run([Event(Outbound, Version), Event(Outbound, VerAck)]);
      s.status == 5 && Check(s.status, Event(Inbound, Ping)).Ok?
  {
    var e1, e2 := Event(Outbound, Version), Event(Outbound, VerAck);
    assert [e1, e2][..1] == [e1] && [e1][..0] == [];
    FlagBits(0, 1);
    FlagBits(1, 4);
    assert Run([e1]) == Step(START, e1);
    assert Run([e1, e2]) == Step(Run([e1]), e2);
  }
}
