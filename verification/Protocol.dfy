/**
  Message types, their commands and the table of message definitions
  (src/infra/network/protocol.hpp, protocol.cpp, messages.hpp).
 */
module Protocol {
  import opened Common
  import opened Codec
  import opened Payloads

  const MAX_MESSAGE_LENGTH := 4 * 1024 * 1024
  const HEADER_LENGTH := 24
  const COMMAND_LENGTH := 12

  datatype MessageType =
    | Version | VerAck | Inv | Addr | Ping | Pong | GetHeaders | Headers
    | GetAddr | MemPool | Reject | GetData | NotFound | MissingOrUnknown
  {
    /** The enumerator's name, from which the command label is derived. */
    function Name(): string {
      match this
      case Version => "kVersion"
      case VerAck => "kVerAck"
      case Inv => "kInv"
      case Addr => "kAddr"
      case Ping => "kPing"
      case Pong => "kPong"
      case GetHeaders => "kGetHeaders"
      case Headers => "kHeaders"
      case GetAddr => "kGetAddr"
      case MemPool => "kMemPool"
      case Reject => "kReject"
      case GetData => "kGetData"
      case NotFound => "kNotFound"
      case MissingOrUnknown => "kMissingOrUnknown"
    }
  }

  datatype Definition = Definition(
    command: string,
    kind: MessageType,
    vectorized: bool := false,
    maxItems: Option<nat> := None,
    itemSize: Option<nat> := None,
    minLength: Option<nat> := None,
    maxLength: Option<nat> := None,
    minVersion: Option<int> := None,
    maxVersion: Option<int> := None
  )

  const INV_ITEM_SIZE := 36
  const ADDR_ITEM_SIZE := 30
  const HASH_SIZE := 32

  function InventoryDefinition(command: string, kind: MessageType): Definition {
    Definition(command, kind, true, Some(MAX_INV_ITEMS), Some(INV_ITEM_SIZE), Some(1 + INV_ITEM_SIZE),
               Some(CompactSize(MAX_INV_ITEMS) + MAX_INV_ITEMS * INV_ITEM_SIZE))
  }

  function Sized(command: string, kind: MessageType, least: nat, most: nat): Definition {
    Definition(command, kind, minLength := Some(least), maxLength := Some(most))
  }

  function DefinitionOf(t: MessageType): Definition {
    match t
    case Version => Sized("version", Version, 46, 1024)
    case VerAck => Sized("verack", VerAck, 0, 0)
    case Inv => InventoryDefinition("inv", Inv)
    case Addr =>
      Definition("addr", Addr, true, Some(MAX_ADDR_ITEMS), Some(ADDR_ITEM_SIZE), Some(1 + ADDR_ITEM_SIZE),
                 Some(CompactSize(MAX_ADDR_ITEMS) + MAX_ADDR_ITEMS * ADDR_ITEM_SIZE))
    case Ping => Sized("ping", Ping, 8, 8)
    case Pong => Sized("pong", Pong, 8, 8)
    case GetHeaders =>
      Definition("getheaders", GetHeaders, true, Some(MAX_GETHEADERS_ITEMS), Some(HASH_SIZE),
                 Some(4 + 1 + HASH_SIZE * 2),
                   Some(4 + CompactSize(MAX_GETHEADERS_ITEMS) + HASH_SIZE * (MAX_GETHEADERS_ITEMS + 1)))
    case Headers => Definition("headers", Headers, true, Some(MAX_HEADERS_ITEMS), None, Some(1 + 140))
    case GetAddr => Sized("getaddr", GetAddr, 0, 0)
    case MemPool => Sized("mempool", MemPool, 0, 0)
    case Reject => Sized("reject", Reject, 3, 12 + 1 + 256 + 32)
    case GetData => InventoryDefinition("getdata", GetData)
    case NotFound => InventoryDefinition("notfound", NotFound)
    case MissingOrUnknown => Definition("", MissingOrUnknown)
  }

  function Ascii(c: char): Byte {
    if c as int < 0x100 then c as int else 0x3F
  }

  function ToLower(c: char): char {
    if 'A' <= c <= 'Z' then (c as int + 32) as char else c
  }

  function Text(s: string): Bytes {
    seq(|s|, i requires 0 <= i < |s| => Ascii(s[i]))
  }

  function Lower(s: string): string {
    seq(|s|, i requires 0 <= i < |s| => ToLower(s[i]))
  }

  /** Zero-padded or cut to the width of the command field. */
  function Padded(b: Bytes): (r: Bytes)
    ensures |r| == COMMAND_LENGTH
  {
    if |b| >= COMMAND_LENGTH then b[..COMMAND_LENGTH] else b + seq(COMMAND_LENGTH - |b|, i => 0)
  }

  /** `get_command_from_message_type` */
  function Label(t: MessageType): (r: Bytes)
    ensures |r| == COMMAND_LENGTH
  {
    Padded(Text(Lower(t.Name()[1..])))
  }

  /** The command field that `set_type` fills in from the definition table. */
  function CommandField(t: MessageType): (r: Bytes)
    ensures |r| == COMMAND_LENGTH
  {
    Padded(Text(DefinitionOf(t).command))
  }

  function KnownTypes(): seq<MessageType> {
    [Version, VerAck, Inv, Addr, Ping, Pong, GetHeaders, Headers, GetAddr, MemPool, Reject, GetData, NotFound]
  }

  /** The first type of `types` whose label is `command`. */
  function FirstMatch(command: Bytes, types: seq<MessageType>): MessageType {
    if types == [] then MissingOrUnknown
    else if Label(types[0]) == command then types[0]
    else FirstMatch(command, types[1..])
  }

  /** `message_type_from_command` */
  function TypeOfCommand(command: Bytes): MessageType {
    FirstMatch(command, KnownTypes())
  }

  /** The same lookup as the loop of the original. */
  method LookUpType(command: Bytes) returns (t: MessageType)
    ensures t == TypeOfCommand(command)
  {
    hide Label;
    var types := KnownTypes();
    var i := 0;
    while i < |types|
      invariant 0 <= i <= |types|
      invariant TypeOfCommand(command) == FirstMatch(command, types[i..])
    {
      if Label(types[i]) == command { return types[i]; }
      assert types[i..][1..] == types[i + 1..];
      i := i + 1;
    }
    return MissingOrUnknown;
  }

  /** The bytes of a command that tell it from all others. */
  function Key(t: MessageType): (int, int, int) {
    match t
    case Version => (0x76, 0x65, 0x73)
    case VerAck => (0x76, 0x65, 0x61)
    case Inv => (0x69, 0x6E, 0)
    case Addr => (0x61, 0x64, 0x72)
    case Ping => (0x70, 0x69, 0x67)
    case Pong => (0x70, 0x6F, 0x67)
    case GetHeaders => (0x67, 0x65, 0x68)
    case Headers => (0x68, 0x65, 0x64)
    case GetAddr => (0x67, 0x65, 0x61)
    case MemPool => (0x6D, 0x65, 0x70)
    case Reject => (0x72, 0x65, 0x65)
    case GetData => (0x67, 0x65, 0x64)
    case NotFound => (0x6E, 0x6F, 0x66)
    case MissingOrUnknown => (0x6D, 0x69, 0x73)
  }

  lemma LowerIs(s: string, r: string)
    requires |s| == |r| && forall i | 0 <= i < |s| :: ToLower(s[i]) == r[i]
    ensures Lower(s) == r
  {
  }

  lemma LowerNames(t: MessageType)
    requires t != MissingOrUnknown
    ensures Lower(t.Name()[1..]) == DefinitionOf(t).command
  {
    match t
    case Version => LowerIs("Version", "version"); assert t.Name()[1..] == "Version";
    case VerAck => LowerIs("VerAck", "verack"); assert t.Name()[1..] == "VerAck";
    case Inv => LowerIs("Inv", "inv"); assert t.Name()[1..] == "Inv";
    case Addr => LowerIs("Addr", "addr"); assert t.Name()[1..] == "Addr";
    case Ping => LowerIs("Ping", "ping"); assert t.Name()[1..] == "Ping";
    case Pong => LowerIs("Pong", "pong"); assert t.Name()[1..] == "Pong";
    case GetHeaders => LowerIs("GetHeaders", "getheaders"); assert t.Name()[1..] == "GetHeaders";
    case Headers => LowerIs("Headers", "headers"); assert t.Name()[1..] == "Headers";
    case GetAddr => LowerIs("GetAddr", "getaddr"); assert t.Name()[1..] == "GetAddr";
    case MemPool => LowerIs("MemPool", "mempool"); assert t.Name()[1..] == "MemPool";
    case Reject => LowerIs("Reject", "reject"); assert t.Name()[1..] == "Reject";
    case GetData => LowerIs("GetData", "getdata"); assert t.Name()[1..] == "GetData";
    case NotFound => LowerIs("NotFound", "notfound"); assert t.Name()[1..] == "NotFound";
  }

  lemma LabelKey(t: MessageType)
    ensures (Label(t)[0], Label(t)[1], Label(t)[3]) == Key(t)
  {
    var name := t.Name();
    var low := Lower(name[1..]);
    assert low[0] == ToLower(name[1]) && low[1] == ToLower(name[2]) && low[2] == ToLower(name[3]);
    assert t != Inv ==> low[3] == ToLower(name[4]);
  }

  /** The definition table and the enum-derived labels agree for all 13 types. */
  lemma CommandsAgree(t: MessageType)
    requires t != MissingOrUnknown
    ensures CommandField(t) == Label(t)
  {
    LowerNames(t);
  }

  lemma {:induction false} FirstMatchFinds(t: MessageType, types: seq<MessageType>)
    requires t in types
    ensures FirstMatch(Label(t), types) == t
    decreases |types|
  {
    LabelKey(t);
    LabelKey(types[0]);
    if types[0] != t {
      FirstMatchFinds(t, types[1..]);
    }
  }

  /** A known type is recognised from the command field that `set_type` writes for it. */
  lemma CommandRoundTrip(t: MessageType)
    requires t != MissingOrUnknown
    ensures TypeOfCommand(CommandField(t)) == t
  {
    CommandsAgree(t);
    assert t in KnownTypes();
    FirstMatchFinds(t, KnownTypes());
  }

  /** What the framing relies on: a vectorized payload is never too short to hold its offset and count. */
  lemma VectorMinimum(t: MessageType)
    requires DefinitionOf(t).vectorized
    ensures DefinitionOf(t).minLength.Some?
    ensures DefinitionOf(t).minLength.value >= 9 + if t == GetHeaders then 4 else 0
    ensures DefinitionOf(t).kind == t
  {
  }
}
