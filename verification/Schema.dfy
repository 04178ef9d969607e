/**
 The message types of protocol/messages.proto.

 The generated code has one class per type, but only three templates: a message of
 scalar fields, a message that holds at most one submessage (a oneof, or the single
 field of SendMessageRequest), and a message with one repeated field. In every type the
 field numbers are 1, 2, 3, ... in declaration order, so a type is described by the list
 of its fields.
 */
module Schema {
  import opened Basics
  import opened Wire

  datatype Kind = UInt64 | Enum | Fixed | Text

  /** The switch table of a generated class. */
  datatype Shape =
    | Scalars(kinds: seq<Kind>)
    | Choice(members: seq<Shape>)
    | Repeated(elem: Shape)

  // Requests
  const REGISTER_REQUEST := Scalars([Text, Text, Text])
  const LOGIN_REQUEST := Scalars([Text, Text])
  const ALL_MY_CHATS_REQUEST := Scalars([])
  const ALL_MY_CONTACTS_REQUEST := Scalars([])
  const MESSAGES_REQUEST := Scalars([UInt64])
  const MESSAGE_TO_SEND := Scalars([UInt64, Text])
  const SEND_MESSAGE_REQUEST := Choice([MESSAGE_TO_SEND])
  const ADD_CONTACT_REQUEST := Scalars([Text])
  const CREATE_CHAT_REQUEST := Scalars([UInt64])
  const REQUEST := Choice([REGISTER_REQUEST, LOGIN_REQUEST, ALL_MY_CHATS_REQUEST, ALL_MY_CONTACTS_REQUEST,
                           MESSAGES_REQUEST, SEND_MESSAGE_REQUEST, ADD_CONTACT_REQUEST, CREATE_CHAT_REQUEST])

  // Responses
  const STATUS_RESPONSE := Scalars([Enum])
  const CHAT := Scalars([UInt64, Text])
  const CHATS_RESPONSE := Repeated(CHAT)
  const CONTACT := Scalars([UInt64, Text, Text])
  const CONTACTS_RESPONSE := Repeated(CONTACT)
  const MESSAGE_TO_RECIEVE := Scalars([UInt64, Text])
  const MESSAGES_RESPONSE := Repeated(MESSAGE_TO_RECIEVE)
  const LOGIN_RESPONSE := Choice([CONTACT])
  const RESPONSE := Choice([STATUS_RESPONSE, CHATS_RESPONSE, CONTACTS_RESPONSE, MESSAGES_RESPONSE, LOGIN_RESPONSE])

  const WRAPPED_MESSAGE := Choice([RESPONSE, REQUEST])
  const LENGTH_PREFIX := Scalars([Fixed])

  /** The number of the last field. */
  function FieldCount(t: Shape): nat {
    match t
    case Scalars(kinds) => |kinds|
    case Choice(members) => |members|
    case Repeated(_) => 1
  }

  predicate Declared(t: Shape, num: nat) {
    1 <= num <= FieldCount(t)
  }

  function WireTypeOfKind(k: Kind): nat {
    match k
    case UInt64 => VARINT
    case Enum => VARINT
    case Fixed => FIXED64
    case Text => LENGTH_DELIMITED
  }

  function WireTypeOf(t: Shape, num: nat): (w: nat)
    requires Declared(t, num)
    ensures w <= 2
  {
    match t
    case Scalars(kinds) => WireTypeOfKind(kinds[num - 1])
    case _ => LENGTH_DELIMITED
  }

  /** The constant the generated switch compares a tag with. */
  function TagOf(t: Shape, num: nat): nat
    requires Declared(t, num)
  {
    8 * num + WireTypeOf(t, num)
  }

  /** The tags the generated switches and ExpectTag calls name, type by type. */
  lemma TagsOfProtocol()
    ensures TagOf(REGISTER_REQUEST, 1) == 10 && TagOf(REGISTER_REQUEST, 2) == 18 && TagOf(REGISTER_REQUEST, 3) == 26
    ensures TagOf(LOGIN_REQUEST, 1) == 10 && TagOf(LOGIN_REQUEST, 2) == 18
    ensures TagOf(MESSAGES_REQUEST, 1) == 8 && TagOf(CREATE_CHAT_REQUEST, 1) == 8 && TagOf(ADD_CONTACT_REQUEST, 1) == 10
    ensures TagOf(MESSAGE_TO_SEND, 1) == 8 && TagOf(MESSAGE_TO_SEND, 2) == 18 && TagOf(SEND_MESSAGE_REQUEST, 1) == 10
    ensures TagOf(REQUEST, 1) == 10 && TagOf(REQUEST, 2) == 18 && TagOf(REQUEST, 3) == 26 && TagOf(REQUEST, 4) == 34
    ensures TagOf(REQUEST, 5) == 42 && TagOf(REQUEST, 6) == 50 && TagOf(REQUEST, 7) == 58 && TagOf(REQUEST, 8) == 66
    ensures TagOf(STATUS_RESPONSE, 1) == 8 && TagOf(CHAT, 1) == 8 && TagOf(CHAT, 2) == 18
    ensures TagOf(CONTACT, 1) == 8 && TagOf(CONTACT, 2) == 18 && TagOf(CONTACT, 3) == 26
    ensures TagOf(MESSAGE_TO_RECIEVE, 1) == 8 && TagOf(MESSAGE_TO_RECIEVE, 2) == 18
    ensures TagOf(CHATS_RESPONSE, 1) == 10 && TagOf(CONTACTS_RESPONSE, 1) == 10 && TagOf(MESSAGES_RESPONSE, 1) == 10
    ensures TagOf(LOGIN_RESPONSE, 1) == 10
    ensures TagOf(RESPONSE, 1) == 10 && TagOf(RESPONSE, 2) == 18 && TagOf(RESPONSE, 3) == 26
    ensures TagOf(RESPONSE, 4) == 34 && TagOf(RESPONSE, 5) == 42
    ensures TagOf(WRAPPED_MESSAGE, 1) == 10 && TagOf(WRAPPED_MESSAGE, 2) == 18 && TagOf(LENGTH_PREFIX, 1) == 9
  {
  }

  const MAX_ONE_BYTE_FIELD: nat := 15

  /** Field numbers are at most 15, so that every tag takes one byte. */
  predicate Compact(t: Shape) {
    && FieldCount(t) <= MAX_ONE_BYTE_FIELD
    && match t
       case Scalars(_) => true
       case Choice(members) => forall i | 0 <= i < |members| :: Compact(members[i])
       case Repeated(elem) => Compact(elem)
  }

  /** Every type of the protocol is compact. */
  lemma ProtocolIsCompact()
    ensures Compact(WRAPPED_MESSAGE) && Compact(LENGTH_PREFIX)
  {
    assert Compact(REQUEST) by { assert Compact(SEND_MESSAGE_REQUEST); }
    assert Compact(RESPONSE) by {
      assert Compact(CHATS_RESPONSE) && Compact(CONTACTS_RESPONSE) && Compact(MESSAGES_RESPONSE);
      assert Compact(LOGIN_RESPONSE);
    }
  }

  // ----- Message values -------------------------------------------------------------

  datatype Val = Num(n: int) | Str(s: Bytes)

  /** The value of a message. Its type says which alternative it takes. */
  datatype Msg =
    | Fields(vals: seq<Val>)
    | Unset
    | Set(num: nat, sub: Msg)
    | Many(subs: seq<Msg>)

  function DefaultVal(k: Kind): Val {
    if k.Text? then Str([]) else Num(0)
  }

  predicate ValidVal(k: Kind, v: Val) {
    match k
    case UInt64 => v.Num? && 0 <= v.n < TWO_64
    case Fixed => v.Num? && 0 <= v.n < TWO_64
    case Enum => v.Num? && -TWO_31 <= v.n < TWO_31
    case Text => v.Str? && Utf8(v.s)
  }

  predicate ValidVals(kinds: seq<Kind>, vals: seq<Val>) {
    |vals| == |kinds| && forall i | 0 <= i < |vals| :: ValidVal(kinds[i], vals[i])
  }

  /** Well-typed values: numbers in range, strings valid UTF-8, at all depths. */
  predicate Valid(t: Shape, m: Msg)
    decreases m
  {
    match t
    case Scalars(kinds) => m.Fields? && ValidVals(kinds, m.vals)
    case Choice(members) => m.Unset? || (m.Set? && 1 <= m.num <= |members| && Valid(members[m.num - 1], m.sub))
    case Repeated(elem) => m.Many? && forall x | x in m.subs :: Valid(elem, x)
  }

  lemma ScalarsHold(kinds: seq<Kind>, m: Msg)
    requires Valid(Scalars(kinds), m)
    ensures m.Fields? && ValidVals(kinds, m.vals)
  {
  }

  lemma ChoiceHolds(members: seq<Shape>, m: Msg)
    requires Valid(Choice(members), m) && !m.Unset?
    ensures m.Set? && 1 <= m.num <= |members| && Valid(members[m.num - 1], m.sub)
  {
  }

  lemma RepeatedHolds(elem: Shape, m: Msg)
    requires Valid(Repeated(elem), m)
    ensures m.Many? && forall x | x in m.subs :: Valid(elem, x)
  {
  }

  lemma SetIsValid(members: seq<Shape>, num: nat, sub: Msg)
    requires 1 <= num <= |members| && Valid(members[num - 1], sub)
    ensures Valid(Choice(members), Set(num, sub))
  {
  }

  lemma ManyIsValid(elem: Shape, subs: seq<Msg>)
    requires forall x | x in subs :: Valid(elem, x)
    ensures Valid(Repeated(elem), Many(subs))
  {
  }

  /** What the constructor and Clear() leave. */
  function Default(t: Shape): (m: Msg)
    ensures Valid(t, m)
  {
    match t
    case Scalars(kinds) => Fields(seq(|kinds|, i requires 0 <= i < |kinds| => DefaultVal(kinds[i])))
    case Choice(_) => Unset
    case Repeated(_) => Many([])
  }
}
