/**
 What stands on the wire, byte by byte: every packet and the length prefix written out with
 the tags of protocol/messages.proto, and proved to be what the serializers produce.
 */
module WireFormat {
  import opened Basics
  import opened Wire
  import opened Schema
  import opened Codec
  import opened Protocol
  import opened Framing

  // ----- Fields ---------------------------------------------------------------------

  /** A string, left out when empty. */
  function TextField(tag: Byte, s: Bytes): Bytes {
    if s == [] then [] else [tag] + (Varint(|s|) + s)
  }

  /** A uint64 or an enum, left out when 0; a negative enum value takes 64 bits. */
  function NumField(tag: Byte, n: int): Bytes
    requires -TWO_31 <= n
  {
    if n == 0 then [] else [tag] + Varint(if n < 0 then TWO_64 + n else n)
  }

  /** A submessage, present even when empty. */
  function SubField(tag: Byte, body: Bytes): Bytes {
    [tag] + (Varint(|body|) + body)
  }

  // ----- Packets --------------------------------------------------------------------

  function RequestWire(r: Request): Bytes {
    match r
    case NoRequest => []
    case Register(name, email, password) =>
      SubField(10, TextField(10, name) + (TextField(18, email) + TextField(26, password)))
    case Login(email, password) => SubField(18, TextField(10, email) + TextField(18, password))
    case GetChats => SubField(26, [])
    case GetContacts => SubField(34, [])
    case GetMessages(chatId) => SubField(42, NumField(8, chatId))
    case SendMesg(chatId, text) => SubField(50, SubField(10, NumField(8, chatId) + TextField(18, text)))
    case AddContact(email) => SubField(58, TextField(10, email))
    case CreateChat(friendId) => SubField(66, NumField(8, friendId))
  }

  function ContactWire(c: ContactInfo): Bytes {
    NumField(8, c.userId) + (TextField(18, c.name) + TextField(26, c.email))
  }

  function ChatsWire(chats: seq<ChatInfo>): Bytes {
    if chats == [] then []
    else SubField(10, NumField(8, chats[0].chatId) + TextField(18, chats[0].title)) + ChatsWire(chats[1..])
  }

  function ContactsWire(contacts: seq<ContactInfo>): Bytes {
    if contacts == [] then [] else SubField(10, ContactWire(contacts[0])) + ContactsWire(contacts[1..])
  }

  function MessagesWire(messages: seq<Mesg>): Bytes {
    if messages == [] then []
    else SubField(10, NumField(8, messages[0].senderId) + TextField(18, messages[0].text)) + MessagesWire(messages[1..])
  }

  function ResponseWire(r: Response): Bytes
    requires ValidResponse(r)
  {
    match r
    case NoResponse => []
    case Status(result) => SubField(10, NumField(8, result))
    case Chats(chats) => SubField(18, ChatsWire(chats))
    case Contacts(contacts) => SubField(26, ContactsWire(contacts))
    case Messages(messages) => SubField(34, MessagesWire(messages))
    case LoginResult(profile) =>
      SubField(42, if profile.None? then [] else SubField(10, ContactWire(profile.value)))
  }

  // ----- They are what is serialized ------------------------------------------------

  lemma TextIsWritten(num: nat, s: Bytes)
    requires 1 <= num <= MAX_ONE_BYTE_FIELD && Utf8(s)
    ensures EncodeVal(num, Text, Str(s)) == TextField(8 * num + 2, s)
  {
    hide Utf8;
  }

  lemma NumIsWritten(num: nat, n: int)
    requires 1 <= num <= MAX_ONE_BYTE_FIELD
    ensures 0 <= n < TWO_64 ==> EncodeVal(num, UInt64, Num(n)) == NumField(8 * num, n)
    ensures -TWO_31 <= n < TWO_31 ==> EncodeVal(num, Enum, Num(n)) == NumField(8 * num, n)
  {
  }

  lemma SubIsWritten(num: nat, t: Shape, m: Msg)
    requires 1 <= num <= MAX_ONE_BYTE_FIELD && Valid(t, m)
    ensures EncodeSub(num, t, m) == SubField(8 * num + 2, Encode(t, m))
  {
    hide Encode, Valid;
  }

  lemma OneField(k: Kind, v: Val)
    requires ValidVal(k, v)
    ensures Valid(Scalars([k]), Fields([v])) && Encode(Scalars([k]), Fields([v])) == EncodeVal(1, k, v)
  {
    hide ValidVal, EncodeVal;
    assert EncodeVals([k], [v], 1) == [];
  }

  lemma TwoFields(k: Kind, v: Val, k': Kind, v': Val)
    requires ValidVal(k, v) && ValidVal(k', v')
    ensures Valid(Scalars([k, k']), Fields([v, v']))
    ensures Encode(Scalars([k, k']), Fields([v, v'])) == EncodeVal(1, k, v) + EncodeVal(2, k', v')
  {
    hide ValidVal, EncodeVal;
    assert EncodeVals([k, k'], [v, v'], 2) == [];
    assert EncodeVals([k, k'], [v, v'], 1) == EncodeVal(2, k', v');
  }

  lemma ThreeFields(k: Kind, v: Val, k': Kind, v': Val, k'': Kind, v'': Val)
    requires ValidVal(k, v) && ValidVal(k', v') && ValidVal(k'', v'')
    ensures Valid(Scalars([k, k', k'']), Fields([v, v', v'']))
    ensures Encode(Scalars([k, k', k'']), Fields([v, v', v''])) ==
            EncodeVal(1, k, v) + (EncodeVal(2, k', v') + EncodeVal(3, k'', v''))
  {
    hide ValidVal, EncodeVal;
    var kinds, vals := [k, k', k''], [v, v', v''];
    assert EncodeVals(kinds, vals, 3) == [];
    assert EncodeVals(kinds, vals, 2) == EncodeVal(3, k'', v'');
    assert EncodeVals(kinds, vals, 1) == EncodeVal(2, k', v') + EncodeVal(3, k'', v'');
  }

  lemma NumAndText(n: U64, s: Bytes)
    requires Utf8(s)
    ensures Valid(Scalars([UInt64, Text]), Fields([Num(n), Str(s)]))
    ensures Encode(Scalars([UInt64, Text]), Fields([Num(n), Str(s)])) == NumField(8, n) + TextField(18, s)
  {
    hide Utf8, Encode, Valid, EncodeVal, NumField, TextField;
    TwoFields(UInt64, Num(n), Text, Str(s));
    NumIsWritten(1, n);
    TextIsWritten(2, s);
  }

  lemma ContactOnTheWire(c: ContactInfo)
    requires ValidContact(c)
    ensures Valid(CONTACT, ContactMsg(c)) && Encode(CONTACT, ContactMsg(c)) == ContactWire(c)
  {
    hide Utf8, Encode, Valid, EncodeVal, NumField, TextField;
    ThreeFields(UInt64, Num(c.userId), Text, Str(c.name), Text, Str(c.email));
    NumIsWritten(1, c.userId);
    TextIsWritten(2, c.name);
    TextIsWritten(3, c.email);
  }

  /** A message with its oneof set is the submessage behind the tag of its member. */
  lemma MemberIsWritten(members: seq<Shape>, num: nat, sub: Msg)
    requires 1 <= num <= |members| <= MAX_ONE_BYTE_FIELD && Valid(members[num - 1], sub)
    ensures Valid(Choice(members), Set(num, sub))
    ensures Encode(Choice(members), Set(num, sub)) == SubField(8 * num + 2, Encode(members[num - 1], sub))
  {
    SetIsValid(members, num, sub);
    SubIsWritten(num, members[num - 1], sub);
    hide Valid;
  }

  lemma RequestOnTheWire(r: Request)
    requires ValidRequest(r)
    ensures Valid(REQUEST, RequestMsg(r)) && Encode(REQUEST, RequestMsg(r)) == RequestWire(r)
  {
    RequestMsgReadsBack(r);
    if !r.NoRequest? {
      hide Utf8, Encode, Valid, EncodeVal, NumField, TextField, SubField;
      SubOnTheWire(r);
      MemberIsWritten(REQUEST.members, RequestMsg(r).num, RequestMsg(r).sub);
    }
  }

  /** The member of the oneof, without its tag and length. */
  lemma SubOnTheWire(r: Request)
    requires ValidRequest(r) && !r.NoRequest?
    ensures var m := RequestMsg(r);
            && Valid(REQUEST.members[m.num - 1], m.sub)
            && RequestWire(r) == SubField(8 * m.num + 2, Encode(REQUEST.members[m.num - 1], m.sub))
  {
    hide Utf8, Encode, Valid, EncodeVal, NumField, TextField, SubField;
    match r
    case Register(name, email, password) =>
      ThreeFields(Text, Str(name), Text, Str(email), Text, Str(password));
      TextIsWritten(1, name);
      TextIsWritten(2, email);
      TextIsWritten(3, password);
    case Login(email, password) =>
      TwoFields(Text, Str(email), Text, Str(password));
      TextIsWritten(1, email);
      TextIsWritten(2, password);
    case GetChats => NoFields();
    case GetContacts => NoFields();
    case GetMessages(chatId) =>
      OneField(UInt64, Num(chatId));
      NumIsWritten(1, chatId);
    case SendMesg(chatId, text) =>
      NumAndText(chatId, text);
      MemberIsWritten([MESSAGE_TO_SEND], 1, Fields([Num(chatId), Str(text)]));
    case AddContact(email) =>
      OneField(Text, Str(email));
      TextIsWritten(1, email);
    case CreateChat(friendId) =>
      OneField(UInt64, Num(friendId));
      NumIsWritten(1, friendId);
  }

  lemma NoFields()
    ensures Valid(Scalars([]), Fields([])) && Encode(Scalars([]), Fields([])) == []
  {
  }

  lemma {:induction false} ChatsOnTheWire(chats: seq<ChatInfo>, subs: seq<Msg>)
    requires |subs| == |chats| && forall i | 0 <= i < |chats| :: subs[i] == ChatMsg(chats[i]) && Utf8(chats[i].title)
    ensures Valid(CHATS_RESPONSE, Many(subs)) && Encode(CHATS_RESPONSE, Many(subs)) == ChatsWire(chats)
  {
    hide Utf8, NumField, TextField, SubField, EncodeVal, EncodeVals;
    if chats != [] {
      ChatsOnTheWire(chats[1..], subs[1..]);
      NumAndText(chats[0].chatId, chats[0].title);
      SubIsWritten(1, CHAT, subs[0]);
      MoreElements(CHAT, subs);
    }
  }

  lemma {:induction false} ContactsOnTheWire(contacts: seq<ContactInfo>, subs: seq<Msg>)
    requires |subs| == |contacts| && forall i | 0 <= i < |contacts| :: subs[i] == ContactMsg(contacts[i]) && ValidContact(contacts[i])
    ensures Valid(CONTACTS_RESPONSE, Many(subs)) && Encode(CONTACTS_RESPONSE, Many(subs)) == ContactsWire(contacts)
  {
    hide Utf8, ValidContact, ContactWire, SubField, EncodeVal, EncodeVals;
    if contacts != [] {
      ContactsOnTheWire(contacts[1..], subs[1..]);
      ContactOnTheWire(contacts[0]);
      SubIsWritten(1, CONTACT, subs[0]);
      MoreElements(CONTACT, subs);
    }
  }

  lemma {:induction false} MessagesOnTheWire(messages: seq<Mesg>, subs: seq<Msg>)
    requires |subs| == |messages| && forall i | 0 <= i < |messages| :: subs[i] == MesgMsg(messages[i]) && Utf8(messages[i].text)
    ensures Valid(MESSAGES_RESPONSE, Many(subs)) && Encode(MESSAGES_RESPONSE, Many(subs)) == MessagesWire(messages)
  {
    hide Utf8, NumField, TextField, SubField, EncodeVal, EncodeVals;
    if messages != [] {
      MessagesOnTheWire(messages[1..], subs[1..]);
      NumAndText(messages[0].senderId, messages[0].text);
      SubIsWritten(1, MESSAGE_TO_RECIEVE, subs[0]);
      MoreElements(MESSAGE_TO_RECIEVE, subs);
    }
  }

  lemma MoreElements(elem: Shape, subs: seq<Msg>)
    requires subs != [] && Valid(elem, subs[0]) && Valid(Repeated(elem), Many(subs[1..]))
    ensures Valid(Repeated(elem), Many(subs))
    ensures Encode(Repeated(elem), Many(subs)) == EncodeSub(1, elem, subs[0]) + Encode(Repeated(elem), Many(subs[1..]))
  {
    RepeatedHolds(elem, Many(subs[1..]));
    assert forall x :: x in subs <==> x == subs[0] || x in subs[1..];
  }

  lemma ResponseOnTheWire(r: Response)
    requires ValidResponse(r)
    ensures Valid(RESPONSE, ResponseMsg(r)) && Encode(RESPONSE, ResponseMsg(r)) == ResponseWire(r)
  {
    ResponseMsgReadsBack(r);
    if !r.NoResponse? {
      hide Utf8, Encode, Valid, EncodeVal, NumField, TextField, SubField;
      AnswerOnTheWire(r);
      MemberIsWritten(RESPONSE.members, ResponseMsg(r).num, ResponseMsg(r).sub);
    }
  }

  lemma AnswerOnTheWire(r: Response)
    requires ValidResponse(r) && !r.NoResponse?
    ensures var m := ResponseMsg(r);
            && Valid(RESPONSE.members[m.num - 1], m.sub)
            && ResponseWire(r) == SubField(8 * m.num + 2, Encode(RESPONSE.members[m.num - 1], m.sub))
  {
    hide Utf8, ValidContact, Encode, Valid, EncodeVal, NumField, TextField, SubField, ContactWire, ChatsWire, ContactsWire,
      MessagesWire;
    match r
    case Status(result) =>
      OneField(Enum, Num(result));
      NumIsWritten(1, result);
    case Chats(chats) => ChatsOnTheWire(chats, ResponseMsg(r).sub.subs);
    case Contacts(contacts) => ContactsOnTheWire(contacts, ResponseMsg(r).sub.subs);
    case Messages(messages) => MessagesOnTheWire(messages, ResponseMsg(r).sub.subs);
    case LoginResult(profile) =>
      if profile.Some? {
        ContactOnTheWire(profile.value);
        MemberIsWritten([CONTACT], 1, ContactMsg(profile.value));
      } else {
        NoProfile();
      }
  }

  lemma NoProfile()
    ensures Valid(LOGIN_RESPONSE, Unset) && Encode(LOGIN_RESPONSE, Unset) == []
  {
  }

  /** Every packet on the wire. */
  lemma PacketOnTheWire(p: Packet)
    requires ValidPacket(p) && !p.NoPacket?
    ensures PacketBytes(p) == if p.ARequest? then SubField(18, RequestWire(p.request)) else SubField(10, ResponseWire(p.response))
  {
    PacketMsgReadsBack(p);
    hide Utf8, Encode, Valid, SubField, RequestMsg, ResponseMsg, RequestWire, ResponseWire;
    if p.ARequest? {
      RequestOnTheWire(p.request);
      MemberIsWritten(WRAPPED_MESSAGE.members, 2, RequestMsg(p.request));
    } else {
      ResponseOnTheWire(p.response);
      MemberIsWritten(WRAPPED_MESSAGE.members, 1, ResponseMsg(p.response));
    }
  }

  /** The prefix: tag 9 and the length, least significant byte first. */
  lemma PrefixOnTheWire(length: U64)
    requires length != 0
    ensures Prefix(length) == [9, length % 256, length / 0x100 % 256, length / 0x1_0000 % 256, length / 0x100_0000 % 256,
                               length / 0x1_0000_0000 % 256, length / 0x100_0000_0000 % 256,
                               length / 0x1_0000_0000_0000 % 256, length / 0x100_0000_0000_0000 % 256]
  {
    OneField(Fixed, Num(length));
    hide Encode;
    FixedIsWritten(length);
    Fixed64Bytes(length);
  }

  lemma FixedIsWritten(length: U64)
    requires length != 0
    ensures EncodeVal(1, Fixed, Num(length)) == [9] + Fixed64(length)
  {
    hide LittleEndian;
  }

  /** The two answers that only report success. */
  lemma StatusOnTheWire()
    ensures PacketBytes(AResponse(Status(ACCEPTED))) == [10, 2, 10, 0]
    ensures PacketBytes(AResponse(Status(REJECTED))) == [10, 4, 10, 2, 8, 1]
  {
    hide PacketBytes;
    PacketOnTheWire(AResponse(Status(ACCEPTED)));
    PacketOnTheWire(AResponse(Status(REJECTED)));
    assert ResponseWire(Status(REJECTED)) == [10, 2, 8, 1];
  }
}
