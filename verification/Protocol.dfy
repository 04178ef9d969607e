/**
 The packets client and server exchange, and their form as WrappedMessage values: which
 oneof members and fields the factories and jobs set, and which ones they read.
 */
module Protocol {
  import opened Basics
  import opened Wire
  import opened Schema
  import opened Codec
  import opened CodecLaws

  datatype ContactInfo = ContactInfo(userId: U64, name: Bytes, email: Bytes)
  datatype ChatInfo = ChatInfo(chatId: U64, title: Bytes)
  datatype Mesg = Mesg(senderId: U64, text: Bytes)

  datatype Request =
    | NoRequest
    | Register(name: Bytes, email: Bytes, password: Bytes)
    | Login(email: Bytes, password: Bytes)
    | GetChats
    | GetContacts
    | GetMessages(chatId: U64)
    | SendMesg(chatId: U64, text: Bytes)
    | AddContact(email: Bytes)
    | CreateChat(friendId: U64)

  /** `NoResponse` is a Response with no member set: the answer to a client that should
      have logged in first. */
  datatype Response =
    | NoResponse
    | Status(result: int)
    | Chats(chats: seq<ChatInfo>)
    | Contacts(contacts: seq<ContactInfo>)
    | Messages(messages: seq<Mesg>)
    | LoginResult(profile: Option<ContactInfo>)

  datatype Packet = NoPacket | AResponse(response: Response) | ARequest(request: Request)

  const ACCEPTED: int := 0
  const REJECTED: int := 1

  // ----- Packets that can be encoded ------------------------------------------------

  predicate ValidContact(c: ContactInfo) { Utf8(c.name) && Utf8(c.email) }

  predicate ValidRequest(r: Request) {
    match r
    case Register(name, email, password) => Utf8(name) && Utf8(email) && Utf8(password)
    case Login(email, password) => Utf8(email) && Utf8(password)
    case SendMesg(_, text) => Utf8(text)
    case AddContact(email) => Utf8(email)
    case _ => true
  }

  predicate ValidResponse(r: Response) {
    match r
    case Status(result) => -TWO_31 <= result < TWO_31
    case Chats(chats) => forall c | c in chats :: Utf8(c.title)
    case Contacts(contacts) => forall c | c in contacts :: ValidContact(c)
    case Messages(messages) => forall m | m in messages :: Utf8(m.text)
    case LoginResult(profile) => profile.Some? ==> ValidContact(profile.value)
    case NoResponse => true
  }

  predicate ValidPacket(p: Packet) {
    match p
    case NoPacket => true
    case AResponse(r) => ValidResponse(r)
    case ARequest(r) => ValidRequest(r)
  }

  // ----- Packets as messages --------------------------------------------------------

  function ContactMsg(c: ContactInfo): Msg { Fields([Num(c.userId), Str(c.name), Str(c.email)]) }
  function ChatMsg(c: ChatInfo): Msg { Fields([Num(c.chatId), Str(c.title)]) }
  function MesgMsg(m: Mesg): Msg { Fields([Num(m.senderId), Str(m.text)]) }

  function MsgContact(m: Msg): (c: ContactInfo)
    requires Valid(CONTACT, m)
    ensures ValidContact(c)
  {
    ScalarsHold([UInt64, Text, Text], m);
    ContactInfo(m.vals[0].n, m.vals[1].s, m.vals[2].s)
  }

  function MsgChat(m: Msg): (c: ChatInfo)
    requires Valid(CHAT, m)
    ensures Utf8(c.title)
  {
    ScalarsHold([UInt64, Text], m);
    ChatInfo(m.vals[0].n, m.vals[1].s)
  }

  function MsgMesg(m: Msg): (r: Mesg)
    requires Valid(MESSAGE_TO_RECIEVE, m)
    ensures Utf8(r.text)
  {
    ScalarsHold([UInt64, Text], m);
    Mesg(m.vals[0].n, m.vals[1].s)
  }

  function RequestMsg(r: Request): Msg {
    match r
    case NoRequest => Unset
    case Register(name, email, password) => Set(1, Fields([Str(name), Str(email), Str(password)]))
    case Login(email, password) => Set(2, Fields([Str(email), Str(password)]))
    case GetChats => Set(3, Fields([]))
    case GetContacts => Set(4, Fields([]))
    case GetMessages(chatId) => Set(5, Fields([Num(chatId)]))
    case SendMesg(chatId, text) => Set(6, Set(1, Fields([Num(chatId), Str(text)])))
    case AddContact(email) => Set(7, Fields([Str(email)]))
    case CreateChat(friendId) => Set(8, Fields([Num(friendId)]))
  }

  /** A SendMessageRequest without its message reads as the default message. */
  function MsgRequest(m: Msg): (r: Request)
    requires Valid(REQUEST, m)
    ensures ValidRequest(r)
  {
    if m.Unset? then NoRequest
    else
      ChoiceHolds(REQUEST.members, m);
      if m.num == 1 then
        ScalarsHold([Text, Text, Text], m.sub);
        Register(m.sub.vals[0].s, m.sub.vals[1].s, m.sub.vals[2].s)
      else if m.num == 2 then
        ScalarsHold([Text, Text], m.sub);
        Login(m.sub.vals[0].s, m.sub.vals[1].s)
      else if m.num == 3 then GetChats
      else if m.num == 4 then GetContacts
      else if m.num == 5 then
        ScalarsHold([UInt64], m.sub);
        GetMessages(m.sub.vals[0].n)
      else if m.num == 6 then
        MsgSendMesg(m.sub)
      else if m.num == 7 then
        ScalarsHold([Text], m.sub);
        AddContact(m.sub.vals[0].s)
      else
        ScalarsHold([UInt64], m.sub);
        CreateChat(m.sub.vals[0].n)
  }

  function MsgSendMesg(m: Msg): (r: Request)
    requires Valid(SEND_MESSAGE_REQUEST, m)
    ensures ValidRequest(r) && r.SendMesg?
  {
    var mesg := Current(m, 1, MESSAGE_TO_SEND);
    ScalarsHold([UInt64, Text], mesg);
    SendMesg(mesg.vals[0].n, mesg.vals[1].s)
  }

  function ResponseMsg(r: Response): Msg {
    match r
    case NoResponse => Unset
    case Status(result) => Set(1, Fields([Num(result)]))
    case Chats(chats) => Set(2, Many(seq(|chats|, i requires 0 <= i < |chats| => ChatMsg(chats[i]))))
    case Contacts(contacts) => Set(3, Many(seq(|contacts|, i requires 0 <= i < |contacts| => ContactMsg(contacts[i]))))
    case Messages(messages) => Set(4, Many(seq(|messages|, i requires 0 <= i < |messages| => MesgMsg(messages[i]))))
    case LoginResult(profile) => Set(5, if profile.None? then Unset else Set(1, ContactMsg(profile.value)))
  }

  function MsgResponse(m: Msg): (r: Response)
    requires Valid(RESPONSE, m)
    ensures ValidResponse(r)
  {
    if m.Unset? then NoResponse
    else
      ChoiceHolds(RESPONSE.members, m);
      if m.num == 1 then
        ScalarsHold([Enum], m.sub);
        Status(m.sub.vals[0].n)
      else if m.num == 2 then
        RepeatedHolds(CHAT, m.sub);
        Chats(seq(|m.sub.subs|, i requires 0 <= i < |m.sub.subs| => MsgChat(m.sub.subs[i])))
      else if m.num == 3 then
        RepeatedHolds(CONTACT, m.sub);
        Contacts(seq(|m.sub.subs|, i requires 0 <= i < |m.sub.subs| => MsgContact(m.sub.subs[i])))
      else if m.num == 4 then
        RepeatedHolds(MESSAGE_TO_RECIEVE, m.sub);
        Messages(seq(|m.sub.subs|, i requires 0 <= i < |m.sub.subs| => MsgMesg(m.sub.subs[i])))
      else
        LoginResult(MsgProfile(m.sub))
  }

  function MsgProfile(m: Msg): (r: Option<ContactInfo>)
    requires Valid(LOGIN_RESPONSE, m)
    ensures r.Some? ==> ValidContact(r.value)
  {
    if m.Unset? then None
    else
      ChoiceHolds([CONTACT], m);
      Some(MsgContact(m.sub))
  }

  function PacketMsg(p: Packet): Msg {
    match p
    case NoPacket => Unset
    case AResponse(r) => Set(1, ResponseMsg(r))
    case ARequest(r) => Set(2, RequestMsg(r))
  }

  function MsgPacket(m: Msg): (p: Packet)
    requires Valid(WRAPPED_MESSAGE, m)
    ensures ValidPacket(p)
  {
    if m.Unset? then NoPacket
    else if m.num == 1 then AResponse(MsgResponse(m.sub))
    else ARequest(MsgRequest(m.sub))
  }

  lemma RequestMsgReadsBack(r: Request)
    requires ValidRequest(r)
    ensures Valid(REQUEST, RequestMsg(r)) && MsgRequest(RequestMsg(r)) == r
  {
    hide Utf8;
    if r.SendMesg? {
      assert Valid(SEND_MESSAGE_REQUEST, RequestMsg(r).sub);
    }
  }

  lemma ContactMsgReadsBack(c: ContactInfo)
    requires ValidContact(c)
    ensures Valid(CONTACT, ContactMsg(c)) && MsgContact(ContactMsg(c)) == c
  {
    hide Utf8;
  }

  lemma ChatsMsgReadsBack(r: Response)
    requires r.Chats? && ValidResponse(r)
    ensures Valid(CHATS_RESPONSE, ResponseMsg(r).sub) && MsgResponse(Set(2, ResponseMsg(r).sub)) == r
  {
    hide Utf8;
    var subs := ResponseMsg(r).sub.subs;
    ManyIsValid(CHAT, subs);
    assert forall i | 0 <= i < |subs| :: MsgChat(subs[i]) == r.chats[i];
  }

  lemma ContactsMsgReadsBack(r: Response)
    requires r.Contacts? && ValidResponse(r)
    ensures Valid(CONTACTS_RESPONSE, ResponseMsg(r).sub) && MsgResponse(Set(3, ResponseMsg(r).sub)) == r
  {
    hide Utf8, ValidContact;
    var subs := ResponseMsg(r).sub.subs;
    forall i | 0 <= i < |subs|
      ensures Valid(CONTACT, subs[i]) && MsgContact(subs[i]) == r.contacts[i]
    {
      ContactMsgReadsBack(r.contacts[i]);
    }
    ManyIsValid(CONTACT, subs);
  }

  lemma MessagesMsgReadsBack(r: Response)
    requires r.Messages? && ValidResponse(r)
    ensures Valid(MESSAGES_RESPONSE, ResponseMsg(r).sub) && MsgResponse(Set(4, ResponseMsg(r).sub)) == r
  {
    hide Utf8;
    var subs := ResponseMsg(r).sub.subs;
    ManyIsValid(MESSAGE_TO_RECIEVE, subs);
    assert forall i | 0 <= i < |subs| :: MsgMesg(subs[i]) == r.messages[i];
  }

  lemma ResponseMsgReadsBack(r: Response)
    requires ValidResponse(r)
    ensures Valid(RESPONSE, ResponseMsg(r)) && MsgResponse(ResponseMsg(r)) == r
  {
    hide Utf8;
    match r
    case Chats(_) => ChatsMsgReadsBack(r);
    case Contacts(_) => ContactsMsgReadsBack(r);
    case Messages(_) => MessagesMsgReadsBack(r);
    case LoginResult(_) => assert Valid(LOGIN_RESPONSE, ResponseMsg(r).sub);
    case _ =>
  }

  /** A packet survives its form as a message. */
  lemma PacketMsgReadsBack(p: Packet)
    requires ValidPacket(p)
    ensures Valid(WRAPPED_MESSAGE, PacketMsg(p)) && MsgPacket(PacketMsg(p)) == p
  {
    match p
    case NoPacket =>
    case AResponse(r) => ResponseMsgReadsBack(r);
    case ARequest(r) => RequestMsgReadsBack(r);
  }

  // ----- Packets as bytes -----------------------------------------------------------

  function PacketBytes(p: Packet): Bytes
    requires ValidPacket(p)
  {
    PacketMsgReadsBack(p);
    Encode(WRAPPED_MESSAGE, PacketMsg(p))
  }

  function ReadPacket(s: Bytes): (p: Option<Packet>)
    ensures p.Some? ==> ValidPacket(p.value)
  {
    match Decode(WRAPPED_MESSAGE, s)
    case None => None
    case Some(m) => Some(MsgPacket(m))
  }

  /** Small enough for ByteSize() to be a C++ int. */
  predicate Sendable(p: Packet) {
    ValidPacket(p) && !p.NoPacket? && |PacketBytes(p)| < TWO_31
  }

  /** The packet that is parsed is the packet that was serialized. */
  lemma PacketRoundTrip(p: Packet)
    requires ValidPacket(p) && |PacketBytes(p)| < TWO_31
    ensures ReadPacket(PacketBytes(p)) == Some(p)
  {
    hide Encode, Decode, Valid;
    ProtocolIsCompact();
    PacketMsgReadsBack(p);
    SizeIsLength(WRAPPED_MESSAGE, PacketMsg(p));
    RoundTrip(WRAPPED_MESSAGE, PacketMsg(p));
  }

  /** A packet with its oneof set takes at least two bytes, so no length prefix is 0. */
  lemma PacketNotEmpty(p: Packet)
    requires ValidPacket(p) && !p.NoPacket?
    ensures |PacketBytes(p)| >= 2
  {
    PacketMsgReadsBack(p);
    var m := PacketMsg(p);
    var t := if p.AResponse? then RESPONSE else REQUEST;
    assert PacketBytes(p) == EncodeSub(m.num, t, m.sub);
    VarintLength(|Encode(t, m.sub)|);
    VarintLength(8 * m.num + LENGTH_DELIMITED);
  }

  /** A request to send that carries no message is one with chat 0 and no text. */
  lemma SendWithoutMessage()
    ensures Valid(REQUEST, Set(6, Unset)) && MsgRequest(Set(6, Unset)) == SendMesg(0, [])
  {
    SetIsValid(REQUEST.members, 6, Unset);
  }
}
