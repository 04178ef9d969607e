/**
 The tables of server/tests/gen_schema.sql and what each storage transaction does to them.

 A transaction is one atomic step. Whether it commits, and which unused ids the serial
 columns of Client and Chat supply, is decided outside the model and given as a `Tx`; a
 transaction that does not commit changes nothing. A query returns its rows in any order. SHA-256 is a parameter.
 */
module Relations {
  import opened Basics
  import opened Wire
  import opened Protocol

  type Hash = Bytes -> Bytes

  datatype Client = Client(name: Bytes, email: Bytes, passwordHash: Bytes)
  datatype Link = Link(clientId: U64, friendId: U64)
  datatype Member = Member(clientId: U64, chatId: U64, title: Bytes)
  datatype Posted = Posted(senderId: U64, chatId: U64, text: Bytes)

  datatype Db = Db(
    clients: map<U64, Client>,
    contacts: seq<Link>,
    chats: set<U64>,
    members: seq<Member>,
    messages: seq<Posted>)

  const EMPTY_DB := Db(map[], [], {}, [], [])

  datatype Tx = Tx(commits: bool, clientId: U64, chatId: U64)

  /** The two serial columns count independently: a chat may get the number of a client. */
  predicate Fresh(db: Db, tx: Tx) {
    tx.commits ==> tx.clientId !in db.clients && tx.chatId !in db.chats
  }

  // ----- Queries --------------------------------------------------------------------

  predicate HasEmail(db: Db, email: Bytes, id: U64) {
    id in db.clients && db.clients[id].email == email
  }

  ghost predicate EmailTaken(db: Db, email: Bytes) {
    exists id :: HasEmail(db, email, id)
  }

  predicate IsMember(members: seq<Member>, client: U64, chat: U64) {
    exists i | 0 <= i < |members| :: members[i].clientId == client && members[i].chatId == chat
  }

  ghost predicate HaveCommonChat(db: Db, a: U64, b: U64) {
    exists chat: U64 :: IsMember(db.members, a, chat) && IsMember(db.members, b, chat)
  }

  /** SELECT chat_id, title FROM ClientToChat WHERE client_id = client */
  function ChatsOf(members: seq<Member>, client: U64): seq<ChatInfo> {
    if members == [] then []
    else
      var m := members[|members| - 1];
      ChatsOf(members[..|members| - 1], client) +
      if m.clientId == client then [ChatInfo(m.chatId, m.title)] else []
  }

  /** SELECT sender_id, mesg FROM Message WHERE chat_id = chat */
  function MessagesIn(messages: seq<Posted>, chat: U64): seq<Mesg> {
    if messages == [] then []
    else
      var m := messages[|messages| - 1];
      MessagesIn(messages[..|messages| - 1], chat) +
      if m.chatId == chat then [Mesg(m.senderId, m.text)] else []
  }

  /** The friends of a client, joined with Client. */
  function ContactsOf(clients: map<U64, Client>, contacts: seq<Link>, client: U64): seq<ContactInfo> {
    if contacts == [] then []
    else
      var l := contacts[|contacts| - 1];
      ContactsOf(clients, contacts[..|contacts| - 1], client) +
      if l.clientId == client && l.friendId in clients
      then [ContactInfo(l.friendId, clients[l.friendId].name, clients[l.friendId].email)]
      else []
  }

  /** The membership rows of one chat. */
  function RowsOf(members: seq<Member>, chat: U64): seq<Member> {
    if members == [] then []
    else
      var m := members[|members| - 1];
      RowsOf(members[..|members| - 1], chat) + if m.chatId == chat then [m] else []
  }

  // ----- Transactions ---------------------------------------------------------------

  /** The outcome of a transaction that reports success as a bool. */
  datatype Done = Done(db: Db, ok: bool)

  ghost function Registration(sha: Hash, db: Db, name: Bytes, email: Bytes, password: Bytes, tx: Tx): Done {
    if !tx.commits || EmailTaken(db, email) then Done(db, false)
    else Done(db.(clients := db.clients[tx.clientId := Client(name, email, sha(password))]), true)
  }

  /** The account that logs in, if any. */
  ghost predicate CanLogin(sha: Hash, db: Db, email: Bytes, password: Bytes, id: U64) {
    HasEmail(db, email, id) && db.clients[id].passwordHash == sha(password)
  }

  ghost function SendMessage(db: Db, sender: U64, chat: U64, text: Bytes, tx: Tx): Done {
    if !tx.commits || !IsMember(db.members, sender, chat) then Done(db, false)
    else Done(db.(messages := db.messages + [Posted(sender, chat, text)]), true)
  }

  /** The rows to insert are referenced, new, and different from each other. */
  predicate CanLink(db: Db, user: U64, friend: U64) {
    && user in db.clients && friend in db.clients && user != friend
    && Link(user, friend) !in db.contacts && Link(friend, user) !in db.contacts
  }

  ghost function AddContact(db: Db, user: U64, email: Bytes, tx: Tx): Done {
    if !tx.commits || !EmailTaken(db, email) then Done(db, false)
    else
      var friend :| HasEmail(db, email, friend);
      if !CanLink(db, user, friend) then Done(db, false)
      else Done(db.(contacts := db.contacts + [Link(user, friend), Link(friend, user)]), true)
  }

  /** "Chat with " and a name. */
  function Title(name: Bytes): Bytes {
    [67, 104, 97, 116, 32, 119, 105, 116, 104, 32] + name
  }

  ghost function CreateChat(db: Db, user: U64, userName: Bytes, friend: U64, tx: Tx): Done {
    if !tx.commits || HaveCommonChat(db, user, friend) || user !in db.clients || friend !in db.clients
    then Done(db, false)
    else
      var users := Member(user, tx.chatId, Title(db.clients[friend].name));
      var friends := Member(friend, tx.chatId, Title(userName));
      Done(db.(chats := db.chats + {tx.chatId}, members := db.members + [users, friends]), true)
  }

  // ----- What every transaction keeps -----------------------------------------------

  ghost predicate EmailsUnique(db: Db) {
    forall email, a, b | HasEmail(db, email, a) && HasEmail(db, email, b) :: a == b
  }

  /** Contacts are mutual, between two different clients, and recorded once. */
  predicate ContactsMutual(db: Db) {
    && (forall l | l in db.contacts ::
          l.clientId in db.clients && l.friendId in db.clients && l.clientId != l.friendId
          && Link(l.friendId, l.clientId) in db.contacts)
    && (forall i, j | 0 <= i < j < |db.contacts| :: db.contacts[i] != db.contacts[j])
  }

  ghost predicate SendersAreMembers(db: Db) {
    forall m | m in db.messages :: IsMember(db.members, m.senderId, m.chatId)
  }

  /** The two rows of a chat between `a` and `b`, each titled with the other's name. */
  function PairRows(db: Db, chat: U64, a: U64, b: U64): seq<Member>
    requires a in db.clients && b in db.clients
  {
    [Member(a, chat, Title(db.clients[b].name)), Member(b, chat, Title(db.clients[a].name))]
  }

  ghost predicate IsPair(db: Db, chat: U64, a: U64, b: U64) {
    a in db.clients && b in db.clients && RowsOf(db.members, chat) == PairRows(db, chat, a, b)
  }

  ghost predicate ChatsArePairs(db: Db) {
    && (forall chat | chat in db.chats :: exists a, b :: IsPair(db, chat, a, b))
    && (forall m | m in db.members :: m.chatId in db.chats && m.clientId in db.clients)
  }

  ghost predicate OneChatPerPair(db: Db) {
    forall u, v, c: U64, d: U64 |
      && u != v
      && IsMember(db.members, u, c) && IsMember(db.members, v, c)
      && IsMember(db.members, u, d) && IsMember(db.members, v, d) :: c == d
  }

  /** All stored text is valid UTF-8. */
  predicate TextValid(db: Db) {
    && (forall id | id in db.clients :: Utf8(db.clients[id].name) && Utf8(db.clients[id].email))
    && (forall m | m in db.members :: Utf8(m.title))
    && (forall m | m in db.messages :: Utf8(m.text))
  }

  ghost predicate Consistent(db: Db) {
    && EmailsUnique(db) && ContactsMutual(db) && SendersAreMembers(db)
    && ChatsArePairs(db) && OneChatPerPair(db) && TextValid(db)
  }

  lemma EmptyConsistent()
    ensures Consistent(EMPTY_DB)
  {
  }

  lemma MoreMembers(members: seq<Member>, more: seq<Member>, client: U64, chat: U64)
    ensures IsMember(members + more, client, chat) <==> IsMember(members, client, chat) || IsMember(more, client, chat)
  {
    var all := members + more;
    if IsMember(members, client, chat) {
      var i :| 0 <= i < |members| && members[i].clientId == client && members[i].chatId == chat;
      assert all[i] == members[i];
    }
    if IsMember(more, client, chat) {
      var i :| 0 <= i < |more| && more[i].clientId == client && more[i].chatId == chat;
      assert all[|members| + i] == more[i];
    }
  }

  lemma {:induction false} RowsOfMore(members: seq<Member>, more: seq<Member>, chat: U64)
    ensures RowsOf(members + more, chat) == RowsOf(members, chat) + RowsOf(more, chat)
    decreases |more|
  {
    if more == [] {
      assert members + more == members;
    } else {
      var n := |more| - 1;
      assert (members + more)[..|members| + n] == members + more[..n];
      RowsOfMore(members, more[..n], chat);
    }
  }

  lemma {:induction false} NoRows(members: seq<Member>, chat: U64)
    requires forall m | m in members :: m.chatId != chat
    ensures RowsOf(members, chat) == []
    decreases |members|
  {
    if members != [] {
      NoRows(members[..|members| - 1], chat);
    }
  }

  /** A transaction that changes neither memberships nor names keeps the pairs. */
  lemma PairsUnchanged(db: Db, db': Db)
    requires ChatsArePairs(db) && db'.chats == db.chats && db'.members == db.members
    requires forall id | id in db.clients :: id in db'.clients && db'.clients[id].name == db.clients[id].name
    ensures ChatsArePairs(db')
  {
    hide RowsOf, Title;
    forall chat | chat in db'.chats
      ensures exists a, b :: IsPair(db', chat, a, b)
    {
      var a, b :| IsPair(db, chat, a, b);
      assert IsPair(db', chat, a, b);
    }
  }

  lemma RegistrationKeepsEmails(sha: Hash, db: Db, name: Bytes, email: Bytes, password: Bytes, tx: Tx)
    requires EmailsUnique(db) && Fresh(db, tx)
    ensures EmailsUnique(Registration(sha, db, name, email, password, tx).db)
  {
    var db' := Registration(sha, db, name, email, password, tx).db;
    if db' != db {
      forall e, a, b | HasEmail(db', e, a) && HasEmail(db', e, b)
        ensures a == b
      {
        assert a != tx.clientId ==> HasEmail(db, e, a);
        assert b != tx.clientId ==> HasEmail(db, e, b);
      }
    }
  }

  lemma RegistrationConsistent(sha: Hash, db: Db, name: Bytes, email: Bytes, password: Bytes, tx: Tx)
    requires Consistent(db) && Fresh(db, tx) && Utf8(name) && Utf8(email)
    ensures Consistent(Registration(sha, db, name, email, password, tx).db)
  {
    hide EmailsUnique, ChatsArePairs, OneChatPerPair, SendersAreMembers, RowsOf, Title, Utf8, IsMember, EmailTaken;
    var db' := Registration(sha, db, name, email, password, tx).db;
    RegistrationKeepsEmails(sha, db, name, email, password, tx);
    PairsUnchanged(db, db');
    MembersUnchanged(db, db');
  }

  /** Two users of the same tables of members share the same chats. */
  lemma MembersUnchanged(db: Db, db': Db)
    requires db'.members == db.members
    ensures OneChatPerPair(db) ==> OneChatPerPair(db')
    ensures SendersAreMembers(db) && db'.messages == db.messages ==> SendersAreMembers(db')
  {
    hide IsMember;
  }

  lemma EmailsUnchanged(db: Db, db': Db)
    requires EmailsUnique(db) && db'.clients == db.clients
    ensures EmailsUnique(db')
  {
    assert forall e, a | HasEmail(db', e, a) :: HasEmail(db, e, a);
  }

  lemma SendMessageConsistent(db: Db, sender: U64, chat: U64, text: Bytes, tx: Tx)
    requires Consistent(db) && Utf8(text)
    ensures Consistent(SendMessage(db, sender, chat, text, tx).db)
  {
    hide EmailsUnique, ChatsArePairs, OneChatPerPair, RowsOf, Title, Utf8, IsMember;
    var db' := SendMessage(db, sender, chat, text, tx).db;
    EmailsUnchanged(db, db');
    PairsUnchanged(db, db');
    MembersUnchanged(db, db');
  }

  lemma AddContactKeepsMutual(db: Db, user: U64, friend: U64)
    requires ContactsMutual(db) && CanLink(db, user, friend)
    ensures ContactsMutual(db.(contacts := db.contacts + [Link(user, friend), Link(friend, user)]))
  {
    var contacts := db.contacts + [Link(user, friend), Link(friend, user)];
    assert contacts[|db.contacts|] == Link(user, friend) && contacts[|db.contacts| + 1] == Link(friend, user);
    assert forall l :: l in contacts <==> l in db.contacts || l == Link(user, friend) || l == Link(friend, user);
  }

  lemma AddContactConsistent(db: Db, user: U64, email: Bytes, tx: Tx)
    requires Consistent(db)
    ensures Consistent(AddContact(db, user, email, tx).db)
  {
    hide ContactsMutual, CanLink, EmailsUnique, ChatsArePairs, OneChatPerPair, SendersAreMembers, RowsOf, Title, Utf8, IsMember;
    var db' := AddContact(db, user, email, tx).db;
    EmailsUnchanged(db, db');
    PairsUnchanged(db, db');
    MembersUnchanged(db, db');
    if db' != db {
      var friend :| CanLink(db, user, friend) &&
                    db' == db.(contacts := db.contacts + [Link(user, friend), Link(friend, user)]);
      AddContactKeepsMutual(db, user, friend);
    }
  }

  lemma {:induction false} AsciiIsText(s: Bytes)
    requires forall i | 0 <= i < |s| :: s[i] < 128
    ensures Utf8(s)
    decreases |s|
  {
    if s != [] {
      assert CharLength(s) == 1;
      AsciiIsText(s[1..]);
    }
  }

  lemma TitleIsText(name: Bytes)
    requires Utf8(name)
    ensures Utf8(Title(name))
  {
    var chatWith: Bytes := [67, 104, 97, 116, 32, 119, 105, 116, 104, 32];
    AsciiIsText(chatWith);
    Utf8Concat(chatWith, name);
  }

  lemma RowsOfTwo(a: Member, b: Member)
    requires a.chatId == b.chatId
    ensures RowsOf([a, b], a.chatId) == [a, b]
  {
    assert [a, b][..1] == [a] && [a][..0] == [];
    assert RowsOf([a], a.chatId) == [a];
  }

  lemma CreateChatKeepsPairs(db: Db, user: U64, userName: Bytes, friend: U64, tx: Tx)
    requires ChatsArePairs(db) && Fresh(db, tx)
    requires user in db.clients ==> userName == db.clients[user].name
    ensures ChatsArePairs(CreateChat(db, user, userName, friend, tx).db)
  {
    hide Title, RowsOf, HaveCommonChat;
    var db' := CreateChat(db, user, userName, friend, tx).db;
    if db' != db {
      var more := db'.members[|db.members|..];
      assert db'.members == db.members + more;
      forall chat | chat in db'.chats
        ensures exists a, b :: IsPair(db', chat, a, b)
      {
        RowsOfMore(db.members, more, chat);
        if chat == tx.chatId {
          NoRows(db.members, chat);
          RowsOfTwo(more[0], more[1]);
          assert more == [more[0], more[1]];
          assert IsPair(db', chat, user, friend);
        } else {
          var a, b :| IsPair(db, chat, a, b);
          NoRows(more, chat);
          assert IsPair(db', chat, a, b);
        }
      }
    }
  }

  lemma CreateChatKeepsOnePerPair(db: Db, user: U64, userName: Bytes, friend: U64, tx: Tx)
    requires OneChatPerPair(db) && ChatsArePairs(db) && Fresh(db, tx)
    ensures OneChatPerPair(CreateChat(db, user, userName, friend, tx).db)
  {
    hide Title, IsPair;
    var db' := CreateChat(db, user, userName, friend, tx).db;
    if db' != db {
      var more := db'.members[|db.members|..];
      assert db'.members == db.members + more;
      forall u, c: U64
        ensures IsMember(db'.members, u, c) <==>
                if c == tx.chatId then u == user || u == friend else IsMember(db.members, u, c)
      {
        MoreMembers(db.members, more, u, c);
        if c == tx.chatId && (u == user || u == friend) {
          assert more[if u == user then 0 else 1].clientId == u;
        }
      }
    }
  }

  lemma CreateChatKeepsSenders(db: Db, user: U64, userName: Bytes, friend: U64, tx: Tx)
    requires SendersAreMembers(db)
    ensures SendersAreMembers(CreateChat(db, user, userName, friend, tx).db)
  {
    var db' := CreateChat(db, user, userName, friend, tx).db;
    if db' != db {
      var more := db'.members[|db.members|..];
      assert db'.members == db.members + more;
      forall m | m in db'.messages
        ensures IsMember(db'.members, m.senderId, m.chatId)
      {
        MoreMembers(db.members, more, m.senderId, m.chatId);
      }
    }
  }

  lemma CreateChatKeepsText(db: Db, user: U64, userName: Bytes, friend: U64, tx: Tx)
    requires TextValid(db) && Utf8(userName)
    ensures TextValid(CreateChat(db, user, userName, friend, tx).db)
  {
    var db' := CreateChat(db, user, userName, friend, tx).db;
    hide Utf8, Title, HaveCommonChat;
    TitleIsText(userName);
    if db' != db {
      TitleIsText(db.clients[friend].name);
    }
  }

  lemma CreateChatConsistent(db: Db, user: U64, userName: Bytes, friend: U64, tx: Tx)
    requires Consistent(db) && Fresh(db, tx) && Utf8(userName)
    requires user in db.clients ==> userName == db.clients[user].name
    ensures Consistent(CreateChat(db, user, userName, friend, tx).db)
  {
    hide ChatsArePairs, OneChatPerPair, SendersAreMembers, TextValid, HaveCommonChat, Utf8, Title;
    CreateChatKeepsPairs(db, user, userName, friend, tx);
    CreateChatKeepsOnePerPair(db, user, userName, friend, tx);
    CreateChatKeepsSenders(db, user, userName, friend, tx);
    CreateChatKeepsText(db, user, userName, friend, tx);
    var db' := CreateChat(db, user, userName, friend, tx).db;
    assert forall e, a | HasEmail(db', e, a) :: HasEmail(db, e, a);
  }

  // ----- What two users share -------------------------------------------------------

  lemma {:induction false} MemberHasRow(members: seq<Member>, i: nat)
    requires i < |members|
    ensures members[i] in RowsOf(members, members[i].chatId)
    decreases |members|
  {
    if i < |members| - 1 {
      MemberHasRow(members[..|members| - 1], i);
    }
  }

  /** Two different users in one chat: its rows are exactly theirs, each titled with the
      other's registered name, and they share no other chat. */
  lemma SharedChat(db: Db, u: U64, v: U64, chat: U64, other: U64)
    requires Consistent(db) && u != v
    requires IsMember(db.members, u, chat) && IsMember(db.members, v, chat)
    ensures u in db.clients && v in db.clients
    ensures RowsOf(db.members, chat) == PairRows(db, chat, u, v) || RowsOf(db.members, chat) == PairRows(db, chat, v, u)
    ensures IsMember(db.members, u, other) && IsMember(db.members, v, other) ==> other == chat
  {
    hide RowsOf, Title, EmailsUnique, ContactsMutual, SendersAreMembers, TextValid;
    var i :| 0 <= i < |db.members| && db.members[i].clientId == u && db.members[i].chatId == chat;
    var j :| 0 <= j < |db.members| && db.members[j].clientId == v && db.members[j].chatId == chat;
    MemberHasRow(db.members, i);
    MemberHasRow(db.members, j);
    assert db.members[i] in db.members && db.members[j] in db.members;
    var a, b :| IsPair(db, chat, a, b);
  }

  // ----- Answers of the queries -----------------------------------------------------

  lemma {:induction false} ChatsOfText(members: seq<Member>, client: U64)
    requires forall m | m in members :: Utf8(m.title)
    ensures forall c | c in ChatsOf(members, client) :: Utf8(c.title)
    decreases |members|
  {
    if members != [] { ChatsOfText(members[..|members| - 1], client); }
  }

  lemma {:induction false} MessagesInText(messages: seq<Posted>, chat: U64)
    requires forall m | m in messages :: Utf8(m.text)
    ensures forall m | m in MessagesIn(messages, chat) :: Utf8(m.text)
    decreases |messages|
  {
    if messages != [] { MessagesInText(messages[..|messages| - 1], chat); }
  }

  lemma {:induction false} ContactsOfText(clients: map<U64, Client>, contacts: seq<Link>, client: U64)
    requires forall id | id in clients :: Utf8(clients[id].name) && Utf8(clients[id].email)
    ensures forall c | c in ContactsOf(clients, contacts, client) :: ValidContact(c)
    decreases |contacts|
  {
    if contacts != [] { ContactsOfText(clients, contacts[..|contacts| - 1], client); }
  }

  /** get_chats yields a row for every membership of the client, and no other. */
  lemma {:induction false} ChatsCount(members: seq<Member>, client: U64, c: ChatInfo)
    ensures multiset(ChatsOf(members, client))[c] == multiset(members)[Member(client, c.chatId, c.title)]
    decreases |members|
  {
    if members != [] {
      var n := |members| - 1;
      ChatsCount(members[..n], client, c);
      assert members == members[..n] + [members[n]];
    }
  }

  /** get_contacts yields each friend once, under the name and email of its Client row. */
  lemma {:induction false} ContactsCount(clients: map<U64, Client>, contacts: seq<Link>, client: U64, c: ContactInfo)
    requires forall i, j | 0 <= i < j < |contacts| :: contacts[i] != contacts[j]
    ensures multiset(ContactsOf(clients, contacts, client))[c] ==
            if && Link(client, c.userId) in contacts && c.userId in clients
               && clients[c.userId].name == c.name && clients[c.userId].email == c.email
            then 1 else 0
    decreases |contacts|
  {
    if contacts != [] {
      var n := |contacts| - 1;
      ContactsCount(clients, contacts[..n], client, c);
      assert contacts == contacts[..n] + [contacts[n]];
    }
  }

  /** A client is a member of the chats get_chats yields. */
  lemma {:induction false} MemberIffChat(members: seq<Member>, client: U64, chat: U64)
    ensures IsMember(members, client, chat) <==> exists title :: ChatInfo(chat, title) in ChatsOf(members, client)
    decreases |members|
  {
    if members != [] {
      var n := |members| - 1;
      var m := members[n];
      MemberIffChat(members[..n], client, chat);
      assert members[..n] + [m] == members;
      MoreMembers(members[..n], [m], client, chat);
      assert IsMember([m], client, chat) <==> m.clientId == client && m.chatId == chat;
      assert forall t :: ChatInfo(chat, t) in ChatsOf(members, client) <==>
                         || ChatInfo(chat, t) in ChatsOf(members[..n], client)
                         || (m.clientId == client && m.chatId == chat && m.title == t);
    }
  }

  lemma {:induction false} ChatsOfMore(members: seq<Member>, more: seq<Member>, client: U64)
    ensures ChatsOf(members + more, client) == ChatsOf(members, client) + ChatsOf(more, client)
    decreases |more|
  {
    if more == [] {
      assert members + more == members;
    } else {
      var n := |more| - 1;
      assert (members + more)[..|members| + n] == members + more[..n];
      ChatsOfMore(members, more[..n], client);
    }
  }

  /** The title says "Chat with " and the name. */
  lemma TitleSays(name: Bytes)
    ensures |Title(name)| == 10 + |name| && Title(name)[10..] == name
    ensures forall i | 0 <= i < 10 :: Title(name)[i] == "Chat with "[i] as int
  {
  }
}
