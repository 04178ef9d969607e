/**
 The server as a sequential machine: one request at a time, against the tables and the
 profile cached by the session that sends it. Module ServerProtocol proves that the
 concurrent server does nothing else.
 */
module ServerSpec {
  import opened Basics
  import opened Wire
  import opened Protocol
  import opened Relations

  /** The cached profile of a session; none before its first successful login. */
  type Who = Option<ContactInfo>

  // ----- One request ----------------------------------------------------------------

  ghost function AfterLogin(sha: Hash, db: Db, who: Who, email: Bytes, password: Bytes, tx: Tx): Who {
    if tx.commits && exists id :: CanLogin(sha, db, email, password, id) then
      var id :| CanLogin(sha, db, email, password, id);
      Some(ContactInfo(id, db.clients[id].name, email))
    else who
  }

  ghost predicate LoginSucceeds(sha: Hash, db: Db, email: Bytes, password: Bytes, tx: Tx) {
    tx.commits && exists id :: CanLogin(sha, db, email, password, id)
  }

  /** Only registration and login are served to a session that has not logged in. */
  predicate Served(who: Who, req: Request) {
    who.Some? || req.Register? || req.Login?
  }

  ghost function NextWho(sha: Hash, db: Db, who: Who, req: Request, tx: Tx): Who {
    if req.Login? then AfterLogin(sha, db, who, req.email, req.password, tx) else who
  }

  ghost function Transaction(sha: Hash, db: Db, who: Who, req: Request, tx: Tx): Done {
    if !Served(who, req) then Done(db, false)
    else
      match req
      case Register(name, email, password) => Registration(sha, db, name, email, password, tx)
      case SendMesg(chat, text) => SendMessage(db, who.value.userId, chat, text, tx)
      case AddContact(email) => Relations.AddContact(db, who.value.userId, email, tx)
      case CreateChat(friend) => Relations.CreateChat(db, who.value.userId, who.value.name, friend, tx)
      case _ => Done(db, false)
  }

  function StatusOf(ok: bool): Response {
    Status(if ok then ACCEPTED else REJECTED)
  }

  /** The responses the request may get: queries return their rows in any order, and no
      rows when the transaction fails. */
  ghost predicate Answers(sha: Hash, db: Db, who: Who, req: Request, tx: Tx, resp: Response) {
    if !Served(who, req) then resp == NoResponse
    else
      match req
      case NoRequest => false
      case Login(email, password) =>
        resp == LoginResult(if LoginSucceeds(sha, db, email, password, tx)
                            then AfterLogin(sha, db, who, email, password, tx) else None)
      case GetChats =>
        resp.Chats? && multiset(resp.chats) ==
                       if tx.commits then multiset(ChatsOf(db.members, who.value.userId)) else multiset{}
      case GetContacts =>
        resp.Contacts? && multiset(resp.contacts) ==
                          if tx.commits then multiset(ContactsOf(db.clients, db.contacts, who.value.userId)) else multiset{}
      case GetMessages(chat) =>
        resp.Messages? && multiset(resp.messages) ==
                          if tx.commits then multiset(MessagesIn(db.messages, chat)) else multiset{}
      case _ => resp == StatusOf(Transaction(sha, db, who, req, tx).ok)
  }

  // ----- Runs -----------------------------------------------------------------------

  /** A committed request: its session, the fate of its transaction, and its response. */
  datatype Entry = Entry(sid: nat, req: Request, tx: Tx, resp: Response)

  datatype World = World(db: Db, users: map<nat, ContactInfo>)

  function WhoIs(w: World, sid: nat): Who {
    if sid in w.users then Some(w.users[sid]) else None
  }

  function SetWho(users: map<nat, ContactInfo>, sid: nat, who: Who): map<nat, ContactInfo> {
    if who.Some? then users[sid := who.value] else users
  }

  ghost function Next(sha: Hash, w: World, e: Entry): World {
    var who := WhoIs(w, e.sid);
    World(Transaction(sha, w.db, who, e.req, e.tx).db,
          SetWho(w.users, e.sid, NextWho(sha, w.db, who, e.req, e.tx)))
  }

  ghost predicate LegalStep(sha: Hash, w: World, e: Entry) {
    && ValidRequest(e.req) && Fresh(w.db, e.tx)
    && Answers(sha, w.db, WhoIs(w, e.sid), e.req, e.tx, e.resp)
  }

  /** The world after the entries of `log`, from an empty database and no sessions. */
  ghost function After(sha: Hash, log: seq<Entry>): World {
    if log == [] then World(EMPTY_DB, map[])
    else Next(sha, After(sha, log[..|log| - 1]), log[|log| - 1])
  }

  ghost predicate Legal(sha: Hash, log: seq<Entry>) {
    log == [] || (Legal(sha, log[..|log| - 1]) && LegalStep(sha, After(sha, log[..|log| - 1]), log[|log| - 1]))
  }

  // ----- What every run keeps -------------------------------------------------------

  /** The cache of a session says what the Client row says. */
  predicate CachesTrue(w: World) {
    forall sid | sid in w.users ::
      var u := w.users[sid];
      u.userId in w.db.clients && w.db.clients[u.userId].name == u.name && w.db.clients[u.userId].email == u.email
  }

  ghost predicate Good(w: World) {
    Consistent(w.db) && CachesTrue(w)
  }

  lemma StepKeepsConsistent(sha: Hash, w: World, e: Entry)
    requires Good(w) && LegalStep(sha, w, e)
    ensures Consistent(Next(sha, w, e).db)
  {
    hide Consistent, Utf8, Registration, SendMessage, Relations.AddContact, Relations.CreateChat;
    var who := WhoIs(w, e.sid);
    if Served(who, e.req) {
      match e.req
      case Register(name, email, password) => RegistrationConsistent(sha, w.db, name, email, password, e.tx);
      case SendMesg(chat, text) => SendMessageConsistent(w.db, who.value.userId, chat, text, e.tx);
      case AddContact(email) => AddContactConsistent(w.db, who.value.userId, email, e.tx);
      case CreateChat(friend) =>
        NameIsText(w, e.sid);
        CreateChatConsistent(w.db, who.value.userId, who.value.name, friend, e.tx);
      case _ =>
    }
  }

  lemma NameIsText(w: World, sid: nat)
    requires Good(w) && sid in w.users
    ensures ValidContact(w.users[sid])
  {
    hide Utf8;
  }

  lemma StepKeepsCaches(sha: Hash, w: World, e: Entry)
    requires CachesTrue(w) && Fresh(w.db, e.tx)
    ensures CachesTrue(Next(sha, w, e))
  {
  }

  lemma {:induction false} RunsAreGood(sha: Hash, log: seq<Entry>)
    requires Legal(sha, log)
    ensures Good(After(sha, log))
    decreases |log|
  {
    hide Consistent, LegalStep, Next;
    if log == [] {
      EmptyConsistent();
    } else {
      var w, e := After(sha, log[..|log| - 1]), log[|log| - 1];
      RunsAreGood(sha, log[..|log| - 1]);
      StepKeepsConsistent(sha, w, e);
      assert Fresh(w.db, e.tx) by { LegalIsFresh(sha, w, e); }
      StepKeepsCaches(sha, w, e);
    }
  }

  lemma LegalIsFresh(sha: Hash, w: World, e: Entry)
    requires LegalStep(sha, w, e)
    ensures Fresh(w.db, e.tx)
  {
  }

  // ----- Login refines the history of registrations ---------------------------------

  /** Entry `i` registered this account and was accepted. */
  predicate Registered(log: seq<Entry>, i: nat, name: Bytes, email: Bytes, password: Bytes) {
    i < |log| && log[i].req == Register(name, email, password) && log[i].resp == Status(ACCEPTED)
  }

  predicate AcceptedRegister(e: Entry) {
    e.req.Register? && e.resp == Status(ACCEPTED)
  }

  lemma StepClients(sha: Hash, w: World, e: Entry)
    requires LegalStep(sha, w, e)
    ensures Next(sha, w, e).db.clients ==
            if AcceptedRegister(e)
            then w.db.clients[e.tx.clientId := Client(e.req.name, e.req.email, sha(e.req.password))]
            else w.db.clients
    ensures AcceptedRegister(e) ==> e.tx.clientId !in w.db.clients
  {
    hide Utf8, EmailTaken, HaveCommonChat, CanLink;
  }

  ghost predicate HasClient(db: Db, c: Client) {
    exists id :: id in db.clients && db.clients[id] == c
  }

  /** The Client table holds exactly the accepted registrations. */
  lemma {:induction false} ClientsAreRegistered(sha: Hash, log: seq<Entry>, name: Bytes, email: Bytes, hash: Bytes)
    requires Legal(sha, log)
    ensures HasClient(After(sha, log).db, Client(name, email, hash))
            <==> exists i: nat, password :: Registered(log, i, name, email, password) && sha(password) == hash
    decreases |log|
  {
    hide LegalStep, Next;
    if log != [] {
      var before, e, row := log[..|log| - 1], log[|log| - 1], Client(name, email, hash);
      var w, w' := After(sha, before), After(sha, log);
      ClientsAreRegistered(sha, before, name, email, hash);
      StepClients(sha, w, e);
      assert forall i: nat, p :: Registered(before, i, name, email, p) ==> Registered(log, i, name, email, p);
      assert forall i: nat, p :: Registered(log, i, name, email, p) && i < |before| ==> Registered(before, i, name, email, p);
      if HasClient(w.db, row) {
        var id :| id in w.db.clients && w.db.clients[id] == row;
        assert id in w'.db.clients && w'.db.clients[id] == row;
      }
      if AcceptedRegister(e) {
        assert Registered(log, |before|, e.req.name, e.req.email, e.req.password);
        assert e.tx.clientId in w'.db.clients;
      }
    }
  }

  /** A login succeeds exactly when an earlier accepted registration had this email and a
      password of the same hash. */
  lemma LoginRefinesHistory(sha: Hash, log: seq<Entry>, email: Bytes, password: Bytes, tx: Tx)
    requires Legal(sha, log)
    ensures LoginSucceeds(sha, After(sha, log).db, email, password, tx) <==>
            tx.commits && exists i: nat, name, p :: Registered(log, i, name, email, p) && sha(p) == sha(password)
  {
    hide Legal, After;
    var db := After(sha, log).db;
    forall name
      ensures HasClient(db, Client(name, email, sha(password))) <==>
              exists i: nat, p :: Registered(log, i, name, email, p) && sha(p) == sha(password)
    {
      ClientsAreRegistered(sha, log, name, email, sha(password));
    }
    if id :| CanLogin(sha, db, email, password, id) {
      assert db.clients[id] == Client(db.clients[id].name, email, sha(password));
    }
    if i: nat, name, p :| Registered(log, i, name, email, p) && sha(p) == sha(password) {
      var id :| id in db.clients && db.clients[id] == Client(name, email, sha(password));
      assert CanLogin(sha, db, email, password, id);
    }
  }

  /** The profile in the latest login response of a session that has one. */
  function LastProfile(log: seq<Entry>, sid: nat): Who {
    if log == [] then None
    else
      var e := log[|log| - 1];
      if e.sid == sid && e.resp.LoginResult? && e.resp.profile.Some? then e.resp.profile
      else LastProfile(log[..|log| - 1], sid)
  }

  /** A session's cache is the profile its latest successful login was answered with, and
      that is still the Client row. */
  lemma {:induction false} CacheIsLastLogin(sha: Hash, log: seq<Entry>, sid: nat)
    requires Legal(sha, log)
    ensures WhoIs(After(sha, log), sid) == LastProfile(log, sid)
    ensures LastProfile(log, sid).Some? ==>
              var u := LastProfile(log, sid).value;
              var clients := After(sha, log).db.clients;
              u.userId in clients && clients[u.userId].name == u.name && clients[u.userId].email == u.email
    decreases |log|
  {
    hide Consistent, Transaction;
    RunsAreGood(sha, log);
    if log != [] {
      CacheIsLastLogin(sha, log[..|log| - 1], sid);
      StepCache(sha, After(sha, log[..|log| - 1]), log[|log| - 1], sid);
    }
  }

  lemma StepCache(sha: Hash, w: World, e: Entry, sid: nat)
    requires LegalStep(sha, w, e)
    ensures WhoIs(Next(sha, w, e), sid) ==
            if e.sid == sid && e.resp.LoginResult? && e.resp.profile.Some? then e.resp.profile else WhoIs(w, sid)
  {
    hide CanLogin, Transaction, Utf8;
    if e.req.Register? || e.req.SendMesg? || e.req.AddContact? || e.req.CreateChat? {
      assert e.resp.Status? || e.resp.NoResponse?;
    }
  }

  // ----- Chats ----------------------------------------------------------------------

  /** After any run, two different users share at most one chat; its rows are exactly
      theirs, each titled with the other's registered name. */
  lemma ChatsAreUnique(sha: Hash, log: seq<Entry>, u: U64, v: U64, chat: U64, other: U64)
    requires Legal(sha, log) && u != v
    requires IsMember(After(sha, log).db.members, u, chat) && IsMember(After(sha, log).db.members, v, chat)
    ensures var db := After(sha, log).db;
            && u in db.clients && v in db.clients
            && (RowsOf(db.members, chat) == PairRows(db, chat, u, v) || RowsOf(db.members, chat) == PairRows(db, chat, v, u))
            && (IsMember(db.members, u, other) && IsMember(db.members, v, other) ==> other == chat)
  {
    hide After, Legal, Consistent, CachesTrue;
    RunsAreGood(sha, log);
    SharedChat(After(sha, log).db, u, v, chat, other);
  }

  // ----- Messages are conserved -----------------------------------------------------

  /** The sender and text of every accepted send to `chat`, in commit order. */
  ghost function Sent(sha: Hash, log: seq<Entry>, chat: U64): seq<Mesg> {
    if log == [] then []
    else
      var before, e := log[..|log| - 1], log[|log| - 1];
      var who := WhoIs(After(sha, before), e.sid);
      Sent(sha, before, chat) +
      if who.Some? && e.req.SendMesg? && e.req.chatId == chat && e.resp == Status(ACCEPTED)
      then [Mesg(who.value.userId, e.req.text)] else []
  }

  lemma {:induction false} MessagesAreSent(sha: Hash, log: seq<Entry>, chat: U64)
    requires Legal(sha, log)
    ensures MessagesIn(After(sha, log).db.messages, chat) == Sent(sha, log, chat)
    decreases |log|
  {
    if log != [] {
      var before, e := log[..|log| - 1], log[|log| - 1];
      MessagesAreSent(sha, before, chat);
      StepMessages(sha, After(sha, before), e, chat);
    }
  }

  lemma StepMessages(sha: Hash, w: World, e: Entry, chat: U64)
    requires LegalStep(sha, w, e)
    ensures MessagesIn(Next(sha, w, e).db.messages, chat) ==
            MessagesIn(w.db.messages, chat) +
            if WhoIs(w, e.sid).Some? && e.req.SendMesg? && e.req.chatId == chat && e.resp == Status(ACCEPTED)
            then [Mesg(WhoIs(w, e.sid).value.userId, e.req.text)] else []
  {
    hide Utf8, EmailTaken, HaveCommonChat, CanLink;
    var messages := Next(sha, w, e).db.messages;
    if messages != w.db.messages {
      assert messages[..|messages| - 1] == w.db.messages;
    }
  }

  /** get_messages returns, as a multiset, exactly what was accepted for the chat. */
  lemma GetMessagesConserves(sha: Hash, log: seq<Entry>, e: Entry)
    requires Legal(sha, log) && LegalStep(sha, After(sha, log), e) && e.req.GetMessages? && e.tx.commits
    requires WhoIs(After(sha, log), e.sid).Some?
    ensures e.resp.Messages? && multiset(e.resp.messages) == multiset(Sent(sha, log, e.req.chatId))
  {
    MessagesAreSent(sha, log, e.req.chatId);
  }

  /** A request that is not accepted changes no table. */
  lemma OnlyAcceptedChanges(sha: Hash, w: World, e: Entry)
    requires LegalStep(sha, w, e) && e.resp != Status(ACCEPTED)
    ensures Next(sha, w, e).db == w.db
  {
    hide Utf8;
  }

  /** Every stored message was sent by a member of its chat. */
  lemma SendersWereMembers(sha: Hash, log: seq<Entry>, m: Posted)
    requires Legal(sha, log) && m in After(sha, log).db.messages
    ensures IsMember(After(sha, log).db.members, m.senderId, m.chatId)
  {
    hide After, Legal;
    RunsAreGood(sha, log);
  }

  // ----- The kind of an answer, and that it can be encoded --------------------------

  /** The oneof member of the response to a request, given whether it is served. */
  predicate RightKind(served: bool, req: Request, resp: Response) {
    if !served then resp.NoResponse?
    else
      match req
      case NoRequest => false
      case Login(_, _) => resp.LoginResult?
      case GetChats => resp.Chats?
      case GetContacts => resp.Contacts?
      case GetMessages(_) => resp.Messages?
      case _ => resp == Status(ACCEPTED) || resp == Status(REJECTED)
  }

  lemma SameElements<T>(a: seq<T>, b: seq<T>)
    requires multiset(a) == multiset(b)
    ensures forall x :: x in a <==> x in b
  {
    assert forall x :: x in a <==> x in multiset(a);
    assert forall x :: x in b <==> x in multiset(b);
  }

  lemma ChatsEncodable(db: Db, client: U64, chats: seq<ChatInfo>, tx: Tx)
    requires TextValid(db)
    requires multiset(chats) == if tx.commits then multiset(ChatsOf(db.members, client)) else multiset{}
    ensures ValidResponse(Chats(chats))
  {
    hide Utf8;
    ChatsOfText(db.members, client);
    SameElements(chats, if tx.commits then ChatsOf(db.members, client) else []);
  }

  lemma ContactsEncodable(db: Db, client: U64, contacts: seq<ContactInfo>, tx: Tx)
    requires TextValid(db)
    requires multiset(contacts) == if tx.commits then multiset(ContactsOf(db.clients, db.contacts, client)) else multiset{}
    ensures ValidResponse(Contacts(contacts))
  {
    hide Utf8;
    ContactsOfText(db.clients, db.contacts, client);
    SameElements(contacts, if tx.commits then ContactsOf(db.clients, db.contacts, client) else []);
  }

  lemma MessagesEncodable(db: Db, chat: U64, messages: seq<Mesg>, tx: Tx)
    requires TextValid(db)
    requires multiset(messages) == if tx.commits then multiset(MessagesIn(db.messages, chat)) else multiset{}
    ensures ValidResponse(Messages(messages))
  {
    hide Utf8;
    MessagesInText(db.messages, chat);
    SameElements(messages, if tx.commits then MessagesIn(db.messages, chat) else []);
  }

  /** Every answer has the kind of its request and is a well-formed response. */
  lemma AnswersAreEncodable(sha: Hash, w: World, e: Entry)
    requires Good(w) && LegalStep(sha, w, e)
    ensures RightKind(Served(WhoIs(w, e.sid), e.req), e.req, e.resp) && ValidResponse(e.resp)
  {
    hide Utf8, EmailsUnique, ContactsMutual, SendersAreMembers, ChatsArePairs, OneChatPerPair,
      Registration, SendMessage, Relations.AddContact, Relations.CreateChat, ChatsOf, ContactsOf, MessagesIn;
    var who := WhoIs(w, e.sid);
    if Served(who, e.req) {
      match e.req
      case GetChats => ChatsEncodable(w.db, who.value.userId, e.resp.chats, e.tx);
      case GetContacts => ContactsEncodable(w.db, who.value.userId, e.resp.contacts, e.tx);
      case GetMessages(chat) => MessagesEncodable(w.db, chat, e.resp.messages, e.tx);
      case _ =>
    }
  }
}
