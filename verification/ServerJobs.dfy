/**
 The eight request jobs: what a worker does between the dispatch of a request and the
 write of its response. Each is proved to be the sequential step of module ServerSpec on
 the tables, and `Respond` on the session.
 */
module ServerJobs {
  import opened Basics
  import opened Protocol
  import opened Relations
  import opened ServerSpec
  import opened Storage
  import opened ServerSession

  /** What a job relies on: the invariants of every run, and that no answer to the request
      reaches 2 GiB. */
  ghost predicate Ready(sha: Hash, db: Db, who: Who, req: Request, tx: Tx) {
    && Good(World(db, SetWho(map[], 0, who))) && Fresh(db, tx) && ValidRequest(req)
    && forall resp | Answers(sha, db, who, req, tx, resp) && ValidResponse(resp) ::
         |PacketBytes(AResponse(resp))| < TWO_31
  }

  lemma AnswerIsSendable(sha: Hash, db: Db, who: Who, req: Request, tx: Tx, resp: Response)
    requires Ready(sha, db, who, req, tx) && Answers(sha, db, who, req, tx, resp)
    ensures Sendable(AResponse(resp))
  {
    hide Answers, Good, PacketBytes, ValidResponse;
    var w := World(db, SetWho(map[], 0, who));
    assert WhoIs(w, 0) == who;
    AnswersAreEncodable(sha, w, Entry(0, req, tx, resp));
  }

  /** An email identifies one account, so the account that logs in is the one found. */
  lemma FoundAccount(sha: Hash, db: Db, who: Who, email: Bytes, password: Bytes, tx: Tx, id: U64)
    requires EmailsUnique(db) && tx.commits && CanLogin(sha, db, email, password, id)
    ensures AfterLogin(sha, db, who, email, password, tx) == Some(ContactInfo(id, db.clients[id].name, email))
  {
  }

  method RegisterRequestJob(session: ClientSession, storage: PostgresStorage,
                            name: Bytes, email: Bytes, password: Bytes, tx: Tx)
    returns (resp: Response)
    requires Ready(storage.sha, storage.db, session.state, Register(name, email, password), tx)
    modifies session, storage
    ensures Answers(storage.sha, old(storage.db), old(session.state), Register(name, email, password), tx, resp)
    ensures storage.db == Transaction(storage.sha, old(storage.db), old(session.state), Register(name, email, password), tx).db
    ensures Sendable(AResponse(resp)) && session.View() == Respond(old(session.View()), resp)
  {
    hide Ready, Sendable;
    var registered := storage.Registration(name, email, password, tx);
    if registered {
      resp := Status(ACCEPTED);
    } else {
      resp := Status(REJECTED);
    }
    AnswerIsSendable(storage.sha, old(storage.db), session.state, Register(name, email, password), tx, resp);
    session.DoAsyncWrite(AResponse(resp));
  }

  method LoginRequestJob(session: ClientSession, storage: PostgresStorage,
                         email: Bytes, password: Bytes, rows: seq<U64>, tx: Tx)
    returns (resp: Response)
    requires Ready(storage.sha, storage.db, session.state, Login(email, password), tx)
    requires IdsByEmail(storage.db, email, rows)
    modifies session
    ensures Answers(storage.sha, storage.db, old(session.state), Login(email, password), tx, resp)
    ensures Sendable(AResponse(resp)) && session.View() == Respond(old(session.View()), resp)
  {
    hide Sendable, ContactsMutual, SendersAreMembers, ChatsArePairs, OneChatPerPair, TextValid;
    ghost var was := session.state;
    resp := LoginResult(None);
    var found := storage.Login(email, password, rows, tx);
    if found.Some? {
      session.SetState(ContactInfo(found.value.0, found.value.1, email));
      var state := session.state.value;
      resp := LoginResult(Some(ContactInfo(state.userId, state.name, state.email)));
      FoundAccount(storage.sha, storage.db, was, email, password, tx, found.value.0);
    }
    AnswerIsSendable(storage.sha, storage.db, was, Login(email, password), tx, resp);
    session.DoAsyncWrite(AResponse(resp));
  }

  method ChatsRequestJob(session: ClientSession, storage: PostgresStorage, rows: seq<ChatInfo>, tx: Tx)
    returns (resp: Response)
    requires Ready(storage.sha, storage.db, session.state, GetChats, tx)
    requires session.state.Some? ==>
               multiset(rows) == multiset(ChatsOf(storage.db.members, session.state.value.userId))
    modifies session
    ensures Answers(storage.sha, storage.db, old(session.state), GetChats, tx, resp)
    ensures Sendable(AResponse(resp)) && session.View() == Respond(old(session.View()), resp)
  {
    hide Ready, Sendable;
    if session.state.Some? {
      var chats := storage.GetChats(session.state.value.userId, rows, tx);
      resp := Chats(chats);
    } else {
      resp := NoResponse;
    }
    AnswerIsSendable(storage.sha, storage.db, session.state, GetChats, tx, resp);
    session.DoAsyncWrite(AResponse(resp));
  }

  method ContactsRequestJob(session: ClientSession, storage: PostgresStorage, rows: seq<ContactInfo>, tx: Tx)
    returns (resp: Response)
    requires Ready(storage.sha, storage.db, session.state, GetContacts, tx)
    requires session.state.Some? ==>
               multiset(rows) == multiset(ContactsOf(storage.db.clients, storage.db.contacts, session.state.value.userId))
    modifies session
    ensures Answers(storage.sha, storage.db, old(session.state), GetContacts, tx, resp)
    ensures Sendable(AResponse(resp)) && session.View() == Respond(old(session.View()), resp)
  {
    hide Ready, Sendable;
    if session.state.Some? {
      var contacts := storage.GetContacts(session.state.value.userId, rows, tx);
      resp := Contacts(contacts);
    } else {
      resp := NoResponse;
    }
    AnswerIsSendable(storage.sha, storage.db, session.state, GetContacts, tx, resp);
    session.DoAsyncWrite(AResponse(resp));
  }

  method MessagesRequestJob(session: ClientSession, storage: PostgresStorage, chat: U64, rows: seq<Mesg>, tx: Tx)
    returns (resp: Response)
    requires Ready(storage.sha, storage.db, session.state, GetMessages(chat), tx)
    requires multiset(rows) == multiset(MessagesIn(storage.db.messages, chat))
    modifies session
    ensures Answers(storage.sha, storage.db, old(session.state), GetMessages(chat), tx, resp)
    ensures Sendable(AResponse(resp)) && session.View() == Respond(old(session.View()), resp)
  {
    hide Ready, Sendable;
    if session.state.Some? {
      var messages := storage.GetMessages(chat, rows, tx);
      resp := Messages(messages);
    } else {
      resp := NoResponse;
    }
    AnswerIsSendable(storage.sha, storage.db, session.state, GetMessages(chat), tx, resp);
    session.DoAsyncWrite(AResponse(resp));
  }

  method SendMesgRequestJob(session: ClientSession, storage: PostgresStorage, chat: U64, text: Bytes, tx: Tx)
    returns (resp: Response)
    requires Ready(storage.sha, storage.db, session.state, SendMesg(chat, text), tx)
    modifies session, storage
    ensures Answers(storage.sha, old(storage.db), old(session.state), SendMesg(chat, text), tx, resp)
    ensures storage.db == Transaction(storage.sha, old(storage.db), old(session.state), SendMesg(chat, text), tx).db
    ensures Sendable(AResponse(resp)) && session.View() == Respond(old(session.View()), resp)
  {
    hide Sendable, ContactsMutual, SendersAreMembers, OneChatPerPair, TextValid, EmailsUnique;
    ghost var was := storage.db;
    if session.state.Some? {
      var sent := storage.SendMessage(session.state.value.userId, chat, text, tx);
      if sent {
        resp := Status(ACCEPTED);
      } else {
        resp := Status(REJECTED);
      }
    } else {
      resp := NoResponse;
    }
    AnswerIsSendable(storage.sha, was, session.state, SendMesg(chat, text), tx, resp);
    session.DoAsyncWrite(AResponse(resp));
  }

  method AddContactRequestJob(session: ClientSession, storage: PostgresStorage, email: Bytes, rows: seq<U64>, tx: Tx)
    returns (resp: Response)
    requires Ready(storage.sha, storage.db, session.state, Request.AddContact(email), tx)
    requires IdsByEmail(storage.db, email, rows)
    modifies session, storage
    ensures Answers(storage.sha, old(storage.db), old(session.state), Request.AddContact(email), tx, resp)
    ensures storage.db == Transaction(storage.sha, old(storage.db), old(session.state), Request.AddContact(email), tx).db
    ensures Sendable(AResponse(resp)) && session.View() == Respond(old(session.View()), resp)
  {
    hide Sendable, ContactsMutual, SendersAreMembers, OneChatPerPair, TextValid, ChatsArePairs;
    ghost var was := storage.db;
    if session.state.Some? {
      var added := storage.AddContact(session.state.value.userId, email, rows, tx);
      if added {
        resp := Status(ACCEPTED);
      } else {
        resp := Status(REJECTED);
      }
    } else {
      resp := NoResponse;
    }
    AnswerIsSendable(storage.sha, was, session.state, Request.AddContact(email), tx, resp);
    session.DoAsyncWrite(AResponse(resp));
  }

  method CreateChatRequestJob(session: ClientSession, storage: PostgresStorage, friend: U64, tx: Tx)
    returns (resp: Response)
    requires Ready(storage.sha, storage.db, session.state, Request.CreateChat(friend), tx)
    modifies session, storage
    ensures Answers(storage.sha, old(storage.db), old(session.state), Request.CreateChat(friend), tx, resp)
    ensures storage.db == Transaction(storage.sha, old(storage.db), old(session.state), Request.CreateChat(friend), tx).db
    ensures Sendable(AResponse(resp)) && session.View() == Respond(old(session.View()), resp)
  {
    hide Ready, Sendable;
    ghost var was := storage.db;
    if session.state.Some? {
      var created := storage.CreateChat(session.state.value.userId, session.state.value.name, friend, tx);
      if created {
        resp := Status(ACCEPTED);
      } else {
        resp := Status(REJECTED);
      }
    } else {
      resp := NoResponse;
    }
    AnswerIsSendable(storage.sha, was, session.state, Request.CreateChat(friend), tx, resp);
    session.DoAsyncWrite(AResponse(resp));
  }
}
