/**
 What a request achieves: exactly when it is accepted, in terms of the requests accepted
 before it, and what is then in the tables and in the answers of the queries.
 */
module ServerEffects {
  import opened Basics
  import opened Wire
  import opened Protocol
  import opened Relations
  import opened ServerSpec

  predicate Accepted(e: Entry) {
    e.resp == Status(ACCEPTED)
  }

  // ----- Accounts -------------------------------------------------------------------

  /** Entry `i` registered the account with this id. */
  predicate AccountAt(log: seq<Entry>, i: nat, id: U64, name: Bytes, email: Bytes, password: Bytes) {
    Registered(log, i, name, email, password) && log[i].tx.clientId == id
  }

  predicate IsAccount(db: Db, id: U64, name: Bytes, email: Bytes, hash: Bytes) {
    id in db.clients && db.clients[id] == Client(name, email, hash)
  }

  /** The Client table holds for each id what was registered with it. */
  lemma {:induction false} AccountsAreRegistered(sha: Hash, log: seq<Entry>, id: U64, name: Bytes, email: Bytes, hash: Bytes)
    requires Legal(sha, log)
    ensures IsAccount(After(sha, log).db, id, name, email, hash)
            <==> exists i: nat, password :: AccountAt(log, i, id, name, email, password) && sha(password) == hash
    decreases |log|
  {
    hide LegalStep, Next;
    if log != [] {
      var n := |log| - 1;
      var before, e := log[..n], log[n];
      var w := After(sha, before);
      AccountsAreRegistered(sha, before, id, name, email, hash);
      StepClients(sha, w, e);
      assert forall i: nat, p :: AccountAt(before, i, id, name, email, p) ==> AccountAt(log, i, id, name, email, p);
      assert forall i: nat, p :: AccountAt(log, i, id, name, email, p) && i < n ==> AccountAt(before, i, id, name, email, p);
      if AcceptedRegister(e) {
        assert AccountAt(log, n, e.tx.clientId, e.req.name, e.req.email, e.req.password);
      }
    }
  }

  /** An email is taken when an account was registered with it. */
  lemma TakenIffRegistered(sha: Hash, log: seq<Entry>, email: Bytes)
    requires Legal(sha, log)
    ensures EmailTaken(After(sha, log).db, email) <==> exists i: nat, name, password :: Registered(log, i, name, email, password)
  {
    hide Legal, After;
    var db := After(sha, log).db;
    if EmailTaken(db, email) {
      var id :| HasEmail(db, email, id);
      ClientsAreRegistered(sha, log, db.clients[id].name, email, db.clients[id].passwordHash);
      assert HasClient(db, Client(db.clients[id].name, email, db.clients[id].passwordHash));
    }
    if i: nat, name, password :| Registered(log, i, name, email, password) {
      ClientsAreRegistered(sha, log, name, email, sha(password));
      var id :| id in db.clients && db.clients[id] == Client(name, email, sha(password));
      assert HasEmail(db, email, id);
    }
  }

  // ----- Registration and login -----------------------------------------------------

  /** A registration is accepted if and only if its transaction commits and nobody has
      registered with the email; then the account exists and nothing else has changed. */
  lemma RegisterEffect(sha: Hash, log: seq<Entry>, e: Entry)
    requires Legal(sha, log) && LegalStep(sha, After(sha, log), e) && e.req.Register?
    ensures Accepted(e) <==>
            e.tx.commits && !exists i: nat, name, password :: Registered(log, i, name, e.req.email, password)
    ensures e.resp == Status(ACCEPTED) || e.resp == Status(REJECTED)
    ensures var w, w' := After(sha, log), Next(sha, After(sha, log), e);
            w'.db == if Accepted(e)
                     then w.db.(clients := w.db.clients[e.tx.clientId := Client(e.req.name, e.req.email, sha(e.req.password))])
                     else w.db
  {
    hide Legal, After, Registered, EmailTaken, Utf8;
    TakenIffRegistered(sha, log, e.req.email);
  }

  /** A login is answered with a profile if and only if its transaction commits and an
      account was registered with the email and a password of the same hash; the profile is
      that account's. */
  lemma LoginEffect(sha: Hash, log: seq<Entry>, e: Entry)
    requires Legal(sha, log) && LegalStep(sha, After(sha, log), e) && e.req.Login?
    ensures e.resp.LoginResult?
    ensures e.resp.profile.Some? <==>
            e.tx.commits && exists i: nat, name, p :: Registered(log, i, name, e.req.email, p) && sha(p) == sha(e.req.password)
    ensures e.resp.profile.Some? ==>
              var c := e.resp.profile.value;
              && c.email == e.req.email && WhoIs(Next(sha, After(sha, log), e), e.sid) == Some(c)
              && exists i: nat, p :: AccountAt(log, i, c.userId, c.name, c.email, p) && sha(p) == sha(e.req.password)
    ensures Next(sha, After(sha, log), e).db == After(sha, log).db
  {
    hide Legal, After, Registered, Utf8;
    LoginRefinesHistory(sha, log, e.req.email, e.req.password, e.tx);
    if e.resp.profile.Some? {
      var c := e.resp.profile.value;
      AccountsAreRegistered(sha, log, c.userId, c.name, c.email, sha(e.req.password));
      assert IsAccount(After(sha, log).db, c.userId, c.name, c.email, sha(e.req.password));
    }
  }

  // ----- Messages -------------------------------------------------------------------

  /** A message is accepted if and only if its transaction commits and a member of the chat
      sends it; then it is stored behind the others. */
  lemma SendEffect(sha: Hash, log: seq<Entry>, e: Entry)
    requires Legal(sha, log) && LegalStep(sha, After(sha, log), e) && e.req.SendMesg?
    ensures var w, who := After(sha, log), WhoIs(After(sha, log), e.sid);
            && (who.None? <==> e.resp == NoResponse)
            && (Accepted(e) <==> who.Some? && e.tx.commits && IsMember(w.db.members, who.value.userId, e.req.chatId))
            && (who.Some? && !Accepted(e) ==> e.resp == Status(REJECTED))
            && Next(sha, w, e).db ==
               if Accepted(e) then w.db.(messages := w.db.messages + [Posted(who.value.userId, e.req.chatId, e.req.text)])
               else w.db
  {
    hide Legal, After, Utf8, IsMember;
  }

  // ----- Contacts -------------------------------------------------------------------

  /** A contact is accepted if and only if the transaction commits, the email is another
      account's, and the two are not linked yet; then they are, in both directions. */
  lemma AddContactEffect(sha: Hash, log: seq<Entry>, e: Entry)
    requires Legal(sha, log) && LegalStep(sha, After(sha, log), e) && e.req.AddContact?
    ensures var w, who := After(sha, log), WhoIs(After(sha, log), e.sid);
            && (who.None? <==> e.resp == NoResponse)
            && (Accepted(e) <==>
                && who.Some? && e.tx.commits
                && exists friend :: && HasEmail(w.db, e.req.email, friend) && friend != who.value.userId
                                    && Link(who.value.userId, friend) !in w.db.contacts)
            && (who.Some? && !Accepted(e) ==> e.resp == Status(REJECTED))
    ensures var w, who, w' := After(sha, log), WhoIs(After(sha, log), e.sid), Next(sha, After(sha, log), e);
            forall friend | Accepted(e) && HasEmail(w.db, e.req.email, friend) ::
              w'.db == w.db.(contacts := w.db.contacts + [Link(who.value.userId, friend), Link(friend, who.value.userId)])
    ensures !Accepted(e) ==> Next(sha, After(sha, log), e).db == After(sha, log).db
  {
    RunsAreGood(sha, log);
    hide Legal, After, Utf8, SendersAreMembers, ChatsArePairs, OneChatPerPair, TextValid;
    var w, who := After(sha, log), WhoIs(After(sha, log), e.sid);
    if who.Some? {
      var user := who.value.userId;
      forall friend | HasEmail(w.db, e.req.email, friend)
        ensures CanLink(w.db, user, friend) <==> friend != user && Link(user, friend) !in w.db.contacts
      {
        assert Link(friend, user) in w.db.contacts ==> Link(user, friend) in w.db.contacts;
      }
    }
  }

  /** Entry `i` is an accepted AddContact of client `a` for the account `b`. */
  ghost predicate LinkedAt(sha: Hash, log: seq<Entry>, i: nat, a: U64, b: U64) {
    && i < |log| && log[i].req.AddContact? && Accepted(log[i])
    && var w := After(sha, log[..i]);
    && WhoIs(w, log[i].sid).Some? && WhoIs(w, log[i].sid).value.userId == a
    && HasEmail(w.db, log[i].req.email, b)
  }

  lemma StepContacts(sha: Hash, log: seq<Entry>, e: Entry)
    requires Legal(sha, log) && LegalStep(sha, After(sha, log), e) && !(e.req.AddContact? && Accepted(e))
    ensures Next(sha, After(sha, log), e).db.contacts == After(sha, log).db.contacts
  {
    hide Legal, After, Utf8, EmailTaken, HaveCommonChat, CanLink;
  }

  /** Two clients are linked exactly by an accepted AddContact of one for the other. */
  lemma {:induction false} LinksAreMade(sha: Hash, log: seq<Entry>, a: U64, b: U64)
    requires Legal(sha, log)
    ensures Link(a, b) in After(sha, log).db.contacts <==>
            exists i: nat :: LinkedAt(sha, log, i, a, b) || LinkedAt(sha, log, i, b, a)
    decreases |log|
  {
    hide LegalStep, Next, WhoIs, HasEmail;
    if log != [] {
      var n := |log| - 1;
      var before, e := log[..n], log[n];
      LinksAreMade(sha, before, a, b);
      assert forall i | 0 <= i < n :: before[..i] == log[..i];
      assert forall i: nat, x, y | i < n :: LinkedAt(sha, before, i, x, y) == LinkedAt(sha, log, i, x, y);
      hide After, Legal;
      assert After(sha, log) == Next(sha, After(sha, before), e) by { AfterSnoc(sha, log); }
      assert Legal(sha, before) && LegalStep(sha, After(sha, before), e) by { LegalPrefixes(sha, log); }
      LastLink(sha, before, e, a, b);
      assert LinkedNow(sha, before, e, a, b) == LinkedAt(sha, log, n, a, b);
      assert LinkedNow(sha, before, e, b, a) == LinkedAt(sha, log, n, b, a);
    }
  }

  lemma AfterSnoc(sha: Hash, log: seq<Entry>)
    requires log != []
    ensures After(sha, log) == Next(sha, After(sha, log[..|log| - 1]), log[|log| - 1])
  {
    hide Next;
  }

  lemma LegalPrefixes(sha: Hash, log: seq<Entry>)
    requires log != [] && Legal(sha, log)
    ensures Legal(sha, log[..|log| - 1]) && LegalStep(sha, After(sha, log[..|log| - 1]), log[|log| - 1])
  {
    hide LegalStep;
  }

  ghost predicate LinkedNow(sha: Hash, before: seq<Entry>, e: Entry, a: U64, b: U64) {
    && e.req.AddContact? && Accepted(e)
    && var w := After(sha, before);
    && WhoIs(w, e.sid).Some? && WhoIs(w, e.sid).value.userId == a
    && HasEmail(w.db, e.req.email, b)
  }

  lemma LastLink(sha: Hash, before: seq<Entry>, e: Entry, a: U64, b: U64)
    requires Legal(sha, before) && LegalStep(sha, After(sha, before), e)
    ensures Link(a, b) in Next(sha, After(sha, before), e).db.contacts <==>
            || Link(a, b) in After(sha, before).db.contacts
            || LinkedNow(sha, before, e, a, b) || LinkedNow(sha, before, e, b, a)
  {
    hide Legal, After, LegalStep, Next;
    var w := After(sha, before);
    if e.req.AddContact? && Accepted(e) {
      AddContactEffect(sha, before, e);
      var user := WhoIs(w, e.sid).value.userId;
      var friend :| HasEmail(w.db, e.req.email, friend) && friend != user && Link(user, friend) !in w.db.contacts;
      OneAccount(sha, before, e.req.email, friend);
      var contacts := Next(sha, w, e).db.contacts;
      assert contacts == w.db.contacts + [Link(user, friend), Link(friend, user)];
      assert Link(a, b) in contacts <==>
             Link(a, b) in w.db.contacts || Link(a, b) == Link(user, friend) || Link(a, b) == Link(friend, user);
    } else {
      StepContacts(sha, before, e);
    }
  }

  lemma OneAccount(sha: Hash, log: seq<Entry>, email: Bytes, id: U64)
    requires Legal(sha, log) && HasEmail(After(sha, log).db, email, id)
    ensures forall other | HasEmail(After(sha, log).db, email, other) :: other == id
  {
    hide Legal, After, ContactsMutual, SendersAreMembers, ChatsArePairs, OneChatPerPair, TextValid, CachesTrue;
    RunsAreGood(sha, log);
  }

  // ----- Chats ----------------------------------------------------------------------

  /** A chat is accepted if and only if the transaction commits, the friend is a client and
      the two share no chat yet. Then the chat exists, both are members, its rows are the two
      titled ones, and all other rows are as before. */
  lemma CreateChatEffect(sha: Hash, log: seq<Entry>, e: Entry)
    requires Legal(sha, log) && LegalStep(sha, After(sha, log), e) && e.req.CreateChat?
    ensures var w, who := After(sha, log), WhoIs(After(sha, log), e.sid);
            && (who.None? <==> e.resp == NoResponse)
            && (Accepted(e) <==>
                && who.Some? && e.tx.commits && e.req.friendId in w.db.clients
                && !exists chat: U64 :: IsMember(w.db.members, who.value.userId, chat) && IsMember(w.db.members, e.req.friendId, chat))
            && (who.Some? && !Accepted(e) ==> e.resp == Status(REJECTED))
    ensures Accepted(e) ==>
              var w, w', chat, friend := After(sha, log), Next(sha, After(sha, log), e), e.tx.chatId, e.req.friendId;
              var user := WhoIs(w, e.sid).value.userId;
              && w'.db == w.db.(chats := w'.db.chats, members := w'.db.members)
              && w'.db.chats == w.db.chats + {chat} && chat !in w.db.chats
              && user in w.db.clients
              && w'.db.members == w.db.members + PairRows(w.db, chat, user, friend)
              && IsMember(w'.db.members, user, chat) && IsMember(w'.db.members, friend, chat)
              && RowsOf(w'.db.members, chat) == PairRows(w.db, chat, user, friend)
              && forall other: U64 | other != chat :: RowsOf(w'.db.members, other) == RowsOf(w.db.members, other)
    ensures !Accepted(e) ==> Next(sha, After(sha, log), e).db == After(sha, log).db
  {
    RunsAreGood(sha, log);
    hide Legal, After, Utf8, EmailsUnique, ContactsMutual, SendersAreMembers, OneChatPerPair, TextValid, RowsOf, Title, IsPair;
    if Accepted(e) {
      var w, w', chat, friend := After(sha, log), Next(sha, After(sha, log), e), e.tx.chatId, e.req.friendId;
      var user := WhoIs(w, e.sid).value.userId;
      NewRows(w.db, chat, PairRows(w.db, chat, user, friend));
    }
  }

  lemma NewRows(db: Db, chat: U64, rows: seq<Member>)
    requires forall m | m in db.members :: m.chatId != chat
    requires |rows| == 2 && rows[0].chatId == chat && rows[1].chatId == chat
    ensures RowsOf(db.members + rows, chat) == rows
    ensures forall other: U64 | other != chat :: RowsOf(db.members + rows, other) == RowsOf(db.members, other)
    ensures IsMember(db.members + rows, rows[0].clientId, chat) && IsMember(db.members + rows, rows[1].clientId, chat)
  {
    hide IsMember, RowsOf;
    NoRows(db.members, chat);
    RowsOfMore(db.members, rows, chat);
    RowsOfTwo(rows[0], rows[1]);
    assert rows == [rows[0], rows[1]];
    forall other: U64 | other != chat
      ensures RowsOf(db.members + rows, other) == RowsOf(db.members, other)
    {
      RowsOfMore(db.members, rows, other);
      NoRows(rows, other);
    }
    MoreMembers(db.members, rows, rows[0].clientId, chat);
    MoreMembers(db.members, rows, rows[1].clientId, chat);
    assert IsMember(rows, rows[0].clientId, chat) by { MemberAt(rows, 0); }
    assert IsMember(rows, rows[1].clientId, chat) by { MemberAt(rows, 1); }
  }

  lemma MemberAt(members: seq<Member>, i: nat)
    requires i < |members|
    ensures IsMember(members, members[i].clientId, members[i].chatId)
  {
  }

  // ----- Queries --------------------------------------------------------------------

  /** The chats that accepted CreateChat requests have given to client `u`, in commit order,
      each under the name of the other client. */
  ghost function ChatsMade(sha: Hash, log: seq<Entry>, u: U64): seq<ChatInfo> {
    if log == [] then []
    else
      var n := |log| - 1;
      ChatsMade(sha, log[..n], u) + ChatsMadeBy(After(sha, log[..n]), log[n], u)
  }

  /** What one entry adds: to its user the chat with the friend, to the friend that with the
      user. */
  ghost function ChatsMadeBy(w: World, e: Entry, u: U64): seq<ChatInfo> {
    var who := WhoIs(w, e.sid);
    if !(e.req.CreateChat? && Accepted(e) && who.Some? && e.req.friendId in w.db.clients) then []
    else
      (if who.value.userId == u then [ChatInfo(e.tx.chatId, Title(w.db.clients[e.req.friendId].name))] else []) +
      (if e.req.friendId == u then [ChatInfo(e.tx.chatId, Title(who.value.name))] else [])
  }

  lemma StepMembers(sha: Hash, w: World, e: Entry)
    requires LegalStep(sha, w, e) && !(e.req.CreateChat? && Accepted(e))
    ensures Next(sha, w, e).db.members == w.db.members
  {
    hide Utf8, EmailTaken, HaveCommonChat, CanLink;
  }

  lemma StepChats(sha: Hash, log: seq<Entry>, e: Entry, u: U64)
    requires Legal(sha, log) && LegalStep(sha, After(sha, log), e)
    ensures ChatsOf(Next(sha, After(sha, log), e).db.members, u) ==
            ChatsOf(After(sha, log).db.members, u) + ChatsMadeBy(After(sha, log), e, u)
  {
    hide Legal, After, LegalStep, Next, Title, ChatsOf;
    var w := After(sha, log);
    if e.req.CreateChat? && Accepted(e) {
      CreateChatEffect(sha, log, e);
      var user := WhoIs(w, e.sid).value;
      assert user.name == w.db.clients[user.userId].name by { CacheIsTrue(sha, log, e.sid); }
      var rows := PairRows(w.db, e.tx.chatId, user.userId, e.req.friendId);
      ChatsOfMore(w.db.members, rows, u);
      ChatsOfTwo(rows[0], rows[1], u);
      assert rows == [rows[0], rows[1]];
    } else {
      StepMembers(sha, w, e);
    }
  }

  lemma CacheIsTrue(sha: Hash, log: seq<Entry>, sid: nat)
    requires Legal(sha, log) && WhoIs(After(sha, log), sid).Some?
    ensures var db, u := After(sha, log).db, WhoIs(After(sha, log), sid).value;
            u.userId in db.clients && db.clients[u.userId].name == u.name && db.clients[u.userId].email == u.email
  {
    hide Legal, After, Consistent;
    RunsAreGood(sha, log);
  }

  lemma ChatsOfTwo(a: Member, b: Member, u: U64)
    ensures ChatsOf([a, b], u) == (if a.clientId == u then [ChatInfo(a.chatId, a.title)] else []) +
                                  (if b.clientId == u then [ChatInfo(b.chatId, b.title)] else [])
  {
    assert [a, b][..1] == [a] && [a][..0] == [];
    assert ChatsOf([a][..0], u) == [];
    assert ChatsOf([a], u) == if a.clientId == u then [ChatInfo(a.chatId, a.title)] else [];
  }

  lemma {:induction false} ChatsAreMade(sha: Hash, log: seq<Entry>, u: U64)
    requires Legal(sha, log)
    ensures ChatsOf(After(sha, log).db.members, u) == ChatsMade(sha, log, u)
    decreases |log|
  {
    hide LegalStep, Next, ChatsMadeBy;
    if log != [] {
      ChatsAreMade(sha, log[..|log| - 1], u);
      StepChats(sha, log[..|log| - 1], log[|log| - 1], u);
    }
  }

  /** A client is a member of exactly the chats made for it. */
  lemma MembersAreMade(sha: Hash, log: seq<Entry>, u: U64, chat: U64)
    requires Legal(sha, log)
    ensures IsMember(After(sha, log).db.members, u, chat) <==> exists title :: ChatInfo(chat, title) in ChatsMade(sha, log, u)
  {
    hide Legal, After, ChatsMade, ChatsOf, IsMember;
    ChatsAreMade(sha, log, u);
    MemberIffChat(After(sha, log).db.members, u, chat);
  }

  /** get_chats answers with exactly the chats that accepted requests have made for the
      session's client. */
  lemma GetChatsEffect(sha: Hash, log: seq<Entry>, e: Entry)
    requires Legal(sha, log) && LegalStep(sha, After(sha, log), e) && e.req.GetChats?
    ensures var who := WhoIs(After(sha, log), e.sid);
            && (who.None? <==> e.resp == NoResponse)
            && (who.Some? ==>
                  && e.resp.Chats?
                  && multiset(e.resp.chats) == if e.tx.commits then multiset(ChatsMade(sha, log, who.value.userId)) else multiset{})
    ensures Next(sha, After(sha, log), e).db == After(sha, log).db
  {
    hide Legal, After, ChatsMade, ChatsOf, Utf8;
    var who := WhoIs(After(sha, log), e.sid);
    if who.Some? {
      ChatsAreMade(sha, log, who.value.userId);
    }
  }

  /** `c` is an account as registered, linked with `u` by an accepted AddContact of either. */
  ghost predicate LinkedAccount(sha: Hash, log: seq<Entry>, u: U64, c: ContactInfo) {
    && (exists i: nat, password :: AccountAt(log, i, c.userId, c.name, c.email, password))
    && (exists i: nat :: LinkedAt(sha, log, i, u, c.userId) || LinkedAt(sha, log, i, c.userId, u))
  }

  /** get_contacts answers with exactly these accounts, each once. */
  lemma GetContactsEffect(sha: Hash, log: seq<Entry>, e: Entry, c: ContactInfo)
    requires Legal(sha, log) && LegalStep(sha, After(sha, log), e) && e.req.GetContacts?
    ensures var who := WhoIs(After(sha, log), e.sid);
            && (who.None? <==> e.resp == NoResponse)
            && (who.Some? ==>
                  && e.resp.Contacts?
                  && multiset(e.resp.contacts)[c] ==
                     if e.tx.commits && LinkedAccount(sha, log, who.value.userId, c) then 1 else 0)
    ensures Next(sha, After(sha, log), e).db == After(sha, log).db
  {
    hide Legal, After, ContactsOf, Utf8, LinkedAccount;
    var db, who := After(sha, log).db, WhoIs(After(sha, log), e.sid);
    if who.Some? {
      var u := who.value.userId;
      DistinctContacts(sha, log);
      ContactsCount(db.clients, db.contacts, u, c);
      RowIsLinkedAccount(sha, log, u, c);
    }
  }

  lemma DistinctContacts(sha: Hash, log: seq<Entry>)
    requires Legal(sha, log)
    ensures var contacts := After(sha, log).db.contacts;
            forall i, j | 0 <= i < j < |contacts| :: contacts[i] != contacts[j]
  {
    hide Legal, After, EmailsUnique, SendersAreMembers, ChatsArePairs, OneChatPerPair, TextValid, CachesTrue;
    RunsAreGood(sha, log);
  }

  lemma RowIsLinkedAccount(sha: Hash, log: seq<Entry>, u: U64, c: ContactInfo)
    requires Legal(sha, log)
    ensures var db := After(sha, log).db;
            && Link(u, c.userId) in db.contacts && c.userId in db.clients
            && db.clients[c.userId].name == c.name && db.clients[c.userId].email == c.email
            <==> LinkedAccount(sha, log, u, c)
  {
    hide Legal, After, LinkedAt, AccountAt;
    var db := After(sha, log).db;
    LinksAreMade(sha, log, u, c.userId);
    if c.userId in db.clients {
      AccountsAreRegistered(sha, log, c.userId, c.name, c.email, db.clients[c.userId].passwordHash);
    }
    if i: nat, password :| AccountAt(log, i, c.userId, c.name, c.email, password) {
      AccountsAreRegistered(sha, log, c.userId, c.name, c.email, sha(password));
    }
  }

  /** get_messages answers with exactly the accepted sends to the chat. */
  lemma GetMessagesEffect(sha: Hash, log: seq<Entry>, e: Entry)
    requires Legal(sha, log) && LegalStep(sha, After(sha, log), e) && e.req.GetMessages?
    ensures var who := WhoIs(After(sha, log), e.sid);
            && (who.None? <==> e.resp == NoResponse)
            && (who.Some? ==>
                  && e.resp.Messages?
                  && multiset(e.resp.messages) == if e.tx.commits then multiset(Sent(sha, log, e.req.chatId)) else multiset{})
    ensures Next(sha, After(sha, log), e).db == After(sha, log).db
  {
    hide Legal, After, Sent, MessagesIn, Utf8;
    MessagesAreSent(sha, log, e.req.chatId);
  }
}
