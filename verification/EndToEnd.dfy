/**
 What an operation of the client achieves on the server, and what its signal and the data
 the client then holds say about it: the composition of all parts of the model.
 */
module EndToEnd {
  import opened Basics
  import opened Protocol
  import opened Relations
  import opened ServerSpec
  import opened ServerEffects
  import opened ServerProtocol
  import opened MessagesView
  import opened Client
  import opened Lockstep

  // ----- What an operation has achieved ---------------------------------------------

  /** The account whose profile the client holds was registered with this email and a
      password of the same hash. */
  ghost predicate HoldsAccount(sha: Hash, before: seq<Entry>, a: App, email: Bytes, password: Bytes) {
    && a.profile.Some?
    && var c := a.profile.value;
    && c.email == email
    && exists i: nat, p :: AccountAt(before, i, c.userId, c.name, email, p) && sha(p) == sha(password)
  }

  ghost predicate HoldsChatsOf(sha: Hash, before: seq<Entry>, user: U64, commits: bool, a: App) {
    && a.chats.Some?
    && multiset(a.chats.value) == if commits then multiset(ChatsMade(sha, before, user)) else multiset{}
  }

  ghost predicate HoldsContactsOf(sha: Hash, before: seq<Entry>, user: U64, commits: bool, a: App) {
    && a.contacts.Some?
    && forall c :: multiset(a.contacts.value)[c] == if commits && LinkedAccount(sha, before, user, c) then 1 else 0
  }

  /** The list was given the messages of the chat, once since call `from`. */
  ghost predicate WasGivenMessages(sha: Hash, before: seq<Entry>, chat: U64, commits: bool, a: App, from: nat) {
    exists items :: SetOnce(a.listCalls, from, items) &&
                    multiset(items) == if commits then multiset(Sent(sha, before, chat)) else multiset{}
  }

  /** The outcome of an operation that entry `e` has answered, `before` being the entries
      committed before it. */
  ghost predicate Outcome(sha: Hash, before: seq<Entry>, e: Entry, op: Operation, a: App, s: Signal, from: nat) {
    var w, w' := After(sha, before), Next(sha, After(sha, before), e);
    var who := WhoIs(w, e.sid);
    match op
    case Signin(email, password) =>
      && s.LoggedIn?
      && (s.ok <==> e.tx.commits && exists i: nat, name, p :: ServerSpec.Registered(before, i, name, email, p) && sha(p) == sha(password))
      && (s.ok ==> HoldsAccount(sha, before, a, email, password) && WhoIs(w', e.sid) == a.profile)
    case Signup(name, email, password) =>
      && s.Registered?
      && (s.ok <==> e.tx.commits && !exists i: nat, n, p :: ServerSpec.Registered(before, i, n, email, p))
      && (s.ok ==> w'.db == w.db.(clients := w.db.clients[e.tx.clientId := Client(name, email, sha(password))]))
      && (!s.ok ==> w'.db == w.db)
    case SendMessage(chat, text) =>
      && s.SendedMessage?
      && (s.ok <==> who.Some? && e.tx.commits && IsMember(w.db.members, who.value.userId, chat))
      && (s.ok ==> w'.db == w.db.(messages := w.db.messages + [Posted(who.value.userId, chat, text)]))
      && (!s.ok ==> w'.db == w.db)
    case AddContact(email) =>
      && s.AddedContact?
      && (s.ok <==> && who.Some? && e.tx.commits
                    && exists friend :: && HasEmail(w.db, email, friend) && friend != who.value.userId
                                        && Link(who.value.userId, friend) !in w.db.contacts)
      && (s.ok ==> forall friend | HasEmail(w.db, email, friend) ::
            w'.db == w.db.(contacts := w.db.contacts + [Link(who.value.userId, friend), Link(friend, who.value.userId)]))
      && (!s.ok ==> w'.db == w.db)
    case CreateChat(friend) =>
      && s.ChatCreated?
      && (s.ok <==> && who.Some? && e.tx.commits && friend in w.db.clients
                    && !exists chat: U64 :: IsMember(w.db.members, who.value.userId, chat) && IsMember(w.db.members, friend, chat))
      && (s.ok ==> && who.value.userId in w.db.clients
                   && w'.db.members == w.db.members + PairRows(w.db, e.tx.chatId, who.value.userId, friend)
                   && RowsOf(w'.db.members, e.tx.chatId) == PairRows(w.db, e.tx.chatId, who.value.userId, friend))
      && (!s.ok ==> w'.db == w.db)
    case LoadChats =>
      s.LoadedChats? && (who.Some? ==> HoldsChatsOf(sha, before, who.value.userId, e.tx.commits, a))
    case LoadContacts =>
      s.LoadedContacts? && (who.Some? ==> HoldsContactsOf(sha, before, who.value.userId, e.tx.commits, a))
    case LoadMessages(chat) =>
      s.LoadedMessages? && (who.Some? ==> WasGivenMessages(sha, before, chat, e.tx.commits, a, from))
    case LoadData =>
      && s.LoadedData?
      && (who.Some? ==>
            && HoldsChatsOf(sha, before, who.value.userId, e.tx.commits, a)
            && exists i: nat :: ContactsLoadedAt(sha, before, i, e.sid, a))
    case UpdateConnectionSettings(_) => false
  }

  /** Entry `i` answered the session with the contacts the client holds. */
  ghost predicate ContactsLoadedAt(sha: Hash, before: seq<Entry>, i: nat, sid: nat, a: App) {
    && i < |before| && before[i].sid == sid
    && var who := WhoIs(After(sha, before[..i]), sid);
    who.Some? && HoldsContactsOf(sha, before[..i], who.value.userId, before[i].tx.commits, a)
  }

  // ----- The entry that answers a request -------------------------------------------

  /** The k-th entry of a session has its place in the log. */
  lemma {:induction false} EntryAt(log: seq<Entry>, sid: nat, k: nat) returns (i: nat)
    requires k < |Of(log, sid)|
    ensures i < |log| && log[i].sid == sid && |Of(log[..i], sid)| == k && Of(log, sid)[k] == log[i]
    decreases |log|
  {
    var n := |log| - 1;
    if k < |Of(log[..n], sid)| {
      i := EntryAt(log[..n], sid, k);
      assert log[..n][..i] == log[..i];
    } else {
      i := n;
    }
  }

  // ----- Operations with one request ------------------------------------------------

  lemma OneRequestOutcome(sha: Hash, before: seq<Entry>, e: Entry, op: Operation, a: App, s: Signal,
                          answered: seq<(Job, Response)>, from: nat)
    requires Legal(sha, before) && LegalStep(sha, After(sha, before), e)
    requires !op.UpdateConnectionSettings? && !op.LoadData? && e.req == RequestOf(op)
    requires answered != [] && answered[|answered| - 1].1 == e.resp && EndsWith(a, op, s, answered, from)
    ensures Outcome(sha, before, e, op, a, s, from)
  {
    hide Legal, After, LegalStep, Next, Sent, ChatsMade, LinkedAccount, ServerSpec.Registered, AccountAt, RowsOf, Title, SetOnce;
    match op
    case Signin(_, _) => LoginEffect(sha, before, e);
    case Signup(_, _, _) => RegisterEffect(sha, before, e);
    case SendMessage(_, _) => SendEffect(sha, before, e);
    case AddContact(_) => AddContactEffect(sha, before, e);
    case CreateChat(_) => CreateChatEffect(sha, before, e);
    case LoadChats => GetChatsEffect(sha, before, e);
    case LoadContacts => ContactsHeld(sha, before, e, a);
    case LoadMessages(_) => GetMessagesEffect(sha, before, e);
  }

  lemma ContactsHeld(sha: Hash, before: seq<Entry>, e: Entry, a: App)
    requires Legal(sha, before) && LegalStep(sha, After(sha, before), e) && e.req.GetContacts?
    requires e.resp.Contacts? ==> a.contacts == Some(e.resp.contacts)
    ensures var who := WhoIs(After(sha, before), e.sid);
            && (who.None? <==> e.resp == NoResponse)
            && (who.Some? ==> e.resp.Contacts? && HoldsContactsOf(sha, before, who.value.userId, e.tx.commits, a))
  {
    hide Legal, After, LegalStep, Next, LinkedAccount;
    forall c
      ensures var who := WhoIs(After(sha, before), e.sid);
              && (who.None? <==> e.resp == NoResponse)
              && (who.Some? ==>
                    && e.resp.Contacts?
                    && multiset(e.resp.contacts)[c] ==
                       if e.tx.commits && LinkedAccount(sha, before, who.value.userId, c) then 1 else 0)
    {
      GetContactsEffect(sha, before, e, c);
    }
    GetContactsEffect(sha, before, e, ContactInfo(0, [], []));
  }

  // ----- Loading the data -----------------------------------------------------------

  lemma LoadDataOutcome(sha: Hash, log: seq<Entry>, first: nat, last: nat, a: App, s: Signal,
                        answered: seq<(Job, Response)>, from: nat, two: bool)
    requires Legal(sha, log) && last < |log| && answered != [] && answered[|answered| - 1].1 == log[last].resp
    requires EndsWith(a, LoadData, s, answered, from)
    requires if two then log[last].req == GetChats && first < last && |answered| > 1
             else log[last].req == GetContacts && log[last].resp == NoResponse
    requires two ==> && answered[|answered| - 2].1 == log[first].resp && log[first].req == GetContacts
                     && log[first].sid == log[last].sid
    ensures Outcome(sha, log[..last], log[last], LoadData, a, s, from)
  {
    hide Legal, After, LegalStep, Next, ChatsMade, LinkedAccount;
    LegalPrefix(sha, log, last);
    if two {
      GetChatsEffect(sha, log[..last], log[last]);
      if WhoIs(After(sha, log[..last]), log[last].sid).Some? {
        LegalPrefix(sha, log, first);
        ContactsHeld(sha, log[..first], log[first], a);
        assert log[..last][..first] == log[..first];
        assert ContactsLoadedAt(sha, log[..last], first, log[last].sid, a);
      }
    } else {
      GetContactsEffect(sha, log[..last], log[last], ContactInfo(0, [], []));
    }
  }

  // ----- Every operation ------------------------------------------------------------

  lemma {:induction false} OfGrows(log: seq<Entry>, sid: nat, i: nat, j: nat)
    requires i <= j <= |log|
    ensures |Of(log[..i], sid)| <= |Of(log[..j], sid)|
    decreases j
  {
    if i < j {
      OfGrows(log, sid, i, j - 1);
      assert log[..j][..j - 1] == log[..j - 1];
    }
  }

  lemma EarlierEntry(log: seq<Entry>, sid: nat, i: nat, j: nat)
    requires i <= |log| && j <= |log| && |Of(log[..i], sid)| < |Of(log[..j], sid)|
    ensures i < j
  {
    if j <= i {
      OfGrows(log, sid, j, i);
    }
  }

  /** The last request of a completed operation, and its answer, in the log. */
  lemma LastAnswer(entries: seq<Entry>, l: Channel, st: Begun)
    requires AllSendable(entries) && ClientInv(entries, l) && l.op == Some(st) && l.app.available
    requires !st.op.UpdateConnectionSettings?
    ensures var a, n := l.app, |entries|;
            && n > 0 && n == |l.answered| == |a.asked| && st.signals < |a.signals|
            && l.answered[n - 1].1 == entries[n - 1].resp
            && EndsWith(a, st.op, a.signals[st.signals], l.answered, st.calls)
            && (!st.op.LoadData? ==> entries[n - 1].req == RequestOf(st.op))
            && (st.op.LoadData? ==>
                  || (entries[n - 1].req == GetContacts && !entries[n - 1].resp.Contacts?)
                  || (n > 1 && entries[n - 1].req == GetChats && entries[n - 2].req == GetContacts
                      && l.answered[n - 2].1 == entries[n - 2].resp))
  {
    hide Sendable, Received, EndsWith, SetOnce;
    var a, n := l.app, |entries|;
    var made := a.asked[st.asked..];
    assert made[|made| - 1] == a.asked[n - 1];
    if |made| == 2 {
      assert made[0] == a.asked[n - 2];
    }
  }

  /** In every reachable state, when an operation on a connection has ended: entry `i` of the
      log is the one whose response it was last given, and the operation has had its outcome
      there. */
  lemma OperationOutcome(sha: Hash, s: System, cid: nat, sid: nat, st: Begun) returns (i: nat)
    requires SystemReachable(sha, s) && cid in s.channels && s.channels[cid].sid == Some(sid)
    requires s.channels[cid].op == Some(st) && s.channels[cid].app.available && !st.op.UpdateConnectionSettings?
    ensures i < |s.server.log| && s.server.log[i].sid == sid
    ensures var answered := s.channels[cid].answered;
            && answered != [] && answered[|answered| - 1].1 == s.server.log[i].resp
            && |Of(s.server.log[..i], sid)| == |answered| - 1
    ensures Legal(sha, s.server.log[..i]) && LegalStep(sha, After(sha, s.server.log[..i]), s.server.log[i])
    ensures var a := s.channels[cid].app;
            && st.signals < |a.signals|
            && Outcome(sha, s.server.log[..i], s.server.log[i], st.op, a, a.signals[st.signals], st.calls)
  {
    hide SystemReachable, PeerInv, After, Legal, LegalStep, Sendable, Outcome, EndsWith, ClientInv, RightKind;
    SystemReachableInv(sha, s);
    var log, l := s.server.log, s.channels[cid];
    assert ChannelInv(sha, s.server, l);
    var es := Of(log, sid);
    LastAnswer(es, l, st);
    var n, a := |es|, l.app;
    var sig := a.signals[st.signals];
    i := EntryAt(log, sid, n - 1);
    LegalPrefix(sha, log, i);
    if !st.op.LoadData? {
      OneRequestOutcome(sha, log[..i], log[i], st.op, a, sig, l.answered, st.calls);
    } else if es[n - 1].req == GetContacts {
      KindsFit(sha, log, sid);
      assert es[n - 1] in es && KindFits(es[n - 1]);
      assert es[n - 1].resp == NoResponse by { NotContacts(es[n - 1]); }
      LoadDataOutcome(sha, log, 0, i, a, sig, l.answered, st.calls, false);
    } else {
      var first := EntryAt(log, sid, n - 2);
      EarlierEntry(log, sid, first, i);
      LoadDataOutcome(sha, log, first, i, a, sig, l.answered, st.calls, true);
    }
  }

  lemma NotContacts(e: Entry)
    requires KindFits(e) && e.req == GetContacts && !e.resp.Contacts?
    ensures e.resp == NoResponse
  {
  }
}
