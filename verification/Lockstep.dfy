/**
 Clients and server end to end: the concurrent server, any number of clients that each use
 one connection at a time, and any number of foreign connections. The bytes between a
 client and its session are those one side has written and the other has not yet read.

 Assumed of the environment: a socket error ends the connection for good, a connection
 starts with a reader that has read nothing, and no two notifications fall between the
 prefix and the end of one response.
 */
module Lockstep {
  import opened Basics
  import opened Protocol
  import opened Framing
  import opened Relations
  import opened ServerSpec
  import opened ServerSession
  import opened ServerProtocol
  import opened Reassembly
  import opened MessagesView
  import opened Client

  /** The operation under way or last completed on the connection, and how many requests,
      signals and calls of the message list there were before it. */
  datatype Begun = Begun(op: Operation, asked: nat, signals: nat, calls: nat)

  /** A client, the session it is connected to, the bytes it has received from it, the
      callbacks it has run with their responses, and its latest operation. */
  datatype Channel = Channel(app: App, sid: Option<nat>, got: Bytes, answered: seq<(Job, Response)>, op: Option<Begun>)

  datatype System = System(server: Server, channels: map<nat, Channel>)

  datatype Move =
    | Serve(sid: nat, ev: Event)
    | Connect(cid: nat, sid: nat)
    | Operate(cid: nat, op: Operation)
    | Select(cid: nat, chat: U64)
    | Arrive(cid: nat, chunk: Bytes)
    | Drop(cid: nat, error: bool)

  // ----- Steps ----------------------------------------------------------------------

  function RequestsOf(asked: seq<(Request, Job)>): seq<Request> {
    seq(|asked|, i requires 0 <= i < |asked| => asked[i].0)
  }

  predicate AllAskable(asked: seq<(Request, Job)>) {
    forall i | 0 <= i < |asked| :: Sendable(ARequest(asked[i].0))
  }

  /** All that the client has written to its connection. */
  function SentBytes(asked: seq<(Request, Job)>): Bytes
    requires AllAskable(asked)
  {
    Frames(Asked(RequestsOf(asked)))
  }

  /** All that the session has written, with a write that has not been reported complete. */
  function Outgoing(p: Peer): Bytes {
    p.out + if WriteOut in p.conn.todo then p.conn.buffer else []
  }

  /** Once its prefix has been taken, the rest of a response comes with one notification. */
  predicate Chunking(r: Reader, chunk: Bytes) {
    r.readed == PREFIX_SIZE ==> |r.sock| + |chunk| >= r.size
  }

  ghost predicate CanServe(sha: Hash, s: System, sid: nat, ev: Event) {
    && Enabled(sha, s.server, sid, ev)
    && (ev.PrefixDone? || ev.MessageDone? ==>
          forall cid | cid in s.channels && s.channels[cid].sid == Some(sid) ::
            AllAskable(s.channels[cid].app.asked) && s.server.peers[sid].inp + ev.data <= SentBytes(s.channels[cid].app.asked))
  }

  ghost predicate CanMove(sha: Hash, s: System, m: Move) {
    match m
    case Serve(sid, ev) => CanServe(sha, s, sid, ev)
    case Connect(cid, sid) =>
      && cid in s.channels && s.channels[cid].sid.None? && s.channels[cid].app.reader.readed == 0
      && Enabled(sha, s.server, sid, Accept)
    case Operate(cid, op) =>
      && cid in s.channels
      && (!op.UpdateConnectionSettings? ==> Sendable(ARequest(RequestOf(op))))
    case Select(cid, chat) => cid in s.channels
    case Arrive(cid, chunk) =>
      && cid in s.channels && s.channels[cid].sid.Some? && s.channels[cid].sid.value in s.server.peers
      && s.channels[cid].got + chunk <= Outgoing(s.server.peers[s.channels[cid].sid.value])
      && Chunking(s.channels[cid].app.reader, chunk)
    case Drop(cid, error) => cid in s.channels && s.channels[cid].sid.Some?
  }

  /** A channel whose socket is closed is attached to no session. */
  function Attached(l: Channel): Channel {
    if l.app.connected then l else l.(sid := None, op := None)
  }

  function ChannelOperates(l: Channel, op: Operation): Channel {
    if !l.app.available then l
    else
      Attached(l.(app := Performed(l.app, op),
                  op := Some(Begun(op, |l.app.asked|, |l.app.signals|, |l.app.listCalls|))))
  }

  function ChannelSelects(l: Channel, chat: U64): Channel {
    l.(app := Selected(l.app, chat))
  }

  /** The callback run by a notification, and the response given to it. */
  function Ran(a: App, chunk: Bytes): seq<(Job, Response)> {
    var o := Notify(a.reader, chunk);
    if o.loaded.None? || a.callback.None? then []
    else
      var p := ReadPacket(o.loaded.value).value;
      if p.AResponse? then [(a.callback.value, p.response)] else []
  }

  function ChannelArrives(l: Channel, chunk: Bytes): Channel {
    Attached(l.(app := Receive(l.app, chunk), got := l.got + chunk, answered := l.answered + Ran(l.app, chunk)))
  }

  function ChannelDrops(l: Channel, error: bool): Channel {
    Attached(l.(app := Disconnect(if error then Emit(l.app, OperationAborted) else l.app)))
  }

  ghost function Moved(sha: Hash, s: System, m: Move): System
    requires CanMove(sha, s, m)
  {
    match m
    case Serve(sid, ev) => s.(server := Do(sha, s.server, sid, ev))
    case Connect(cid, sid) =>
      System(Do(sha, s.server, sid, Accept),
             s.channels[cid := Channel(Connected(s.channels[cid].app), Some(sid), [], [], None)])
    case Operate(cid, op) => s.(channels := s.channels[cid := ChannelOperates(s.channels[cid], op)])
    case Select(cid, chat) => s.(channels := s.channels[cid := ChannelSelects(s.channels[cid], chat)])
    case Arrive(cid, chunk) => s.(channels := s.channels[cid := ChannelArrives(s.channels[cid], chunk)])
    case Drop(cid, error) => s.(channels := s.channels[cid := ChannelDrops(s.channels[cid], error)])
  }

  const NEW_APP := App(true, false, Reader(0, 0, []), None, [], None, None, None, [], [])

  const NEW_CHANNEL := Channel(NEW_APP, None, [], [], None)

  // ----- The kinds of the responses of a session ------------------------------------

  predicate KindFits(e: Entry) {
    exists served :: RightKind(served, e.req, e.resp)
  }

  lemma {:induction false} KindsFit(sha: Hash, log: seq<Entry>, sid: nat)
    requires Legal(sha, log)
    ensures forall e | e in Of(log, sid) :: KindFits(e)
    decreases |log|
  {
    hide LegalStep, RightKind, After, Consistent;
    if log != [] {
      var before, e := log[..|log| - 1], log[|log| - 1];
      KindsFit(sha, before, sid);
      RunsAreGood(sha, before);
      AnswersAreEncodable(sha, After(sha, before), e);
      assert KindFits(e);
    }
  }

  // ----- The invariant of a connection ----------------------------------------------

  /** The bytes of an unfinished response that the reader has taken or holds. */
  ghost predicate Holds(r: Reader, part: Bytes) {
    if r.readed == 0 then r.sock == part && |part| < PREFIX_SIZE
    else
      && r.readed == PREFIX_SIZE && |part| >= PREFIX_SIZE && r.sock == part[PREFIX_SIZE..]
      && 0 <= r.size < TWO_31 && ReadPrefix(part[..PREFIX_SIZE]) == Some(r.size) && |r.sock| < r.size
  }

  /** An operation ends with its own signal, which tells the outcome the server's last
      answer says, and the client then holds what the server has sent. */
  predicate EndsWith(a: App, op: Operation, s: Signal, answered: seq<(Job, Response)>, calls: nat) {
    if op.UpdateConnectionSettings? then s == Signal.UpdatedConnectionSettings(op.validAddress)
    else
      && answered != []
      && var resp := answered[|answered| - 1].1;
      match op
      case Signin(_, _) =>
        var ok := resp.LoginResult? && resp.profile.Some?;
        s == LoggedIn(ok) && (ok ==> a.profile == resp.profile)
      case Signup(_, _, _) => s == Registered(resp == Status(ACCEPTED))
      case SendMessage(_, _) => s == SendedMessage(resp == Status(ACCEPTED))
      case AddContact(_) => s == Signal.AddedContact(resp == Status(ACCEPTED))
      case CreateChat(_) => s == ChatCreated(resp == Status(ACCEPTED))
      case LoadChats => s == LoadedChats && (resp.Chats? ==> a.chats == Some(resp.chats))
      case LoadContacts => s == LoadedContacts && (resp.Contacts? ==> a.contacts == Some(resp.contacts))
      case LoadMessages(_) => s == LoadedMessages && (resp.Messages? ==> SetOnce(a.listCalls, calls, resp.messages))
      case LoadData =>
        && s == Signal.LoadedData
        && (resp.Chats? ==> a.chats == Some(resp.chats) && HoldsContacts(a, answered[..|answered| - 1]))
      case _ => false
  }

  /** From call `from` on, the list was given `items` once, and nothing else. */
  predicate SetOnce(calls: seq<Call>, from: nat, items: seq<Mesg>) {
    exists i | from <= i < |calls| :: SetAt(calls, from, i, items)
  }

  predicate SetAt(calls: seq<Call>, from: nat, i: nat, items: seq<Mesg>)
    requires from <= i < |calls|
  {
    calls[i] == SetItems(Some(items)) && NothingSet(calls[from..i]) && NothingSet(calls[i + 1..])
  }

  predicate NothingSet(calls: seq<Call>) {
    forall call | call in calls :: call.SetCurrentChatId?
  }

  /** The last answer was contacts, and the client holds them. */
  predicate HoldsContacts(a: App, answered: seq<(Job, Response)>) {
    && answered != []
    && var resp := answered[|answered| - 1].1;
    resp.Contacts? && a.contacts == Some(resp.contacts)
  }

  /** The requests an operation has made so far: one, or for LoadData possibly a second. */
  predicate Trips(op: Operation, made: seq<(Request, Job)>) {
    if op.UpdateConnectionSettings? then made == []
    else
      || made == [(RequestOf(op), JobOf(op))]
      || (op.LoadData? && made == [(GetContacts, LoadDataJob), (GetChats, LoadDataJob)])
  }

  /** One releasing signal, its own, ends an operation; until then there is none. */
  predicate OpInv(a: App, op: Option<Begun>, answered: seq<(Job, Response)>) {
    if op.None? then a.available
    else
      var st := op.value;
      && st.asked <= |a.asked| && Trips(st.op, a.asked[st.asked..])
      && st.signals <= |a.signals| && st.calls <= |a.listCalls|
      && if a.available then
           && |a.signals| == st.signals + 1 && EndsWith(a, st.op, a.signals[st.signals], answered, st.calls)
           && (st.op.LoadData? && |a.asked| - st.asked == 1 ==> !answered[|answered| - 1].1.Contacts?)
         else
           && |a.signals| == st.signals && !st.op.UpdateConnectionSettings?
           && NothingSet(a.listCalls[st.calls..])
           && (|a.asked| - st.asked == 2 ==> HoldsContacts(a, answered))
  }

  /** The client has received whole frames of the first `n` responses, and holds what came of
      the next one. */
  ghost predicate Received(entries: seq<Entry>, n: nat, got: Bytes, r: Reader)
    requires AllSendable(entries) && n <= |entries|
  {
    var whole := Frames(Responses(entries[..n]));
    got <= Frames(Responses(entries)) && whole <= got && Holds(r, got[|whole|..])
  }

  /** The client's side, against the entries of its session in the log. */
  ghost predicate ClientInv(entries: seq<Entry>, l: Channel)
    requires AllSendable(entries)
  {
    var a, n := l.app, |l.answered|;
    && a.connected && AllAskable(a.asked)
    && n <= |entries| <= |a.asked|
    && (forall k | 0 <= k < |entries| :: entries[k].req == a.asked[k].0)
    && (forall k | 0 <= k < n :: l.answered[k] == (a.asked[k].1, entries[k].resp))
    && (if a.available then |a.asked| == n
        else |a.asked| == n + 1 && a.callback == Some(a.asked[n].1))
    && Received(entries, n, l.got, a.reader)
    && OpInv(a, l.op, l.answered)
  }

  ghost predicate ChannelInv(sha: Hash, server: Server, l: Channel) {
    if l.sid.None? then !l.app.connected && l.app.available && l.app.reader.sock == []
    else
      && l.sid.value in server.peers
      && AllSendable(Of(server.log, l.sid.value)) && AllAskable(l.app.asked)
      && ClientInv(Of(server.log, l.sid.value), l)
      && server.peers[l.sid.value].inp <= SentBytes(l.app.asked)
  }

  ghost predicate SystemInv(sha: Hash, s: System) {
    && Inv(sha, s.server)
    && (forall cid | cid in s.channels :: ChannelInv(sha, s.server, s.channels[cid]))
    && (forall c, d | c in s.channels && d in s.channels && s.channels[c].sid.Some? && s.channels[c].sid == s.channels[d].sid :: c == d)
  }

  // ----- The server's steps ---------------------------------------------------------

  /** The requests dispatched so far are the first ones the client made. */
  lemma DispatchedWereAsked(past: Past, p: Peer, working: bool, asked: seq<(Request, Job)>)
    requires PeerInv(past, p, working) && AllAskable(asked) && p.inp <= SentBytes(asked)
    ensures |past.entries| <= |asked|
    ensures forall k | 0 <= k < |past.entries| :: past.entries[k].req == asked[k].0
  {
    hide PeerInv, Sendable, Frames, Unframe;
    PeerInvGivesResult(past, p, working);
    var sent := Asked(RequestsOf(asked));
    assert forall q | q in sent :: Sendable(q);
    UnframeOfPrefix(p.inp[..p.taken], sent);
    assert Asked(p.reqs) <= sent;
    forall k | 0 <= k < |past.entries|
      ensures past.entries[k].req == asked[k].0
    {
      assert Requests(past.entries)[k] == p.reqs[k];
      assert Asked(p.reqs)[k] == sent[k];
    }
  }

  /** More entries in the log take nothing from a client. */
  lemma ClientSeesMore(entries: seq<Entry>, more: seq<Entry>, l: Channel)
    requires AllSendable(entries) && AllSendable(more) && entries <= more && ClientInv(entries, l)
    requires |more| <= |l.app.asked| && forall k | 0 <= k < |more| :: more[k].req == l.app.asked[k].0
    ensures ClientInv(more, l)
  {
    hide Sendable, Frames, Holds, OpInv;
    var n := |l.answered|;
    assert more[..n] == entries[..n];
    var rest := more[|entries|..];
    assert Responses(more) == Responses(entries) + Responses(rest);
    FramesAppend(Responses(entries), Responses(rest));
  }

  lemma LogGrows(sha: Hash, s: Server, sid: nat, ev: Event, other: nat)
    requires Inv(sha, s) && Enabled(sha, s, sid, ev)
    ensures Of(s.log, other) <= Of(Do(sha, s, sid, ev).log, other)
  {
    hide Inv, Transaction;
    if ev.Commit? {
      var log := Do(sha, s, sid, ev).log;
      assert log[..|log| - 1] == s.log;
    }
  }

  lemma ServeKeepsChannel(sha: Hash, s: Server, sid: nat, ev: Event, l: Channel)
    requires Inv(sha, s) && Enabled(sha, s, sid, ev) && ChannelInv(sha, s, l)
    requires l.sid == Some(sid) && (ev.PrefixDone? || ev.MessageDone?) ==>
               s.peers[sid].inp + ev.data <= SentBytes(l.app.asked)
    ensures ChannelInv(sha, Do(sha, s, sid, ev), l)
  {
    hide PeerInv, Legal, After, ClientInv, Transaction, Answers, Fresh, Sendable, Frames;
    if l.sid.Some? {
      var x, t := l.sid.value, Do(sha, s, sid, ev);
      StepKeepsInv(sha, s, sid, ev);
      LogGrows(sha, s, sid, ev, x);
      assert t.peers[x].inp <= SentBytes(l.app.asked);
      PeerIsSendable(sha, t, x);
      DispatchedWereAsked(PastOf(sha, t.log, x), t.peers[x], x in t.busy, l.app.asked);
      ClientSeesMore(Of(s.log, x), Of(t.log, x), l);
    }
  }

  lemma PeerIsSendable(sha: Hash, s: Server, sid: nat)
    requires Inv(sha, s) && sid in s.peers
    ensures AllSendable(Of(s.log, sid))
  {
    hide Legal, After, Sendable;
    assert PeerInv(PastOf(sha, s.log, sid), s.peers[sid], sid in s.busy);
  }

  lemma ServeKeeps(sha: Hash, s: System, sid: nat, ev: Event)
    requires SystemInv(sha, s) && CanServe(sha, s, sid, ev)
    ensures SystemInv(sha, Moved(sha, s, Serve(sid, ev)))
  {
    hide Inv, ChannelInv, Enabled, Do, Sendable, SentBytes;
    StepKeepsInv(sha, s.server, sid, ev);
    forall cid | cid in s.channels
      ensures ChannelInv(sha, Do(sha, s.server, sid, ev), s.channels[cid])
    {
      ServeKeepsChannel(sha, s.server, sid, ev, s.channels[cid]);
    }
  }

  // ----- Connections and operations -------------------------------------------------

  lemma NewConnection(l: Channel)
    requires !l.app.connected && l.app.available && Idle(l.app.reader)
    ensures ClientInv([], Channel(Connected(l.app), Some(0), [], [], None))
  {
    assert Frames(Responses([])) == [];
  }

  lemma NewSession(sha: Hash, s: Server, sid: nat)
    requires Inv(sha, s) && Enabled(sha, s, sid, Accept)
    ensures var t := Do(sha, s, sid, Accept);
            sid in t.peers && t.peers[sid].inp == [] && t.log == s.log && Of(t.log, sid) == []
  {
    hide Legal, After, PeerInv;
    assert PastOf(sha, s.log, sid) == Past([], None);
  }

  lemma NewChannel(sha: Hash, s: Server, sid: nat, l: Channel)
    requires sid in s.peers && s.peers[sid].inp == [] && Of(s.log, sid) == []
    requires !l.app.connected && l.app.available && Idle(l.app.reader)
    ensures ChannelInv(sha, s, Channel(Connected(l.app), Some(sid), [], [], None))
  {
    hide ClientInv, Frames;
    NewConnection(l);
    ClientKeepsSession([], Channel(Connected(l.app), Some(0), [], [], None), sid);
  }

  lemma ClientKeepsSession(entries: seq<Entry>, l: Channel, sid: nat)
    requires AllSendable(entries) && ClientInv(entries, l)
    ensures ClientInv(entries, l.(sid := Some(sid)))
  {
    hide Frames, Holds, OpInv, Sendable;
  }

  lemma ConnectKeeps(sha: Hash, s: System, cid: nat, sid: nat)
    requires SystemInv(sha, s) && CanMove(sha, s, Connect(cid, sid))
    ensures SystemInv(sha, Moved(sha, s, Connect(cid, sid)))
  {
    hide Inv, ClientInv, Sendable, Transaction, Answers, Advance;
    ServeKeeps(sha, s, sid, Accept);
    NewSession(sha, s.server, sid);
    assert ChannelInv(sha, s.server, s.channels[cid]);
    NewChannel(sha, Do(sha, s.server, sid, Accept), sid, s.channels[cid]);
  }

  lemma OperateKeeps(entries: seq<Entry>, l: Channel, op: Operation, inp: Bytes)
    requires l.sid.Some? && AllSendable(entries) && ClientInv(entries, l) && inp <= SentBytes(l.app.asked)
    requires !op.UpdateConnectionSettings? ==> Sendable(ARequest(RequestOf(op)))
    ensures var l' := ChannelOperates(l, op);
            if l'.sid.None? then l'.app.reader.sock == [] && l'.app.available && !l'.app.connected
            else l'.sid == l.sid && ClientInv(entries, l') && inp <= SentBytes(l'.app.asked)
  {
    hide Sendable, Holds, Frames;
    var l' := ChannelOperates(l, op);
    var asked, asked' := l.app.asked, l'.app.asked;
    if l.app.available && !op.UpdateConnectionSettings? {
      assert asked' == asked + [(RequestOf(op), JobOf(op))];
      assert asked'[|asked|..] == [(RequestOf(op), JobOf(op))];
      assert Asked(RequestsOf(asked')) == Asked(RequestsOf(asked)) + [ARequest(RequestOf(op))];
      FramesSnoc(Asked(RequestsOf(asked)), ARequest(RequestOf(op)));
    }
  }

  lemma OneMoreSelected(calls: seq<Call>, from: nat, items: seq<Mesg>, chat: U64)
    requires from <= |calls|
    ensures NothingSet(calls[from..]) ==> NothingSet((calls + [SetCurrentChatId(chat)])[from..])
    ensures SetOnce(calls, from, items) ==> SetOnce(calls + [SetCurrentChatId(chat)], from, items)
  {
    var all := calls + [SetCurrentChatId(chat)];
    assert all[from..] == calls[from..] + [SetCurrentChatId(chat)];
    if SetOnce(calls, from, items) {
      var i :| from <= i < |calls| && SetAt(calls, from, i, items);
      assert all[from..i] == calls[from..i] && all[i + 1..] == calls[i + 1..] + [SetCurrentChatId(chat)];
      assert SetAt(all, from, i, items);
    }
  }

  lemma SelectKeeps(entries: seq<Entry>, l: Channel, chat: U64)
    requires AllSendable(entries) && ClientInv(entries, l)
    ensures ClientInv(entries, ChannelSelects(l, chat))
  {
    hide Sendable, Holds, Frames, SetOnce, NothingSet;
    if l.op.Some? {
      var resp := if l.answered == [] then NoResponse else l.answered[|l.answered| - 1].1;
      OneMoreSelected(l.app.listCalls, l.op.value.calls, if resp.Messages? then resp.messages else [], chat);
    }
  }

  // ----- A response arrives ---------------------------------------------------------

  lemma OutgoingIsFramed(past: Past, p: Peer, working: bool)
    requires PeerInv(past, p, working)
    ensures Outgoing(p) <= Frames(Responses(past.entries))
  {
    hide PeerInv, Sendable, Frames, Unframe, Frame;
    PeerInvGivesResult(past, p, working);
    if WriteOut in p.conn.todo {
      OnlyTask(past, p, working, WriteOut);
      var n := |past.entries| - 1;
      assert Responses(past.entries) == Responses(past.entries[..n]) + [AResponse(past.entries[n].resp)];
      FramesSnoc(Responses(past.entries[..n]), AResponse(past.entries[n].resp));
    }
  }

  /** A notification while one response is on its way. */
  lemma NotifyMidFrame(p: Packet, r: Reader, part: Bytes, chunk: Bytes)
    requires Sendable(p) && Holds(r, part) && part + chunk <= Frame(p) && Chunking(r, chunk)
    ensures var o := Notify(r, chunk);
            && !o.aborted
            && if part + chunk == Frame(p) then o.loaded == Some(PacketBytes(p)) && Idle(o.reader)
               else o.loaded.None? && Holds(o.reader, part + chunk)
  {
    hide ReadPacket, ReadPrefix, PacketBytes, Frame;
    FrameParts(p);
    PacketRoundTrip(p);
    var f, now := Frame(p), part + chunk;
    assert now == f[..|now|];
    if |now| >= PREFIX_SIZE {
      assert now[..PREFIX_SIZE] == f[..PREFIX_SIZE];
      assert now[PREFIX_SIZE..] == PacketBytes(p)[..|now| - PREFIX_SIZE];
      if r.readed == 0 {
        assert r.sock + chunk == now;
      } else {
        assert part[..PREFIX_SIZE] == now[..PREFIX_SIZE];
        assert r.sock + chunk == now[PREFIX_SIZE..];
      }
      assert |now| == |f| ==> now == f && now[PREFIX_SIZE..] == PacketBytes(p);
    } else {
      assert r.sock + chunk == now;
    }
  }

  /** The callback of a job whose operation makes one request ends it. */
  lemma CallbackEndsOperation(a: App, op: Operation, resp: Response, answered: seq<(Job, Response)>, calls: nat)
    requires !op.UpdateConnectionSettings? && !op.LoadData?
    requires calls <= |a.listCalls| && NothingSet(a.listCalls[calls..])
    requires answered != [] && answered[|answered| - 1].1 == resp
    ensures var b := Callback(a, JobOf(op), resp);
            && b.available && b.connected == a.connected && b.reader == a.reader && b.asked == a.asked
            && calls <= |b.listCalls|
            && |b.signals| == |a.signals| + 1 && EndsWith(b, op, b.signals[|a.signals|], answered, calls)
  {
    hide NothingSet;
    match op
    case Signin(_, _) =>
    case Signup(_, _, _) =>
    case SendMessage(_, _) =>
    case AddContact(_) =>
    case LoadChats =>
    case LoadContacts =>
    case LoadMessages(_) =>
      if resp.Messages? {
        SetJustNow(a.listCalls, calls, resp.messages);
      }
    case CreateChat(_) =>
  }

  lemma SetJustNow(calls: seq<Call>, from: nat, items: seq<Mesg>)
    requires from <= |calls| && NothingSet(calls[from..])
    ensures SetOnce(calls + [SetItems(Some(items))], from, items)
  {
    var all, i := calls + [SetItems(Some(items))], |calls|;
    assert all[from..i] == calls[from..] && all[i + 1..] == [];
    assert SetAt(all, from, i, items);
  }

  /** LoadData's callback ends it unless it is given contacts, when it asks for chats. */
  lemma CallbackContinues(a: App, resp: Response)
    requires a.connected && !a.available
    ensures var b := Callback(a, LoadDataJob, resp);
            && b.connected && b.reader == a.reader && b.listCalls == a.listCalls
            && b.contacts == (if resp.Contacts? then Some(resp.contacts) else a.contacts)
            && b.chats == (if resp.Chats? then Some(resp.chats) else a.chats)
            && if resp.Contacts? then
                 && !b.available && b.asked == a.asked + [(GetChats, LoadDataJob)]
                 && b.callback == Some(LoadDataJob) && b.signals == a.signals
               else b.available && b.asked == a.asked && b.signals == a.signals + [Signal.LoadedData]
  {
  }

  /** The callback of the request in flight either ends the operation with its signal, or is
      LoadData's first and makes the second request. */
  lemma CallbackEnds(a: App, op: Option<Begun>, answered: seq<(Job, Response)>, resp: Response, served: bool)
    requires a.connected && !a.available && a.asked != [] && OpInv(a, op, answered)
    requires a.callback == Some(a.asked[|a.asked| - 1].1)
    requires RightKind(served, a.asked[|a.asked| - 1].0, resp)
    ensures var b := Process(a, AResponse(resp));
            && b.connected && b.reader == a.reader && OpInv(b, op, answered + [(a.callback.value, resp)])
            && if b.available then b.asked == a.asked
               else b.asked == a.asked + [(GetChats, LoadDataJob)] && b.callback == Some(LoadDataJob)
  {
    hide Callback;
    var st, b, all := op.value, Process(a, AResponse(resp)), answered + [(a.callback.value, resp)];
    assert all[..|all| - 1] == answered && all[|all| - 1].1 == resp;
    var made := a.asked[st.asked..];
    assert made[|made| - 1] == a.asked[|a.asked| - 1];
    if st.op.LoadData? {
      CallbackContinues(a, resp);
      if !b.available {
        assert b.asked[st.asked..] == made + [(GetChats, LoadDataJob)];
      }
    } else {
      CallbackEndsOperation(a, st.op, resp, all, st.calls);
    }
  }

  lemma QuietNotify(r: Reader)
    requires Holds(r, [])
    ensures Notify(r, []) == Outcome(r, None, false)
  {
    assert r.sock + [] == r.sock;
  }

  lemma CancelPrefix(a: Bytes, b: Bytes, c: Bytes)
    requires a + b <= a + c
    ensures b <= c
  {
    assert (a + b)[|a|..] == b && (a + c)[|a|..] == c;
    assert a + b == (a + c)[..|a + b|];
    assert b == c[..|b|];
  }

  /** No response is on its way: nothing can arrive. */
  lemma NothingArrives(entries: seq<Entry>, l: Channel, chunk: Bytes)
    requires AllSendable(entries) && ClientInv(entries, l) && |entries| == |l.answered|
    requires l.got + chunk <= Frames(Responses(entries))
    ensures ChannelArrives(l, chunk) == l
  {
    hide Sendable, Frames, ReadPacket, OpInv, Process, OnReadyRead;
    assert entries[..|entries|] == entries;
    assert chunk == [];
    QuietNotify(l.app.reader);
    assert l.app.reader.sock + [] == l.app.reader.sock && l.got + [] == l.got && l.answered + [] == l.answered;
  }

  /** A part of the one response on its way arrives, or the rest of it. */
  lemma ResponseArrives(entries: seq<Entry>, l: Channel, chunk: Bytes)
    requires AllSendable(entries) && ClientInv(entries, l) && |entries| == |l.answered| + 1
    requires l.got + chunk <= Frames(Responses(entries)) && Chunking(l.app.reader, chunk)
    ensures var p, n := AResponse(entries[|l.answered|].resp), |l.answered|;
            var o, got := Notify(l.app.reader, chunk), l.got + chunk;
            && !o.aborted
            && if got == Frames(Responses(entries)) then o.loaded == Some(PacketBytes(p)) && Idle(o.reader)
               else o.loaded.None? && Frames(Responses(entries[..n])) <= got
                    && Holds(o.reader, got[|Frames(Responses(entries[..n]))|..])
  {
    hide Sendable, Frames, Frame, ReadPacket, PacketBytes, OpInv, Notify, Holds;
    var n := |l.answered|;
    var before, p := Frames(Responses(entries[..n])), AResponse(entries[n].resp);
    var part := l.got[|before|..];
    assert l.got == before + part;
    assert Responses(entries) == Responses(entries[..n]) + [p];
    FramesSnoc(Responses(entries[..n]), p);
    assert l.got + chunk == before + (part + chunk);
    CancelPrefix(before, part + chunk, Frame(p));
    NotifyMidFrame(p, l.app.reader, part, chunk);
    assert (l.got + chunk)[|before|..] == part + chunk;
  }

  /** A second request only adds to what the client has sent. */
  lemma AsksAgain(asked: seq<(Request, Job)>, inp: Bytes)
    requires AllAskable(asked) && inp <= SentBytes(asked)
    ensures AllAskable(asked + [(GetChats, LoadDataJob)]) && inp <= SentBytes(asked + [(GetChats, LoadDataJob)])
  {
    hide Sendable, Frames;
    ChatsRequestIsSmall();
    var asked' := asked + [(GetChats, LoadDataJob)];
    assert Asked(RequestsOf(asked')) == Asked(RequestsOf(asked)) + [ARequest(GetChats)];
    FramesSnoc(Asked(RequestsOf(asked)), ARequest(GetChats));
  }

  /** The rest of the response has arrived: its callback runs. */
  lemma CallbackRuns(a: App, o: Outcome, chunk: Bytes, resp: Response)
    requires Sendable(AResponse(resp)) && o == Notify(a.reader, chunk) && !o.aborted
    requires o.loaded == Some(PacketBytes(AResponse(resp))) && a.callback.Some?
    ensures Receive(a, chunk) == Process(a.(reader := o.reader), AResponse(resp))
    ensures Ran(a, chunk) == [(a.callback.value, resp)]
  {
    hide PacketBytes, ReadPacket, OnReadyRead, Process;
    PacketRoundTrip(AResponse(resp));
  }

  lemma ResponseDelivered(entries: seq<Entry>, l: Channel, chunk: Bytes, inp: Bytes)
    requires AllSendable(entries) && ClientInv(entries, l) && inp <= SentBytes(l.app.asked)
    requires |entries| == |l.answered| + 1 && KindFits(entries[|l.answered|])
    requires l.got + chunk == Frames(Responses(entries)) && Chunking(l.app.reader, chunk)
    ensures var l' := ChannelArrives(l, chunk);
            l'.sid == l.sid && ClientInv(entries, l') && inp <= SentBytes(l'.app.asked)
  {
    hide Sendable, Frames, ReadPacket, PacketBytes, OpInv, RightKind, Process, Notify, Receive, Ran;
    var a, n, o := l.app, |l.answered|, Notify(l.app.reader, chunk);
    var resp := entries[n].resp;
    ResponseArrives(entries, l, chunk);
    CallbackRuns(a, o, chunk, resp);
    var served :| RightKind(served, entries[n].req, resp);
    var b0 := a.(reader := o.reader);
    OpIgnoresReader(a, o.reader, l.op, l.answered);
    CallbackEnds(b0, l.op, l.answered, resp, served);
    AsksAgain(a.asked, inp);
    var l', b := ChannelArrives(l, chunk), Process(b0, AResponse(resp));
    assert l' == l.(app := b, got := l.got + chunk, answered := l.answered + [(a.asked[n].1, resp)]);
    assert entries[..n + 1] == entries;
  }

  lemma OpIgnoresReader(a: App, r: Reader, op: Option<Begun>, answered: seq<(Job, Response)>)
    ensures OpInv(a, op, answered) == OpInv(a.(reader := r), op, answered)
  {
  }

  lemma PartArrives(entries: seq<Entry>, l: Channel, chunk: Bytes)
    requires AllSendable(entries) && ClientInv(entries, l) && |entries| == |l.answered| + 1
    requires l.got + chunk <= Frames(Responses(entries)) && l.got + chunk != Frames(Responses(entries))
    requires Chunking(l.app.reader, chunk)
    ensures var l' := ChannelArrives(l, chunk);
            l'.sid == l.sid && ClientInv(entries, l') && l'.app.asked == l.app.asked
  {
    hide Sendable, Frames, ReadPacket, PacketBytes, OpInv, OnReadyRead, Process;
    ResponseArrives(entries, l, chunk);
    var o, l' := Notify(l.app.reader, chunk), ChannelArrives(l, chunk);
    OpIgnoresReader(l.app, o.reader, l.op, l.answered);
    assert l' == l.(app := l.app.(reader := o.reader), got := l.got + chunk, answered := l.answered + []);
    assert l.answered + [] == l.answered;
  }

  lemma ArriveKeeps(entries: seq<Entry>, l: Channel, chunk: Bytes, inp: Bytes)
    requires AllSendable(entries) && ClientInv(entries, l) && inp <= SentBytes(l.app.asked)
    requires l.got + chunk <= Frames(Responses(entries)) && Chunking(l.app.reader, chunk)
    requires forall e | e in entries :: KindFits(e)
    ensures var l' := ChannelArrives(l, chunk);
            l'.sid == l.sid && AllAskable(l'.app.asked) && ClientInv(entries, l') && inp <= SentBytes(l'.app.asked)
  {
    hide ChannelArrives, Sendable, Frames, Holds, OpInv, KindFits, Chunking, SentBytes;
    if |entries| == |l.answered| {
      NothingArrives(entries, l, chunk);
    } else if l.got + chunk == Frames(Responses(entries)) {
      ResponseDelivered(entries, l, chunk, inp);
    } else {
      PartArrives(entries, l, chunk);
    }
  }

  // ----- Every move -----------------------------------------------------------------

  /** A client's own move leaves the server and the other channels alone. */
  lemma ChannelMoves(sha: Hash, s: System, cid: nat, l: Channel)
    requires SystemInv(sha, s) && cid in s.channels && ChannelInv(sha, s.server, l)
    requires l.sid.Some? ==> l.sid == s.channels[cid].sid
    ensures SystemInv(sha, s.(channels := s.channels[cid := l]))
  {
    hide ChannelInv, Inv;
  }

  lemma MoveKeepsInv(sha: Hash, s: System, m: Move)
    requires SystemInv(sha, s) && CanMove(sha, s, m)
    ensures SystemInv(sha, Moved(sha, s, m))
  {
    hide Inv, ClientInv, Enabled, Do, Sendable, ChannelArrives, Frames, Chunking, KindFits;
    match m
    case Serve(sid, ev) => ServeKeeps(sha, s, sid, ev);
    case Connect(cid, sid) => ConnectKeeps(sha, s, cid, sid);
    case Operate(cid, op) =>
      var l := s.channels[cid];
      if l.sid.Some? {
        OperateKeeps(Of(s.server.log, l.sid.value), l, op, s.server.peers[l.sid.value].inp);
      }
      ChannelMoves(sha, s, cid, ChannelOperates(l, op));
    case Select(cid, chat) =>
      var l := s.channels[cid];
      if l.sid.Some? {
        SelectKeeps(Of(s.server.log, l.sid.value), l, chat);
      }
      ChannelMoves(sha, s, cid, ChannelSelects(l, chat));
    case Arrive(cid, chunk) =>
      var l := s.channels[cid];
      var sid := l.sid.value;
      assert ChannelInv(sha, s.server, l);
      ServerSide(sha, s.server, sid);
      ArriveKeeps(Of(s.server.log, sid), l, chunk, s.server.peers[sid].inp);
      ChannelMoves(sha, s, cid, ChannelArrives(l, chunk));
    case Drop(cid, error) =>
      var l := s.channels[cid];
      assert l.app.connected by { IsConnected(sha, s.server, l); }
      ChannelMoves(sha, s, cid, ChannelDrops(l, error));
  }

  lemma IsConnected(sha: Hash, s: Server, l: Channel)
    requires ChannelInv(sha, s, l) && l.sid.Some?
    ensures l.app.connected
  {
  }

  lemma ServerSide(sha: Hash, s: Server, sid: nat)
    requires Inv(sha, s) && sid in s.peers
    ensures AllSendable(Of(s.log, sid)) && Outgoing(s.peers[sid]) <= Frames(Responses(Of(s.log, sid)))
    ensures forall e | e in Of(s.log, sid) :: KindFits(e)
  {
    hide Legal, After, Sendable, PeerInv, KindFits, Outgoing, Frames;
    PeerIsSendable(sha, s, sid);
    OutgoingIsFramed(PastOf(sha, s.log, sid), s.peers[sid], sid in s.busy);
    KindsFit(sha, s.log, sid);
  }

  // ----- Runs -----------------------------------------------------------------------

  /** A server without connections and clients that have done nothing. */
  predicate JustStarted(s: System) {
    s.server == INITIAL && forall cid | cid in s.channels :: s.channels[cid] == NEW_CHANNEL
  }

  ghost predicate SystemRun(sha: Hash, states: seq<System>, moves: seq<Move>) {
    && |states| == |moves| + 1 && JustStarted(states[0])
    && forall i | 0 <= i < |moves| :: CanMove(sha, states[i], moves[i]) && states[i + 1] == Moved(sha, states[i], moves[i])
  }

  ghost predicate SystemReachable(sha: Hash, s: System) {
    exists states, moves :: SystemRun(sha, states, moves) && states[|moves|] == s
  }

  lemma FreshInv(sha: Hash, s: System)
    requires JustStarted(s)
    ensures SystemInv(sha, s)
  {
    hide Inv;
    InitialInv(sha);
  }

  lemma {:induction false} SystemRunKeepsInv(sha: Hash, states: seq<System>, moves: seq<Move>)
    requires SystemRun(sha, states, moves)
    ensures SystemInv(sha, states[|moves|])
    decreases |moves|
  {
    hide SystemInv, CanMove, Moved, JustStarted;
    if moves == [] {
      FreshInv(sha, states[0]);
    } else {
      var n := |moves| - 1;
      SystemRunKeepsInv(sha, states[..n + 1], moves[..n]);
      MoveKeepsInv(sha, states[n], moves[n]);
    }
  }

  lemma SystemReachableInv(sha: Hash, s: System)
    requires SystemReachable(sha, s)
    ensures SystemInv(sha, s)
  {
    hide SystemInv, CanMove, Moved, JustStarted;
    var states, moves :| SystemRun(sha, states, moves) && states[|moves|] == s;
    SystemRunKeepsInv(sha, states, moves);
  }

  // ----- Main results ---------------------------------------------------------------

  /** On every connection at most one request is in flight, and the facade is available
      exactly when none is. The k-th callback that ran is the one registered with the k-th
      request sent, and it was given the response that the server committed for that
      request. */
  lemma AtMostOneInFlight(sha: Hash, s: System, cid: nat, sid: nat)
    requires SystemReachable(sha, s) && cid in s.channels && s.channels[cid].sid == Some(sid)
    ensures var l, es := s.channels[cid], Of(s.server.log, sid);
            var asked := l.app.asked;
            && |l.answered| <= |es| <= |asked| <= |l.answered| + 1
            && (l.app.available <==> |asked| == |l.answered|)
            && (!l.app.available ==> l.app.callback == Some(asked[|asked| - 1].1))
            && (forall k | 0 <= k < |es| :: es[k].req == asked[k].0)
            && (forall k | 0 <= k < |l.answered| :: l.answered[k] == (asked[k].1, es[k].resp))
  {
    hide SystemReachable, Inv, Frames, Sendable, Holds, OpInv;
    SystemReachableInv(sha, s);
    assert ChannelInv(sha, s.server, s.channels[cid]);
  }

  /** While the connection lasts, an operation makes one request, LoadData at most two, and
      emits one signal: its own, at its end, which is when the facade becomes available
      again. The signal tells the outcome the server has answered, and what was loaded is
      what the server has sent. */
  lemma OneReleasePerOperation(sha: Hash, s: System, cid: nat, st: Begun)
    requires SystemReachable(sha, s) && cid in s.channels && s.channels[cid].sid.Some? && s.channels[cid].op == Some(st)
    ensures var a := s.channels[cid].app;
            && st.asked <= |a.asked| <= st.asked + (if st.op.LoadData? then 2 else 1)
            && st.signals <= |a.signals|
            && Trips(st.op, a.asked[st.asked..])
            && (a.available <==> |a.signals| == st.signals + 1)
            && (a.available ==> st.calls <= |a.listCalls| && EndsWith(a, st.op, a.signals[st.signals], s.channels[cid].answered, st.calls))
            && (!a.available ==> |a.signals| == st.signals)
  {
    hide SystemReachable, Inv, Frames, Sendable, Holds;
    SystemReachableInv(sha, s);
    var l := s.channels[cid];
    assert ChannelInv(sha, s.server, l);
    assert |l.app.asked[st.asked..]| == |l.app.asked| - st.asked;
  }

  /** Of the calls since `from`, the one that set `items` decides: `items` is now filed under
      the chat that was current then. */
  lemma SetOnceFiles(calls: seq<Call>, from: nat, i: nat, items: seq<Mesg>, chat: U64)
    requires from <= i < |calls| && SetAt(calls, from, i, items)
    ensures LastSet(calls, CurrentChat(calls[..i])) == Some(items)
    ensures LastSet(calls, chat) == Some(items) <==>
            CurrentChat(calls[..i]) == chat || LastSet(calls[..i], chat) == Some(items)
  {
    hide LastSet, CurrentChat;
    var before, current := calls[..i], CurrentChat(calls[..i]);
    assert calls == before + [SetItems(Some(items))] + calls[i + 1..];
    SelectingFilesNothing(before + [SetItems(Some(items))], calls[i + 1..], chat);
    SelectingFilesNothing(before + [SetItems(Some(items))], calls[i + 1..], current);
    FiledUnderIff(before, chat, items);
    FiledUnderIff(before, current, items);
  }

  /** The answer to LoadMessages(chat) is given to the message list in one call `i`. From then
      on until the next operation it is filed under the chat that was current at call `i`; so
      it is filed under `chat` if and only if `chat` was current then, or it was there before. */
  lemma LoadedMessagesFiledIff(sha: Hash, s: System, cid: nat, st: Begun, items: seq<Mesg>) returns (i: nat)
    requires SystemReachable(sha, s) && cid in s.channels && s.channels[cid].sid.Some? && s.channels[cid].op == Some(st)
    requires st.op.LoadMessages? && s.channels[cid].app.available
    requires var answered := s.channels[cid].answered; answered != [] && answered[|answered| - 1].1 == Messages(items)
    ensures var calls := s.channels[cid].app.listCalls;
            && st.calls <= i < |calls| && SetAt(calls, st.calls, i, items)
            && LastSet(calls, CurrentChat(calls[..i])) == Some(items)
            && (LastSet(calls, st.op.chatId) == Some(items) <==>
                CurrentChat(calls[..i]) == st.op.chatId || LastSet(calls[..i], st.op.chatId) == Some(items))
  {
    hide SystemReachable, Inv, Frames, Sendable, Holds, SetAt, LastSet, CurrentChat;
    OneReleasePerOperation(sha, s, cid, st);
    var calls := s.channels[cid].app.listCalls;
    i :| st.calls <= i < |calls| && SetAt(calls, st.calls, i, items);
    SetOnceFiles(calls, st.calls, i, items, st.op.chatId);
  }

  /** Besides its loss, only new connection settings with a valid address end a connection:
      no arriving bytes do, and no other operation. */
  lemma ConnectionLasts(sha: Hash, s: System, m: Move, cid: nat)
    requires SystemReachable(sha, s) && CanMove(sha, s, m) && cid in s.channels && s.channels[cid].sid.Some?
    ensures var l, l' := s.channels[cid], Moved(sha, s, m).channels[cid];
            if (m.Drop? && m.cid == cid) || (m == Operate(cid, UpdateConnectionSettings(true)) && l.app.available)
            then l'.sid.None? && !l'.app.connected && l'.app.available
            else l'.sid == l.sid && l'.app.connected
  {
    hide SystemReachable, Inv, Frames, Sendable, ChannelArrives, Enabled, Do, Holds, OpInv, Chunking, KindFits;
    SystemReachableInv(sha, s);
    assert ChannelInv(sha, s.server, s.channels[cid]);
    if m.Arrive? && m.cid == cid {
      var l := s.channels[cid];
      var sid := l.sid.value;
      ServerSide(sha, s.server, sid);
      ArriveKeeps(Of(s.server.log, sid), l, m.chunk, s.server.peers[sid].inp);
      assert ClientInv(Of(s.server.log, sid), ChannelArrives(l, m.chunk));
    }
  }

  /** A new connection is announced, and nothing is under way on it. */
  lemma ConnectionStarts(sha: Hash, s: System, cid: nat, sid: nat)
    requires SystemReachable(sha, s) && CanMove(sha, s, Connect(cid, sid))
    ensures var l, l' := s.channels[cid], Moved(sha, s, Connect(cid, sid)).channels[cid];
            && l'.sid == Some(sid) && l'.app.connected && l'.app.available
            && l'.app.asked == [] && l'.answered == [] && l'.app.signals == l.app.signals + [ShowMessage]
  {
    hide SystemReachable, Inv, Sendable, Enabled, Do;
    SystemReachableInv(sha, s);
    assert ChannelInv(sha, s.server, s.channels[cid]);
  }
}
