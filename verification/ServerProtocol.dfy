/**
 The concurrent server: any number of sessions, one I/O loop and a pool of two workers,
 as a nondeterministic step relation. Every step completes one outstanding activity of one
 session; a storage call is one step, apart from the step that reads the session state for
 it and the step that writes its response.

 An invariant of every reachable state shows that the sessions and the tables are those
 of the committed requests run one at a time, in commit order, by module ServerSpec.
 */
module ServerProtocol {
  import opened Basics
  import opened Schema
  import opened Codec
  import opened Protocol
  import opened Framing
  import opened Relations
  import opened ServerSpec
  import opened ServerSession

  const WORKER_THREADS: nat := 2

  /** A connection with its history: all bytes read from and written to its socket, the
      requests dispatched, and how many of the bytes read they account for. */
  datatype Peer = Peer(conn: Conn, inp: Bytes, out: Bytes, reqs: seq<Request>, taken: nat)

  /** `busy` holds the sessions for which a worker is running; `log` the storage calls in
      the order they were made. */
  datatype Server = Server(db: Db, peers: map<nat, Peer>, busy: set<nat>, log: seq<Entry>)

  const INITIAL := Server(EMPTY_DB, map[], {}, [])

  datatype Event =
    | Accept
    | PrefixDone(err: bool, data: Bytes)
    | MessageDone(size: U64, err: bool, data: Bytes)
    | ParseStart
    | ParseEnd
    | JobStart(req: Request)
    | Commit(req: Request, me: Who, tx: Tx, resp: Response)
    | JobEnd(req: Request, resp: Response)
    | WriteDone(err: bool, count: nat)

  // ----- Steps ----------------------------------------------------------------------

  /** The activity that the event completes or moves on. */
  function Subject(ev: Event): Task
    requires !ev.Accept?
  {
    match ev
    case PrefixDone(_, _) => PrefixRead
    case MessageDone(size, _, _) => MessageRead(size)
    case ParseStart => ParseQueued
    case ParseEnd => ParseRunning
    case JobStart(req) => JobQueued(req)
    case Commit(req, me, _, _) => JobRunning(req, me)
    case JobEnd(req, resp) => JobCommitted(req, resp)
    case WriteDone(_, _) => WriteOut
  }

  /** What ASIO, the pool and the database allow. Response sizes stay below 2 GiB. */
  ghost predicate Enabled(sha: Hash, s: Server, sid: nat, ev: Event) {
    if ev.Accept? then sid !in s.peers
    else
      sid in s.peers && Subject(ev) in s.peers[sid].conn.todo &&
      var c := s.peers[sid].conn;
      match ev
      case PrefixDone(err, data) => |data| <= |c.buffer|
      case MessageDone(size, err, data) => |data| <= |c.buffer|
      case ParseStart => |s.busy| < WORKER_THREADS
      case ParseEnd => true
      case JobStart(req) => |s.busy| < WORKER_THREADS
      case Commit(req, me, tx, resp) =>
        && Fresh(s.db, tx) && Answers(sha, s.db, me, req, tx, resp)
        && (ValidResponse(resp) ==> |PacketBytes(AResponse(resp))| < TWO_31)
      case JobEnd(req, resp) => Sendable(AResponse(resp))
      case WriteDone(err, count) => count <= |c.buffer| && (!err ==> count == |c.buffer|)
  }

  function Finish(c: Conn, t: Task): Conn { c.(todo := c.todo - multiset{t}) }

  function Dispatched(p: Peer): Peer {
    var c := Finish(p.conn, ParseRunning);
    if Decodable(c.buffer)
    then p.(conn := AfterParse(c), reqs := p.reqs + [ReadPacket(c.buffer).value.request], taken := |p.inp|)
    else p.(conn := AfterParse(c))
  }

  /** The session after the event. */
  function Advance(p: Peer, ev: Event): Peer
    requires ev.PrefixDone? || ev.MessageDone? ==> |ev.data| <= |p.conn.buffer|
    requires ev.JobEnd? ==> Sendable(AResponse(ev.resp))
    requires ev.WriteDone? ==> ev.count <= |p.conn.buffer|
  {
    if ev.Accept? then Peer(Started(NEW_CONN), [], [], [], 0)
    else
      var c := Finish(p.conn, Subject(ev));
      match ev
      case PrefixDone(err, data) => p.(conn := AfterPrefix(c, err, data), inp := p.inp + data)
      case MessageDone(size, err, data) => p.(conn := AfterMessage(c, err, data, size), inp := p.inp + data)
      case ParseStart => p.(conn := Begin(c, ParseRunning))
      case ParseEnd => Dispatched(p)
      case JobStart(req) => p.(conn := Begin(c, JobRunning(req, c.who)))
      case Commit(req, _, _, resp) => p.(conn := Begin(c, JobCommitted(req, resp)))
      case JobEnd(_, resp) => p.(conn := Respond(c, resp))
      case WriteDone(err, count) => p.(conn := AfterWrite(c, err), out := p.out + p.conn.buffer[..count])
  }

  function Workers(busy: set<nat>, sid: nat, ev: Event): set<nat> {
    if ev.ParseStart? || ev.JobStart? then busy + {sid}
    else if ev.ParseEnd? || ev.JobEnd? then busy - {sid}
    else busy
  }

  const NOBODY := Peer(NEW_CONN, [], [], [], 0)

  ghost function Do(sha: Hash, s: Server, sid: nat, ev: Event): Server
    requires Enabled(sha, s, sid, ev)
  {
    Server(
      if ev.Commit? then Transaction(sha, s.db, ev.me, ev.req, ev.tx).db else s.db,
      s.peers[sid := Advance(if ev.Accept? then NOBODY else s.peers[sid], ev)],
      Workers(s.busy, sid, ev),
      if ev.Commit? then s.log + [Entry(sid, ev.req, ev.tx, ev.resp)] else s.log)
  }

  // ----- The part of the log that concerns one session ------------------------------

  function Of(log: seq<Entry>, sid: nat): seq<Entry> {
    if log == [] then []
    else Of(log[..|log| - 1], sid) + if log[|log| - 1].sid == sid then [log[|log| - 1]] else []
  }

  function Requests(entries: seq<Entry>): seq<Request> {
    seq(|entries|, i requires 0 <= i < |entries| => entries[i].req)
  }

  function Responses(entries: seq<Entry>): seq<Packet> {
    seq(|entries|, i requires 0 <= i < |entries| => AResponse(entries[i].resp))
  }

  function Asked(reqs: seq<Request>): seq<Packet> {
    seq(|reqs|, i requires 0 <= i < |reqs| => ARequest(reqs[i]))
  }

  predicate AllSendable(entries: seq<Entry>) {
    forall i | 0 <= i < |entries| :: Sendable(AResponse(entries[i].resp))
  }

  /** What the sequential run says about a session. */
  datatype Past = Past(entries: seq<Entry>, who: Who)

  ghost function PastOf(sha: Hash, log: seq<Entry>, sid: nat): Past {
    Past(Of(log, sid), WhoIs(After(sha, log), sid))
  }

  // ----- The invariant --------------------------------------------------------------

  predicate IsWorking(t: Task) {
    t.ParseRunning? || t.JobRunning? || t.JobCommitted?
  }

  /** Everything asked is answered and written. */
  ghost predicate Settled(past: Past, p: Peer)
    requires AllSendable(past.entries)
  {
    p.reqs == Requests(past.entries) && p.out == Frames(Responses(past.entries)) && p.conn.who == past.who
  }

  /** Everything but the last response is written. */
  ghost predicate Owing(past: Past, p: Peer, resp: Response)
    requires AllSendable(past.entries)
  {
    && past.entries != []
    && var n := |past.entries| - 1;
    && past.entries[n].resp == resp
    && p.reqs == Requests(past.entries) && p.out == Frames(Responses(past.entries[..n]))
  }

  /** One request is dispatched and not committed. */
  ghost predicate Pending(past: Past, p: Peer, req: Request)
    requires AllSendable(past.entries)
  {
    && p.reqs == Requests(past.entries) + [req] && ValidRequest(req) && !req.NoRequest?
    && p.out == Frames(Responses(past.entries)) && p.conn.who == past.who
  }

  ghost predicate TaskInv(past: Past, p: Peer, t: Task)
    requires AllSendable(past.entries) && p.taken <= |p.inp|
  {
    var rest, buffer := p.inp[p.taken..], p.conn.buffer;
    match t
    case PrefixRead => rest == [] && |buffer| == PREFIX_SIZE && Settled(past, p)
    case MessageRead(size) =>
      |rest| == PREFIX_SIZE && ReadPrefix(rest) == Some(size) && |buffer| == size && Settled(past, p)
    case ParseQueued => IsBody(rest, buffer) && Settled(past, p)
    case ParseRunning => IsBody(rest, buffer) && Settled(past, p)
    case JobQueued(req) => rest == [] && Pending(past, p, req)
    case JobRunning(req, me) => rest == [] && Pending(past, p, req) && me == past.who
    case JobCommitted(req, resp) =>
      rest == [] && Owing(past, p, resp) && past.who == WithState(p.conn, resp).who
    case WriteOut =>
      rest == [] && past.entries != [] && past.who == p.conn.who &&
      Owing(past, p, past.entries[|past.entries| - 1].resp) &&
      buffer == Frame(AResponse(past.entries[|past.entries| - 1].resp))
  }

  predicate IsBody(rest: Bytes, buffer: Bytes) {
    && |rest| == PREFIX_SIZE + |buffer| && rest[PREFIX_SIZE..] == buffer
    && ReadPrefix(rest[..PREFIX_SIZE]) == Some(|buffer|)
  }

  ghost predicate StoppedInv(past: Past, p: Peer)
    requires AllSendable(past.entries)
  {
    && p.conn.todo == multiset{} && p.reqs == Requests(past.entries)
    && p.out <= Frames(Responses(past.entries)) && p.conn.who == past.who
  }

  ghost predicate PeerInv(past: Past, p: Peer, working: bool) {
    && AllSendable(past.entries)
    && p.taken <= |p.inp| && Unframe(p.inp[..p.taken]) == Some(Asked(p.reqs))
    && if p.conn.stopped then !working && StoppedInv(past, p)
       else exists t :: p.conn.todo == multiset{t} && working == IsWorking(t) && TaskInv(past, p, t)
  }

  ghost predicate Inv(sha: Hash, s: Server) {
    && Legal(sha, s.log) && s.db == After(sha, s.log).db
    && |s.busy| <= WORKER_THREADS && s.busy <= s.peers.Keys
    && (forall sid | sid in s.peers :: PeerInv(PastOf(sha, s.log, sid), s.peers[sid], sid in s.busy))
    && (forall sid | sid !in s.peers :: PastOf(sha, s.log, sid) == Past([], None))
  }

  lemma InitialInv(sha: Hash)
    ensures Inv(sha, INITIAL)
  {
  }

  // ----- Every step keeps it --------------------------------------------------------

  lemma AcceptKeeps()
    ensures PeerInv(Past([], None), Advance(NOBODY, Accept), false)
  {
    var p := Advance(NOBODY, Accept);
    assert p.conn.todo == multiset{PrefixRead};
    assert Frames(Responses([])) == [] && Asked([]) == [];
    assert TaskInv(Past([], None), p, PrefixRead);
  }

  /** The only activity of a session is the one an event completes. */
  lemma OnlyTask(past: Past, p: Peer, working: bool, t: Task)
    requires PeerInv(past, p, working) && t in p.conn.todo
    ensures !p.conn.stopped && p.conn.todo == multiset{t} && Finish(p.conn, t).todo == multiset{}
    ensures working == IsWorking(t) && TaskInv(past, p, t)
  {
    hide TaskInv, Unframe;
    assert !p.conn.stopped;
    var u :| p.conn.todo == multiset{u} && working == IsWorking(u) && TaskInv(past, p, u);
    assert t == u;
  }

  lemma PrefixDoneKeeps(past: Past, p: Peer, working: bool, err: bool, data: Bytes)
    requires PeerInv(past, p, working) && PrefixRead in p.conn.todo && |data| <= |p.conn.buffer|
    ensures PeerInv(past, Advance(p, PrefixDone(err, data)), false)
  {
    hide Unframe, ReadPrefix, Frames;
    OnlyTask(past, p, working, PrefixRead);
    var q := Advance(p, PrefixDone(err, data));
    assert q.inp[..q.taken] == p.inp[..p.taken];
    assert q.inp[q.taken..] == data;
    if !q.conn.stopped {
      var t := MessageRead(ReadPrefix(data).value);
      assert q.conn.todo == multiset{t};
      assert TaskInv(past, q, t);
    }
  }

  lemma MessageDoneKeeps(past: Past, p: Peer, working: bool, size: U64, err: bool, data: Bytes)
    requires PeerInv(past, p, working) && MessageRead(size) in p.conn.todo && |data| <= |p.conn.buffer|
    ensures PeerInv(past, Advance(p, MessageDone(size, err, data)), false)
  {
    hide Unframe, ReadPrefix, Frames;
    OnlyTask(past, p, working, MessageRead(size));
    var q := Advance(p, MessageDone(size, err, data));
    assert q.inp[..q.taken] == p.inp[..p.taken];
    var rest := p.inp[p.taken..];
    assert q.inp[q.taken..] == rest + data;
    if !q.conn.stopped {
      assert (rest + data)[..PREFIX_SIZE] == rest;
      assert q.conn.buffer == data;
      assert q.conn.todo == multiset{ParseQueued};
      assert TaskInv(past, q, ParseQueued);
    }
  }

  lemma ParseStartKeeps(past: Past, p: Peer, working: bool)
    requires PeerInv(past, p, working) && ParseQueued in p.conn.todo
    ensures PeerInv(past, Advance(p, ParseStart), true)
  {
    hide Unframe, ReadPrefix, Frames;
    OnlyTask(past, p, working, ParseQueued);
    var q := Advance(p, ParseStart);
    assert q.conn.todo == multiset{ParseRunning};
    assert TaskInv(past, q, ParseRunning);
  }

  lemma ParseEndKeeps(past: Past, p: Peer, working: bool)
    requires PeerInv(past, p, working) && ParseRunning in p.conn.todo
    ensures PeerInv(past, Advance(p, ParseEnd), false)
  {
    hide Unframe, ReadPrefix, ReadPacket, Frames;
    OnlyTask(past, p, working, ParseRunning);
    var q, buffer := Advance(p, ParseEnd), p.conn.buffer;
    if Decodable(buffer) {
      var req := ReadPacket(buffer).value.request;
      var rest := p.inp[p.taken..];
      UnframeSnoc(p.inp[..p.taken], buffer, rest[..PREFIX_SIZE]);
      assert p.inp[..p.taken] + rest[..PREFIX_SIZE] + buffer == p.inp == q.inp[..q.taken];
      assert Asked(q.reqs) == Asked(p.reqs) + [ReadPacket(buffer).value];
      assert q.conn.todo == multiset{JobQueued(req)};
      assert TaskInv(past, q, JobQueued(req));
    }
  }

  lemma JobStartKeeps(past: Past, p: Peer, working: bool, req: Request)
    requires PeerInv(past, p, working) && JobQueued(req) in p.conn.todo
    ensures PeerInv(past, Advance(p, JobStart(req)), true)
  {
    hide Unframe, ReadPrefix, Frames;
    OnlyTask(past, p, working, JobQueued(req));
    var q := Advance(p, JobStart(req));
    assert q.conn.todo == multiset{JobRunning(req, p.conn.who)};
    assert TaskInv(past, q, JobRunning(req, p.conn.who));
  }

  lemma CommitKeeps(past: Past, past': Past, p: Peer, working: bool, sid: nat, req: Request, me: Who, tx: Tx, resp: Response)
    requires PeerInv(past, p, working) && JobRunning(req, me) in p.conn.todo
    requires Sendable(AResponse(resp))
    requires past'.entries == past.entries + [Entry(sid, req, tx, resp)]
    requires past'.who == if resp.LoginResult? && resp.profile.Some? then resp.profile else past.who
    ensures PeerInv(past', Advance(p, Commit(req, me, tx, resp)), true)
  {
    hide Unframe, ReadPrefix, Frames, Sendable;
    OnlyTask(past, p, working, JobRunning(req, me));
    var q := Advance(p, Commit(req, me, tx, resp));
    assert past'.entries[..|past.entries|] == past.entries;
    assert Requests(past'.entries) == Requests(past.entries) + [req];
    assert q.conn.todo == multiset{JobCommitted(req, resp)};
    assert TaskInv(past', q, JobCommitted(req, resp));
  }

  lemma JobEndKeeps(past: Past, p: Peer, working: bool, req: Request, resp: Response)
    requires PeerInv(past, p, working) && JobCommitted(req, resp) in p.conn.todo && Sendable(AResponse(resp))
    ensures PeerInv(past, Advance(p, JobEnd(req, resp)), false)
  {
    hide Unframe, ReadPrefix, Frames, Sendable, Frame;
    OnlyTask(past, p, working, JobCommitted(req, resp));
    var q := Advance(p, JobEnd(req, resp));
    assert q.conn.todo == multiset{WriteOut};
    assert TaskInv(past, q, WriteOut);
  }

  lemma WriteDoneKeeps(past: Past, p: Peer, working: bool, err: bool, count: nat)
    requires PeerInv(past, p, working) && WriteOut in p.conn.todo
    requires count <= |p.conn.buffer| && (!err ==> count == |p.conn.buffer|)
    ensures PeerInv(past, Advance(p, WriteDone(err, count)), false)
  {
    hide Unframe, ReadPrefix, Frames, Sendable, Frame;
    OnlyTask(past, p, working, WriteOut);
    var q, n := Advance(p, WriteDone(err, count)), |past.entries| - 1;
    var last := AResponse(past.entries[n].resp);
    FramesSnoc(Responses(past.entries[..n]), last);
    assert Responses(past.entries) == Responses(past.entries[..n]) + [last];
    if !q.conn.stopped {
      assert p.conn.buffer[..count] == p.conn.buffer;
      assert q.conn.todo == multiset{PrefixRead};
      assert TaskInv(past, q, PrefixRead);
    }
  }

  lemma AdvanceKeeps(sha: Hash, s: Server, sid: nat, ev: Event)
    requires Inv(sha, s) && Enabled(sha, s, sid, ev) && !ev.Accept? && !ev.Commit?
    ensures PeerInv(PastOf(sha, s.log, sid), Advance(s.peers[sid], ev), sid in Workers(s.busy, sid, ev))
  {
    hide PastOf, PeerInv, TaskInv, Advance, Legal, After, Of, Sendable, Answers, Fresh, PacketBytes, ValidResponse;
    var past, p, working := PastOf(sha, s.log, sid), s.peers[sid], sid in s.busy;
    OnlyTask(past, p, working, Subject(ev));
    match ev
    case PrefixDone(err, data) => PrefixDoneKeeps(past, p, working, err, data);
    case MessageDone(size, err, data) => MessageDoneKeeps(past, p, working, size, err, data);
    case ParseStart => ParseStartKeeps(past, p, working);
    case ParseEnd => ParseEndKeeps(past, p, working);
    case JobStart(req) => JobStartKeeps(past, p, working, req);
    case JobEnd(req, resp) => JobEndKeeps(past, p, working, req, resp);
    case WriteDone(err, count) => WriteDoneKeeps(past, p, working, err, count);
  }

  lemma LegalSnoc(sha: Hash, log: seq<Entry>, e: Entry)
    requires Legal(sha, log) && LegalStep(sha, After(sha, log), e)
    ensures Legal(sha, log + [e]) && After(sha, log + [e]) == Next(sha, After(sha, log), e)
    ensures forall sid :: Of(log + [e], sid) == Of(log, sid) + if e.sid == sid then [e] else []
  {
    hide LegalStep, Next;
    var all := log + [e];
    assert all[..|all| - 1] == log && all[|all| - 1] == e;
  }

  /** A commit is one step of the sequential server; it concerns one session only. */
  lemma CommitIsStep(sha: Hash, s: Server, sid: nat, ev: Event)
    requires Inv(sha, s) && Enabled(sha, s, sid, ev) && ev.Commit?
    ensures LegalStep(sha, After(sha, s.log), Entry(sid, ev.req, ev.tx, ev.resp))
    ensures Sendable(AResponse(ev.resp))
    ensures Do(sha, s, sid, ev).db == Next(sha, After(sha, s.log), Entry(sid, ev.req, ev.tx, ev.resp)).db
  {
    hide PeerInv, Transaction, Answers, Fresh, Consistent, PacketBytes, ValidResponse, Legal, After, Of;
    var w, e, past := After(sha, s.log), Entry(sid, ev.req, ev.tx, ev.resp), PastOf(sha, s.log, sid);
    OnlyTask(past, s.peers[sid], sid in s.busy, JobRunning(ev.req, ev.me));
    RunsAreGood(sha, s.log);
    AnswersAreEncodable(sha, w, e);
  }

  lemma CommitGrows(sha: Hash, log: seq<Entry>, e: Entry, other: nat)
    requires Legal(sha, log) && LegalStep(sha, After(sha, log), e)
    ensures PastOf(sha, log + [e], other) ==
            if other != e.sid then PastOf(sha, log, other)
            else Past(Of(log, other) + [e],
                      if e.resp.LoginResult? && e.resp.profile.Some? then e.resp.profile
                      else WhoIs(After(sha, log), other))
  {
    hide Legal, LegalStep, After, Next, Of;
    LegalSnoc(sha, log, e);
    StepCache(sha, After(sha, log), e, other);
  }

  lemma CommitKeepsInv(sha: Hash, s: Server, sid: nat, ev: Event)
    requires Inv(sha, s) && Enabled(sha, s, sid, ev) && ev.Commit?
    ensures Inv(sha, Do(sha, s, sid, ev))
  {
    hide PeerInv, PastOf, Advance, Legal, After, Next, LegalStep, Sendable, Answers, Transaction, Fresh, Of;
    var e, log := Entry(sid, ev.req, ev.tx, ev.resp), Do(sha, s, sid, ev).log;
    CommitIsStep(sha, s, sid, ev);
    LegalSnoc(sha, s.log, e);
    forall other: nat
      ensures PastOf(sha, log, other) ==
              if other != sid then PastOf(sha, s.log, other)
              else Past(Of(s.log, sid) + [e],
                        if e.resp.LoginResult? && e.resp.profile.Some? then e.resp.profile
                        else WhoIs(After(sha, s.log), sid))
    {
      CommitGrows(sha, s.log, e, other);
    }
    var past := PastOf(sha, s.log, sid);
    PastIs(sha, s.log, sid);
    OnlyTask(past, s.peers[sid], sid in s.busy, JobRunning(ev.req, ev.me));
    CommitKeeps(past, PastOf(sha, log, sid), s.peers[sid], true, sid, ev.req, ev.me, ev.tx, ev.resp);
  }

  lemma PeerKeepsInv(sha: Hash, s: Server, sid: nat, p: Peer, busy: set<nat>)
    requires Inv(sha, s) && PeerInv(PastOf(sha, s.log, sid), p, sid in busy)
    requires |busy| <= WORKER_THREADS && busy - {sid} == s.busy - {sid}
    ensures Inv(sha, s.(peers := s.peers[sid := p], busy := busy))
  {
    hide PeerInv, PastOf, Legal, After, Of;
    assert forall other | other != sid :: other in busy <==> other in busy - {sid};
    assert forall other | other != sid :: other in s.busy <==> other in s.busy - {sid};
  }

  /** Every step keeps the invariant. */
  lemma StepKeepsInv(sha: Hash, s: Server, sid: nat, ev: Event)
    requires Inv(sha, s) && Enabled(sha, s, sid, ev)
    ensures Inv(sha, Do(sha, s, sid, ev))
  {
    hide PeerInv, PastOf, Advance, Legal, After, Sendable, Answers, Transaction, Fresh, Of;
    if ev.Accept? {
      AcceptKeeps();
      PeerKeepsInv(sha, s, sid, Advance(NOBODY, ev), s.busy);
    } else if ev.Commit? {
      CommitKeepsInv(sha, s, sid, ev);
    } else {
      AdvanceKeeps(sha, s, sid, ev);
      PeerKeepsInv(sha, s, sid, Advance(s.peers[sid], ev), Workers(s.busy, sid, ev));
    }
  }

  lemma PastIs(sha: Hash, log: seq<Entry>, sid: nat)
    ensures PastOf(sha, log, sid) == Past(Of(log, sid), WhoIs(After(sha, log), sid))
  {
  }

  // ----- Runs -----------------------------------------------------------------------

  datatype Act = Act(sid: nat, ev: Event)

  /** The states the server goes through while it takes the steps `acts`. */
  ghost predicate Run(sha: Hash, states: seq<Server>, acts: seq<Act>) {
    && |states| == |acts| + 1
    && forall i | 0 <= i < |acts| ::
         Enabled(sha, states[i], acts[i].sid, acts[i].ev) && states[i + 1] == Do(sha, states[i], acts[i].sid, acts[i].ev)
  }

  ghost predicate Reachable(sha: Hash, s: Server) {
    exists states, acts :: Run(sha, states, acts) && states[0] == INITIAL && states[|acts|] == s
  }

  lemma {:induction false} RunKeepsInv(sha: Hash, states: seq<Server>, acts: seq<Act>)
    requires Run(sha, states, acts) && Inv(sha, states[0])
    ensures Inv(sha, states[|acts|])
    decreases |acts|
  {
    hide Inv, Enabled, Do;
    if acts != [] {
      var n := |acts| - 1;
      RunKeepsInv(sha, states[..n + 1], acts[..n]);
      StepKeepsInv(sha, states[n], acts[n].sid, acts[n].ev);
    }
  }

  lemma ReachableInv(sha: Hash, s: Server)
    requires Reachable(sha, s)
    ensures Inv(sha, s)
  {
    hide Inv, Enabled, Do;
    InitialInv(sha);
    var states, acts :| Run(sha, states, acts) && states[0] == INITIAL && states[|acts|] == s;
    RunKeepsInv(sha, states, acts);
  }

  // ----- Main results ---------------------------------------------------------------

  /** A running session has exactly one outstanding activity and a stopped one has none; a
      read has the room it asked for, and no more than two workers run. */
  lemma SingleOwner(sha: Hash, s: Server, sid: nat)
    requires Reachable(sha, s) && sid in s.peers
    ensures var c := s.peers[sid].conn;
            && |c.todo| == (if c.stopped then 0 else 1)
            && (PrefixRead in c.todo ==> |c.buffer| == PREFIX_SIZE)
            && (forall size :: MessageRead(size) in c.todo ==> |c.buffer| == size)
            && (sid in s.busy <==> exists t :: t in c.todo && IsWorking(t))
            && |s.busy| <= 2
  {
    hide PastOf, Legal, After, Frames, Unframe, Reachable;
    ReachableInv(sha, s);
    var past, p := PastOf(sha, s.log, sid), s.peers[sid];
    if !p.conn.stopped {
      var t :| p.conn.todo == multiset{t} && (sid in s.busy) == IsWorking(t) && TaskInv(past, p, t);
      assert forall u :: u in p.conn.todo <==> u == t;
    }
  }

  /** The concurrent server refines the sequential one: its tables, the responses each
      session has sent and the profile each session holds are those of the commits run one
      at a time in commit order. A session that waits for its next request has been sent
      the answers to exactly the requests its input holds. */
  lemma RefinesSequential(sha: Hash, s: Server)
    requires Reachable(sha, s)
    ensures Legal(sha, s.log) && s.db == After(sha, s.log).db && Consistent(s.db) && AllSendable(s.log)
    ensures forall i | 0 <= i < |s.log| :: s.log[i].sid in s.peers
    ensures forall sid | sid in s.peers ::
              var p, es := s.peers[sid], Of(s.log, sid);
              && AllSendable(es)
              && Requests(es) <= p.reqs && |p.reqs| <= |es| + 1
              && p.out <= Frames(Responses(es))
              && p.taken <= |p.inp| && Unframe(p.inp[..p.taken]) == Some(Asked(p.reqs))
              && (p.conn.who == WhoIs(After(sha, s.log), sid)
                  || exists req, resp :: JobCommitted(req, resp) in p.conn.todo)
              && (PrefixRead in p.conn.todo ==>
                    && Unframe(p.inp) == Some(Asked(Requests(es)))
                    && Unframe(p.out) == Some(Responses(es)))
  {
    hide Reachable, Legal, After, Consistent, PeerInv, Sendable, Frames, Unframe;
    ReachableInv(sha, s);
    RunsAreGood(sha, s.log);
    forall sid | sid in s.peers
      ensures PeerResult(PastOf(sha, s.log, sid), s.peers[sid])
    {
      PeerInvGivesResult(PastOf(sha, s.log, sid), s.peers[sid], sid in s.busy);
    }
    forall i | 0 <= i < |s.log|
      ensures s.log[i].sid in s.peers && Sendable(AResponse(s.log[i].resp))
    {
      OfHolds(s.log, i);
      var sid := s.log[i].sid;
      assert PastOf(sha, s.log, sid).entries == Of(s.log, sid);
    }
  }

  ghost predicate PeerResult(past: Past, p: Peer) {
    && AllSendable(past.entries)
    && Requests(past.entries) <= p.reqs && |p.reqs| <= |past.entries| + 1
    && p.out <= Frames(Responses(past.entries))
    && p.taken <= |p.inp| && Unframe(p.inp[..p.taken]) == Some(Asked(p.reqs))
    && (p.conn.who == past.who || exists req, resp :: JobCommitted(req, resp) in p.conn.todo)
    && (PrefixRead in p.conn.todo ==>
          && Unframe(p.inp) == Some(Asked(Requests(past.entries)))
          && Unframe(p.out) == Some(Responses(past.entries)))
  }

  lemma PeerInvGivesResult(past: Past, p: Peer, working: bool)
    requires PeerInv(past, p, working)
    ensures PeerResult(past, p)
  {
    hide Frames, Unframe, Sendable, Frame, ReadPrefix;
    FramesReadBack(Responses(past.entries));
    if !p.conn.stopped {
      var t :| p.conn.todo == multiset{t} && working == IsWorking(t) && TaskInv(past, p, t);
      if PrefixRead in p.conn.todo {
        assert p.inp == p.inp[..p.taken];
      }
      if t.JobCommitted? || t.WriteOut? {
        var n := |past.entries| - 1;
        assert Responses(past.entries) == Responses(past.entries[..n]) + [AResponse(past.entries[n].resp)];
        FramesSnoc(Responses(past.entries[..n]), AResponse(past.entries[n].resp));
      }
      if t.JobCommitted? {
        assert JobCommitted(t.req, t.resp) in p.conn.todo;
      }
    }
  }

  /** Entry `i` of the log is the entry of its session that the earlier ones count. */
  lemma {:induction false} OfHolds(log: seq<Entry>, i: nat)
    requires i < |log|
    ensures |Of(log[..i], log[i].sid)| < |Of(log, log[i].sid)|
    ensures Of(log, log[i].sid)[|Of(log[..i], log[i].sid)|] == log[i]
    decreases |log|
  {
    if i == |log| - 1 {
    } else {
      OfHolds(log[..|log| - 1], i);
      assert log[..|log| - 1][..i] == log[..i];
    }
  }

  lemma {:induction false} LegalPrefix(sha: Hash, log: seq<Entry>, i: nat)
    requires Legal(sha, log) && i < |log|
    ensures Legal(sha, log[..i]) && LegalStep(sha, After(sha, log[..i]), log[i])
    decreases |log|
  {
    hide LegalStep;
    if i < |log| - 1 {
      LegalPrefix(sha, log[..|log| - 1], i);
      assert log[..|log| - 1][..i] == log[..i];
    }
  }

  /** The k-th response of a session answers its k-th dispatched request, and its kind is
      fixed by the request and by whether a login came before. */
  lemma KthAnswer(sha: Hash, s: Server, i: nat)
    requires Reachable(sha, s) && i < |s.log|
    ensures s.log[i].sid in s.peers
    ensures var e, sid := s.log[i], s.log[i].sid;
            var k := |Of(s.log[..i], sid)|;
            && k < |Of(s.log, sid)| && Of(s.log, sid)[k] == e
            && k < |s.peers[sid].reqs| && s.peers[sid].reqs[k] == e.req
            && RightKind(Served(LastProfile(s.log[..i], sid), e.req), e.req, e.resp)
            && (e.resp.NoResponse? <==> LastProfile(s.log[..i], sid).None? && !e.req.Register? && !e.req.Login?)
  {
    hide Reachable, Legal, After, Consistent, Sendable, Frames, Unframe, LegalStep, CachesTrue;
    RefinesSequential(sha, s);
    var e, sid := s.log[i], s.log[i].sid;
    OfHolds(s.log, i);
    LegalPrefix(sha, s.log, i);
    RunsAreGood(sha, s.log[..i]);
    CacheIsLastLogin(sha, s.log[..i], sid);
    AnswersAreEncodable(sha, After(sha, s.log[..i]), e);
    var es, k := Of(s.log, sid), |Of(s.log[..i], sid)|;
    assert Requests(es)[k] == es[k].req;
    assert Requests(es) <= s.peers[sid].reqs;
  }

  // ----- A request is answered in five steps of its session --------------------------

  /** The steps of a session until its response is handed to the socket. */
  function StepsLeft(t: Task): nat {
    match t
    case ParseQueued => 5
    case ParseRunning => 4
    case JobQueued(_) => 3
    case JobRunning(_, _) => 2
    case JobCommitted(_, _) => 1
    case _ => 0
  }

  function StepsOf(acts: seq<Act>, sid: nat): nat {
    if acts == [] then 0
    else StepsOf(acts[..|acts| - 1], sid) + if acts[|acts| - 1].sid == sid then 1 else 0
  }

  /** With activity `t` the session is working on the request it held in its buffer as `was`,
      and has written nothing since. */
  predicate Doing(p: Peer, t: Task, was: Peer) {
    && !p.conn.stopped && p.conn.todo == multiset{t} && Decodable(was.conn.buffer) && p.out == was.out
    && if StepsLeft(t) >= 4 then p.conn.buffer == was.conn.buffer && p.reqs == was.reqs
       else p.reqs == was.reqs + [ReadPacket(was.conn.buffer).value.request]
  }

  /** The session is `left` steps away from writing its answer to that request. */
  ghost predicate Answering(p: Peer, left: nat, was: Peer) {
    exists t :: StepsLeft(t) == left && (left == 0 ==> t == WriteOut) && Doing(p, t, was)
  }

  function NextTask(p: Peer, ev: Event): Task
    requires ev.ParseEnd? ==> Decodable(p.conn.buffer)
  {
    match ev
    case ParseStart => ParseRunning
    case ParseEnd => JobQueued(ReadPacket(p.conn.buffer).value.request)
    case JobStart(req) => JobRunning(req, p.conn.who)
    case Commit(req, _, _, resp) => JobCommitted(req, resp)
    case _ => WriteOut
  }

  lemma AdvanceDoes(p: Peer, ev: Event, was: Peer)
    requires !ev.Accept? && StepsLeft(Subject(ev)) > 0 && Doing(p, Subject(ev), was)
    requires ev.JobEnd? ==> Sendable(AResponse(ev.resp))
    ensures StepsLeft(NextTask(p, ev)) == StepsLeft(Subject(ev)) - 1
    ensures Doing(Advance(p, ev), NextTask(p, ev), was)
  {
    hide Sendable, ReadPacket, Frame;
    assert Finish(p.conn, Subject(ev)).todo == multiset{};
    assert Advance(p, ev).conn.todo == multiset{NextTask(p, ev)};
  }

  /** The next step of a session that is answering brings it one step closer. */
  lemma AdvanceAnswers(p: Peer, ev: Event, left: nat, was: Peer)
    requires !ev.Accept? && Subject(ev) in p.conn.todo && left > 0 && Answering(p, left, was)
    requires ev.JobEnd? ==> Sendable(AResponse(ev.resp))
    ensures !ev.PrefixDone? && !ev.MessageDone? && !ev.WriteDone?
    ensures Answering(Advance(p, ev), left - 1, was)
  {
    hide Sendable, Decodable, Advance;
    var t :| StepsLeft(t) == left && Doing(p, t, was);
    assert Subject(ev) == t;
    AdvanceDoes(p, ev, was);
  }

  lemma OwnStep(sha: Hash, s: Server, sid: nat, ev: Event, left: nat, was: Peer)
    requires Enabled(sha, s, sid, ev) && sid in s.peers && left > 0
    requires Answering(s.peers[sid], left, was)
    ensures Answering(Do(sha, s, sid, ev).peers[sid], left - 1, was)
  {
    hide Transaction, Answers, Fresh, Sendable, PacketBytes, ValidResponse, Advance, Answering;
    AdvanceAnswers(s.peers[sid], ev, left, was);
  }

  lemma {:induction false} CountsDown(sha: Hash, states: seq<Server>, acts: seq<Act>, sid: nat, was: Peer)
    requires Run(sha, states, acts) && sid in states[0].peers
    requires Answering(states[0].peers[sid], 5, was) && StepsOf(acts, sid) <= 5
    ensures sid in states[|acts|].peers && Answering(states[|acts|].peers[sid], 5 - StepsOf(acts, sid), was)
    decreases |acts|
  {
    hide Answering, Advance, Transaction, Answers, Fresh, Sendable, PacketBytes;
    if acts != [] {
      var n := |acts| - 1;
      CountsDown(sha, states[..n + 1], acts[..n], sid, was);
      if acts[n].sid == sid {
        OwnStep(sha, states[n], sid, acts[n].ev, 5 - StepsOf(acts[..n], sid), was);
      }
    }
  }

  lemma AnswerInBuffer(past: Past, p: Peer, working: bool, reqs: seq<Request>, req: Request)
    requires PeerInv(past, p, working) && WriteOut in p.conn.todo && p.reqs == reqs + [req]
    ensures |past.entries| == |reqs| + 1 && past.entries[|reqs|].req == req
    ensures Sendable(AResponse(past.entries[|reqs|].resp)) && p.conn.buffer == Frame(AResponse(past.entries[|reqs|].resp))
  {
    hide Sendable, Frames, Frame, Unframe;
    OnlyTask(past, p, working, WriteOut);
    assert |Requests(past.entries)| == |past.entries|;
    assert p.reqs[|reqs|] == past.entries[|reqs|].req;
  }

  lemma NothingAsked(past: Past, p: Peer, working: bool)
    requires PeerInv(past, p, working) && ParseQueued in p.conn.todo
    ensures |p.reqs| == |past.entries|
  {
    hide Sendable, Frames, Unframe;
    OnlyTask(past, p, working, ParseQueued);
  }

  /** Whatever the other sessions do meanwhile, five steps after its message has been read a
      session holds the framed answer to it, ready to write: exactly one request was
      dispatched, and exactly one entry, with that request, was added to its log. */
  lemma AnsweredInFiveSteps(sha: Hash, states: seq<Server>, acts: seq<Act>, sid: nat)
    requires Run(sha, states, acts) && Reachable(sha, states[0]) && sid in states[0].peers
    requires ParseQueued in states[0].peers[sid].conn.todo && Decodable(states[0].peers[sid].conn.buffer)
    requires StepsOf(acts, sid) == 5
    ensures sid in states[|acts|].peers
    ensures var p, q := states[0].peers[sid], states[|acts|].peers[sid];
            var es, es' := Of(states[0].log, sid), Of(states[|acts|].log, sid);
            var req := ReadPacket(p.conn.buffer).value.request;
            && !q.conn.stopped && q.conn.todo == multiset{WriteOut} && q.reqs == p.reqs + [req] && q.out == p.out
            && |es'| == |es| + 1 && es'[|es|].req == req
            && Sendable(AResponse(es'[|es|].resp)) && q.conn.buffer == Frame(AResponse(es'[|es|].resp))
  {
    hide Reachable, Legal, After, Sendable, Frame, Enabled, Do, PeerInv, TaskInv;
    var p := states[0].peers[sid];
    ReachableInv(sha, states[0]);
    var working := sid in states[0].busy;
    OnlyTask(PastOf(sha, states[0].log, sid), p, working, ParseQueued);
    NothingAsked(PastOf(sha, states[0].log, sid), p, working);
    assert StepsLeft(ParseQueued) == 5 && Doing(p, ParseQueued, p);
    CountsDown(sha, states, acts, sid, p);
    RunKeepsInv(sha, states, acts);
    var end := states[|acts|];
    AnswerInBuffer(PastOf(sha, end.log, sid), end.peers[sid], sid in end.busy, p.reqs, ReadPacket(p.conn.buffer).value.request);
  }

  /** The sixth step, if it is no error, has written the framed answer, and the session reads
      its next prefix. */
  lemma WrittenInSixSteps(sha: Hash, states: seq<Server>, acts: seq<Act>, sid: nat)
    requires Run(sha, states, acts) && Reachable(sha, states[0]) && sid in states[0].peers
    requires ParseQueued in states[0].peers[sid].conn.todo && Decodable(states[0].peers[sid].conn.buffer)
    requires StepsOf(acts, sid) == 6
    requires var last := acts[|acts| - 1]; last.sid == sid && (last.ev.WriteDone? ==> !last.ev.err)
    ensures sid in states[|acts|].peers
    ensures var p, q := states[0].peers[sid], states[|acts|].peers[sid];
            var es, es' := Of(states[0].log, sid), Of(states[|acts|].log, sid);
            var req := ReadPacket(p.conn.buffer).value.request;
            && q.conn.todo == multiset{PrefixRead} && q.reqs == p.reqs + [req]
            && |es'| == |es| + 1 && es'[|es|].req == req
            && Sendable(AResponse(es'[|es|].resp)) && q.out == p.out + Frame(AResponse(es'[|es|].resp))
  {
    hide Reachable, Sendable, Frame, Transaction, Answers, Fresh, ReadPacket, Advance, Decodable;
    var n := |acts| - 1;
    AnsweredInFiveSteps(sha, states[..n + 1], acts[..n], sid);
    assert Subject(acts[n].ev) == WriteOut;
    WriteReturns(states[n].peers[sid], acts[n].ev.count);
  }

  lemma WriteReturns(p: Peer, count: nat)
    requires !p.conn.stopped && p.conn.todo == multiset{WriteOut} && count == |p.conn.buffer|
    ensures var q := Advance(p, WriteDone(false, count));
            q.conn.todo == multiset{PrefixRead} && q.out == p.out + p.conn.buffer && q.reqs == p.reqs
  {
    assert Finish(p.conn, WriteOut).todo == multiset{};
    assert p.conn.buffer[..count] == p.conn.buffer;
    assert Advance(p, WriteDone(false, count)).conn.todo == multiset{PrefixRead};
  }

  // ----- From the bytes of a request to its answer ----------------------------------

  /** A new session reads a prefix. */
  lemma AcceptReads()
    ensures Advance(NOBODY, Accept).conn.todo == multiset{PrefixRead} && !Advance(NOBODY, Accept).conn.stopped
  {
    assert Advance(NOBODY, Accept).conn.todo == multiset{PrefixRead};
  }

  /** The buffer with any request, as its client sends it, is read as that request. */
  lemma RequestsDecode(r: Request)
    requires Sendable(ARequest(r)) && !r.NoRequest?
    ensures ReadPacket(PacketBytes(ARequest(r))) == Some(ARequest(r)) && Decodable(PacketBytes(ARequest(r)))
  {
    hide ReadPacket, PacketBytes;
    PacketRoundTrip(ARequest(r));
  }

  /** A prefix that arrives without error leads to a read of what it announces. */
  lemma PrefixArrives(past: Past, p: Peer, working: bool, r: Request)
    requires PeerInv(past, p, working) && PrefixRead in p.conn.todo && Sendable(ARequest(r))
    ensures |Frame(ARequest(r))| >= PREFIX_SIZE && PREFIX_SIZE <= |p.conn.buffer|
    ensures var n := |PacketBytes(ARequest(r))|;
            var q := Advance(p, PrefixDone(false, Frame(ARequest(r))[..PREFIX_SIZE]));
            && !q.conn.stopped && q.conn.todo == multiset{MessageRead(n)} && |q.conn.buffer| == n
            && q.reqs == p.reqs && q.out == p.out
  {
    hide Unframe, ReadPrefix, Frames, Frame, PacketBytes, Sendable;
    OnlyTask(past, p, working, PrefixRead);
    FrameParts(ARequest(r));
    var n := |PacketBytes(ARequest(r))|;
    assert n < TWO_64 by { PacketIsSmall(ARequest(r)); }
    var q := Advance(p, PrefixDone(false, Frame(ARequest(r))[..PREFIX_SIZE]));
    assert q.conn.todo == multiset{MessageRead(n)};
  }

  lemma PacketIsSmall(p: Packet)
    requires Sendable(p)
    ensures |PacketBytes(p)| < TWO_31
  {
  }

  /** The request that arrives behind it without error is there to be parsed. */
  lemma MessageArrives(p: Peer, r: Request)
    requires Sendable(ARequest(r)) && !r.NoRequest?
    requires var n := |PacketBytes(ARequest(r))|;
             !p.conn.stopped && p.conn.todo == multiset{MessageRead(n)} && |p.conn.buffer| == n
    ensures var body := PacketBytes(ARequest(r));
            var q := Advance(p, MessageDone(|body|, false, body));
            && !q.conn.stopped && q.conn.todo == multiset{ParseQueued} && q.conn.buffer == body
            && ReadPacket(q.conn.buffer) == Some(ARequest(r)) && Decodable(q.conn.buffer)
            && q.reqs == p.reqs && q.out == p.out
  {
    hide ReadPacket, PacketBytes, Sendable, Decodable;
    RequestsDecode(r);
    var body := PacketBytes(ARequest(r));
    assert Finish(p.conn, MessageRead(|body|)).todo == multiset{};
    var q := Advance(p, MessageDone(|body|, false, body));
    assert q.conn.todo == multiset{ParseQueued} && q.conn.buffer == body;
  }

  /** The steps of one session, in order. */
  function OwnEvents(acts: seq<Act>, sid: nat): seq<Event> {
    if acts == [] then []
    else
      OwnEvents(acts[..|acts| - 1], sid) + if acts[|acts| - 1].sid == sid then [acts[|acts| - 1].ev] else []
  }

  /** Where the k-th of them is. */
  lemma {:induction false} OwnEventAt(acts: seq<Act>, sid: nat, k: nat) returns (j: nat)
    requires k < |OwnEvents(acts, sid)|
    ensures j < |acts| && acts[j] == Act(sid, OwnEvents(acts, sid)[k]) && |OwnEvents(acts[..j], sid)| == k
    decreases |acts|
  {
    var n := |acts| - 1;
    if k < |OwnEvents(acts[..n], sid)| {
      j := OwnEventAt(acts[..n], sid, k);
      assert acts[..n][..j] == acts[..j];
    } else {
      j := n;
    }
  }

  lemma {:induction false} OwnEventsSplit(acts: seq<Act>, sid: nat, j: nat)
    requires j <= |acts|
    ensures OwnEvents(acts, sid) == OwnEvents(acts[..j], sid) + OwnEvents(acts[j..], sid)
    decreases |acts|
  {
    if j == |acts| {
      assert acts[..j] == acts;
    } else {
      var n := |acts| - 1;
      OwnEventsSplit(acts[..n], sid, j);
      assert acts[..n][..j] == acts[..j] && acts[..n][j..] == acts[j..][..n - j];
    }
  }

  lemma {:induction false} OwnEventsCount(acts: seq<Act>, sid: nat)
    ensures |OwnEvents(acts, sid)| == StepsOf(acts, sid)
    decreases |acts|
  {
    if acts != [] {
      OwnEventsCount(acts[..|acts| - 1], sid);
    }
  }

  /** A session does not change while only others move. */
  lemma {:induction false} OthersMove(sha: Hash, states: seq<Server>, acts: seq<Act>, sid: nat)
    requires Run(sha, states, acts) && sid in states[0].peers && OwnEvents(acts, sid) == []
    ensures sid in states[|acts|].peers && states[|acts|].peers[sid] == states[0].peers[sid]
    decreases |acts|
  {
    hide Advance, Transaction, Answers, Fresh, Sendable, PacketBytes;
    if acts != [] {
      OthersMove(sha, states[..|acts|], acts[..|acts| - 1], sid);
    }
  }

  /** A part of a run is a run. */
  lemma RunPart(sha: Hash, states: seq<Server>, acts: seq<Act>, i: nat, j: nat)
    requires Run(sha, states, acts) && i <= j <= |acts|
    ensures Run(sha, states[i..j + 1], acts[i..j])
  {
    hide Enabled, Do;
  }

  /** The first step of its own that a session takes in a run. */
  lemma FirstOwnStep(sha: Hash, states: seq<Server>, acts: seq<Act>, sid: nat) returns (j: nat)
    requires Run(sha, states, acts) && sid in states[0].peers && OwnEvents(acts, sid) != []
    ensures j < |acts| && acts[j] == Act(sid, OwnEvents(acts, sid)[0])
    ensures sid in states[j].peers && states[j].peers[sid] == states[0].peers[sid]
    ensures Run(sha, states[..j + 1], acts[..j]) && Run(sha, states[j + 1..], acts[j + 1..])
    ensures OwnEvents(acts[j + 1..], sid) == OwnEvents(acts, sid)[1..]
  {
    hide Enabled, Do, OwnEvents;
    j := OwnEventAt(acts, sid, 0);
    RunPart(sha, states, acts, 0, j);
    RunPart(sha, states, acts, j + 1, |acts|);
    assert states[0..j + 1] == states[..j + 1] && acts[0..j] == acts[..j];
    assert states[j + 1..|acts| + 1] == states[j + 1..] && acts[j + 1..|acts|] == acts[j + 1..];
    OthersMove(sha, states[..j + 1], acts[..j], sid);
    OwnEventsSplit(acts, sid, j);
    OwnEventsSplit(acts[j..], sid, 1);
    assert acts[j..][..1] == [acts[j]] && acts[j..][1..] == acts[j + 1..];
    assert OwnEvents([acts[j]], sid) == [acts[j].ev] by { OneEvent(acts[j]); }
  }

  lemma OneEvent(act: Act)
    ensures OwnEvents([act], act.sid) == [act.ev]
  {
    assert [act][..0] == [];
  }

  /** The state a session has after the first step of its own. */
  lemma AfterOwnStep(sha: Hash, s: Server, act: Act)
    requires act.sid in s.peers && Enabled(sha, s, act.sid, act.ev)
    ensures !act.ev.Accept? && act.sid in Do(sha, s, act.sid, act.ev).peers
    ensures act.ev.PrefixDone? || act.ev.MessageDone? ==>
              && |act.ev.data| <= |s.peers[act.sid].conn.buffer|
              && Do(sha, s, act.sid, act.ev).peers[act.sid] == Advance(s.peers[act.sid], act.ev)
  {
    hide Advance, Transaction, Answers, Fresh, Sendable, PacketBytes, ValidResponse;
  }

  lemma ReachableStep(sha: Hash, states: seq<Server>, acts: seq<Act>, j: nat)
    requires Run(sha, states, acts) && Reachable(sha, states[0]) && j <= |acts|
    ensures Reachable(sha, states[j])
  {
    hide Enabled, Do;
    var before, taken :| Run(sha, before, taken) && before[0] == INITIAL && before[|taken|] == states[0];
    var all, steps := before + states[1..j + 1], taken + acts[..j];
    assert forall i | |taken| <= i <= |taken| + j :: all[i] == states[i - |taken|];
    assert forall i | 0 <= i <= |taken| :: all[i] == before[i];
    assert forall i | 0 <= i < |taken| :: steps[i] == taken[i];
    assert forall i | |taken| <= i < |taken| + j :: steps[i] == acts[i - |taken|];
    assert Run(sha, all, steps);
  }

  lemma EntriesAreAsked(sha: Hash, s: Server, sid: nat, t: Task)
    requires Reachable(sha, s) && sid in s.peers && t in s.peers[sid].conn.todo && (t.PrefixRead? || t.ParseQueued?)
    ensures |Of(s.log, sid)| == |s.peers[sid].reqs|
  {
    hide Reachable, Legal, After, Frames, Unframe, Sendable;
    ReachableInv(sha, s);
    OnlyTask(PastOf(sha, s.log, sid), s.peers[sid], sid in s.busy, t);
  }

  /** A request whose two parts arrive without error at a session that waits for one is
      answered by eight steps of the session, whatever other sessions do meanwhile: it is
      dispatched, committed once, and its framed answer is written. */
  lemma AnsweredInEightSteps(sha: Hash, states: seq<Server>, acts: seq<Act>, sid: nat, r: Request)
    requires Run(sha, states, acts) && Reachable(sha, states[0]) && sid in states[0].peers
    requires PrefixRead in states[0].peers[sid].conn.todo && Sendable(ARequest(r)) && !r.NoRequest?
    requires |Frame(ARequest(r))| >= PREFIX_SIZE && |OwnEvents(acts, sid)| == 8
    requires OwnEvents(acts, sid)[0] == PrefixDone(false, Frame(ARequest(r))[..PREFIX_SIZE])
    requires OwnEvents(acts, sid)[1] == MessageDone(|PacketBytes(ARequest(r))|, false, PacketBytes(ARequest(r)))
    requires OwnEvents(acts, sid)[7].WriteDone? ==> !OwnEvents(acts, sid)[7].err
    requires acts[|acts| - 1].sid == sid
    ensures sid in states[|acts|].peers
    ensures var p, q := states[0].peers[sid], states[|acts|].peers[sid];
            var es, es' := Of(states[0].log, sid), Of(states[|acts|].log, sid);
            && q.conn.todo == multiset{PrefixRead} && q.reqs == p.reqs + [r]
            && |es'| == |es| + 1 && es'[|es|].req == r
            && Sendable(AResponse(es'[|es|].resp)) && q.out == p.out + Frame(AResponse(es'[|es|].resp))
  {
    hide Enabled, Do, Reachable, Inv, Frame, PacketBytes, ReadPacket, Sendable, Advance, OwnEvents, Decodable, PeerInv, StepsOf;
    var p := states[0].peers[sid];
    var i := FirstOwnStep(sha, states, acts, sid);
    var states', acts' := states[i + 1..], acts[i + 1..];
    ReachableStep(sha, states, acts, i);
    assert PeerInv(PastOf(sha, states[i].log, sid), p, sid in states[i].busy) by { PeerOf(sha, states[i], sid); }
    PrefixArrives(PastOf(sha, states[i].log, sid), p, sid in states[i].busy, r);
    AfterOwnStep(sha, states[i], acts[i]);
    var q := states'[0].peers[sid];
    var j := FirstOwnStep(sha, states', acts', sid);
    AfterOwnStep(sha, states'[j], acts'[j]);
    MessageArrives(q, r);
    var states'', acts'' := states'[j + 1..], acts'[j + 1..];
    ReachableStep(sha, states, acts, i + 1 + j + 1);
    assert states''[0] == states[i + 1 + j + 1];
    EntriesAreAsked(sha, states[0], sid, PrefixRead);
    EntriesAreAsked(sha, states''[0], sid, ParseQueued);
    OwnEventsCount(acts'', sid);
    assert acts'' != [] && acts''[|acts''| - 1] == acts[|acts| - 1] by { NotEmpty(acts'', sid); }
    LastEvent(acts'', sid);
    WrittenInSixSteps(sha, states'', acts'', sid);
  }

  lemma NotEmpty(acts: seq<Act>, sid: nat)
    requires OwnEvents(acts, sid) != []
    ensures acts != []
  {
  }

  lemma LastEvent(acts: seq<Act>, sid: nat)
    requires acts != [] && acts[|acts| - 1].sid == sid
    ensures OwnEvents(acts, sid) != [] && OwnEvents(acts, sid)[|OwnEvents(acts, sid)| - 1] == acts[|acts| - 1].ev
  {
  }

  lemma PeerOf(sha: Hash, s: Server, sid: nat)
    requires Reachable(sha, s) && sid in s.peers
    ensures PeerInv(PastOf(sha, s.log, sid), s.peers[sid], sid in s.busy)
  {
    hide Reachable, PeerInv, Legal, After;
    ReachableInv(sha, s);
  }

  /** A running session stops on a failed read or write, on a read of the wrong length, on an
      unreadable prefix, on bytes that are no request, and for no other reason. */
  lemma StopsIff(past: Past, p: Peer, working: bool, ev: Event)
    requires PeerInv(past, p, working) && !ev.Accept? && Subject(ev) in p.conn.todo
    requires ev.PrefixDone? || ev.MessageDone? ==> |ev.data| <= |p.conn.buffer|
    requires ev.JobEnd? ==> Sendable(AResponse(ev.resp))
    requires ev.WriteDone? ==> ev.count <= |p.conn.buffer|
    ensures Advance(p, ev).conn.stopped <==>
            match ev
            case PrefixDone(err, data) => err || |data| != PREFIX_SIZE || ReadPrefix(data).None?
            case MessageDone(size, err, data) => err || |data| != size
            case ParseEnd => forall r :: ReadPacket(p.conn.buffer) == Some(ARequest(r)) ==> r.NoRequest?
            case WriteDone(err, _) => err
            case _ => false
  {
    hide Unframe, ReadPrefix, ReadPacket, Frames, Frame, Sendable, TaskInv;
    OnlyTask(past, p, working, Subject(ev));
  }

  // ----- The pool never stalls ------------------------------------------------------

  /** The answer when the transaction fails. */
  function Refusal(who: Who, req: Request): Response {
    if !Served(who, req) then NoResponse
    else
      match req
      case Login(_, _) => LoginResult(None)
      case GetChats => Chats([])
      case GetContacts => Contacts([])
      case GetMessages(_) => Messages([])
      case _ => Status(REJECTED)
  }

  lemma RefusalIsSmall(who: Who, req: Request)
    ensures |PacketBytes(AResponse(Refusal(who, req)))| < TWO_31
  {
    var m := PacketMsg(AResponse(Refusal(who, req)));
    var sub := m.sub;
    assert PacketBytes(AResponse(Refusal(who, req))) == EncodeSub(1, RESPONSE, sub);
    if sub.Set? {
      assert |Encode(RESPONSE, sub)| < 100;
    }
  }

  lemma RefusalAnswers(sha: Hash, db: Db, who: Who, req: Request)
    requires !req.NoRequest?
    ensures Answers(sha, db, who, req, Tx(false, 0, 0), Refusal(who, req))
  {
  }

  /** The next event of a worker, with a failing transaction if it makes its storage call. */
  function NextEvent(t: Task): Event
    requires IsWorking(t)
  {
    match t
    case ParseRunning => ParseEnd
    case JobRunning(req, me) => Commit(req, me, Tx(false, 0, 0), Refusal(me, req))
    case JobCommitted(req, resp) => JobEnd(req, resp)
  }

  lemma WorkerTask(past: Past, p: Peer) returns (t: Task)
    requires PeerInv(past, p, true)
    ensures t in p.conn.todo && IsWorking(t)
    ensures t.JobRunning? ==> !t.req.NoRequest?
    ensures t.JobCommitted? ==> Sendable(AResponse(t.resp))
  {
    hide Frames, Unframe, Frame, Sendable;
    t :| p.conn.todo == multiset{t} && IsWorking(t) && TaskInv(past, p, t);
  }

  lemma WorkerCanMove(sha: Hash, s: Server, sid: nat)
    requires Inv(sha, s) && sid in s.busy
    ensures exists t :: IsWorking(t) && Enabled(sha, s, sid, NextEvent(t))
  {
    hide Legal, After, PeerInv, Sendable, Answers, PacketBytes, Refusal, ValidResponse;
    var t := WorkerTask(PastOf(sha, s.log, sid), s.peers[sid]);
    if t.JobRunning? {
      RefusalIsSmall(t.me, t.req);
      RefusalAnswers(sha, s.db, t.me, t.req);
    }
    assert Enabled(sha, s, sid, NextEvent(t));
  }

  /** While any session has work for the pool, some session's work can go on: a worker is
      free, or a running worker can take its next step. */
  lemma PoolNeverStalls(sha: Hash, s: Server, sid: nat, t: Task)
    requires Reachable(sha, s) && sid in s.peers && t in s.peers[sid].conn.todo && StepsLeft(t) > 0
    ensures exists other, ev :: Enabled(sha, s, other, ev) && !ev.Accept? && StepsLeft(Subject(ev)) > 0
  {
    hide Legal, After, Reachable, PacketBytes, Answers, PeerInv, Sendable, Refusal, ValidResponse, TaskInv;
    ReachableInv(sha, s);
    if s.busy == {} {
      OnlyTask(PastOf(sha, s.log, sid), s.peers[sid], false, t);
      var ev := if t.ParseQueued? then ParseStart else JobStart(t.req);
      assert Enabled(sha, s, sid, ev);
    } else {
      var other :| other in s.busy;
      WorkerCanMove(sha, s, other);
      var u :| IsWorking(u) && Enabled(sha, s, other, NextEvent(u));
      assert StepsLeft(Subject(NextEvent(u))) > 0;
    }
  }
}
