/**
 The client between its view and its socket: the availability lock of BackEndFacade, the
 jobs with their callbacks, and Session with its one callback and its reader.

 Signals are delivered synchronously. Views that react to a signal by calling an operation
 at once are covered by lemma OperationInsideCallback.
 */
module Client {
  import opened Basics
  import opened Schema
  import opened Codec
  import opened Protocol
  import opened Framing
  import opened Reassembly
  import opened MessagesView

  // ----- Operations, jobs and signals -----------------------------------------------

  datatype Operation =
    | Signin(email: Bytes, password: Bytes)
    | Signup(name: Bytes, email: Bytes, password: Bytes)
    | SendMessage(chatId: U64, text: Bytes)
    | AddContact(email: Bytes)
    | LoadChats
    | LoadContacts
    | LoadData
    | LoadMessages(chatId: U64)
    | CreateChat(friendId: U64)
    | UpdateConnectionSettings(validAddress: bool)

  datatype Job =
    | LoginJob | RegisterJob | LoadChatsJob | LoadContactsJob | LoadMessagesJob
    | SendMessageJob | AddContactJob | LoadDataJob | CreateChatJob

  datatype Signal =
    | LoggedIn(ok: bool) | Registered(ok: bool) | LoadedChats | LoadedContacts | LoadedMessages
    | SendedMessage(ok: bool) | AddedContact(ok: bool) | LoadedData | ChatCreated(ok: bool)
    | UpdatedConnectionSettings(ok: bool) | OperationAborted | ShowMessage | Disconnected

  /** Every signal but showMessage makes the facade available again. */
  predicate Releases(s: Signal) { !s.ShowMessage? }

  /** What the client holds; `asked` is the history of requests sent on the connection, each
      with the job whose callback was registered for the response. */
  datatype App = App(
    available: bool,
    connected: bool,
    reader: Reader,
    callback: Option<Job>,
    asked: seq<(Request, Job)>,
    profile: Option<ContactInfo>,
    chats: Option<seq<ChatInfo>>,
    contacts: Option<seq<ContactInfo>>,
    listCalls: seq<Call>,
    signals: seq<Signal>)

  function Emit(a: App, s: Signal): App {
    a.(available := a.available || Releases(s), signals := a.signals + [s])
  }

  /** Session::request. */
  function Ask(a: App, req: Request, job: Job): App {
    if a.connected then a.(callback := Some(job), asked := a.asked + [(req, job)])
    else Emit(a, OperationAborted)
  }

  function RequestOf(op: Operation): Request
    requires !op.UpdateConnectionSettings?
  {
    match op
    case Signin(email, password) => Login(email, password)
    case Signup(name, email, password) => Register(name, email, password)
    case SendMessage(chatId, text) => SendMesg(chatId, text)
    case AddContact(email) => Request.AddContact(email)
    case LoadChats => GetChats
    case LoadContacts => GetContacts
    case LoadData => GetContacts
    case LoadMessages(chatId) => GetMessages(chatId)
    case CreateChat(friendId) => Request.CreateChat(friendId)
  }

  function JobOf(op: Operation): Job
    requires !op.UpdateConnectionSettings?
  {
    match op
    case Signin(_, _) => LoginJob
    case Signup(_, _, _) => RegisterJob
    case SendMessage(_, _) => SendMessageJob
    case AddContact(_) => AddContactJob
    case LoadChats => LoadChatsJob
    case LoadContacts => LoadContactsJob
    case LoadData => LoadDataJob
    case LoadMessages(_) => LoadMessagesJob
    case CreateChat(_) => CreateChatJob
  }

  /** The socket is closed, by either side; what it has not handed over is lost. */
  function Disconnect(a: App): App {
    var b := a.(reader := a.reader.(sock := []));
    if a.connected then Emit(b.(connected := false), Disconnected) else b
  }

  /** A connection is established. The reader is left as it is. */
  function Connected(a: App): App {
    Emit(a.(connected := true, asked := []), ShowMessage)
  }

  /** An operation of the facade does nothing while another one is under way. */
  function Performed(a: App, op: Operation): App {
    if !a.available then a
    else
      var b := a.(available := false);
      if op.UpdateConnectionSettings? then
        Emit(if op.validAddress then Disconnect(b) else b, UpdatedConnectionSettings(op.validAddress))
      else Ask(b, RequestOf(op), JobOf(op))
  }

  /** The view makes another chat the current one. */
  function Selected(a: App, chat: U64): App {
    a.(listCalls := a.listCalls + [SetCurrentChatId(chat)])
  }

  function Accepted(resp: Response): bool {
    resp.Status? && resp.result == ACCEPTED
  }

  /** The callback of a job. */
  function Callback(a: App, job: Job, resp: Response): App {
    match job
    case LoginJob =>
      if resp.LoginResult? && resp.profile.Some? then Emit(a.(profile := resp.profile), LoggedIn(true))
      else Emit(a, LoggedIn(false))
    case RegisterJob => Emit(a, Registered(Accepted(resp)))
    case LoadChatsJob => Emit(if resp.Chats? then a.(chats := Some(resp.chats)) else a, LoadedChats)
    case LoadContactsJob => Emit(if resp.Contacts? then a.(contacts := Some(resp.contacts)) else a, LoadedContacts)
    case LoadMessagesJob => Emit(if resp.Messages? then a.(listCalls := a.listCalls + [SetItems(Some(resp.messages))]) else a, LoadedMessages)
    case SendMessageJob => Emit(a, SendedMessage(Accepted(resp)))
    case AddContactJob => Emit(a, AddedContact(Accepted(resp)))
    case CreateChatJob => Emit(a, ChatCreated(Accepted(resp)))
    case LoadDataJob =>
      if resp.Contacts? then Ask(a.(contacts := Some(resp.contacts)), GetChats, LoadDataJob)
      else Emit(if resp.Chats? then a.(chats := Some(resp.chats)) else a, LoadedData)
  }

  /** A body has been read from the socket; only a response runs the callback. */
  function Process(a: App, p: Packet): App {
    if p.AResponse? && a.callback.Some? then Callback(a, a.callback.value, p.response) else a
  }

  function ReadyRead(a: App): App {
    var o := OnReadyRead(a.reader);
    var b := a.(reader := o.reader);
    if o.aborted then Disconnect(b)
    else if o.loaded.Some? then Process(b, ReadPacket(o.loaded.value).value)
    else b
  }

  /** `chunk` arrives and the socket notifies. */
  function Receive(a: App, chunk: Bytes): App {
    ReadyRead(a.(reader := a.reader.(sock := a.reader.sock + chunk)))
  }

  function WithReaded(a: App, k: nat): App {
    a.(reader := a.reader.(readed := k))
  }

  lemma CallbackIgnoresReaded(a: App, job: Job, resp: Response, k: nat)
    ensures WithReaded(Callback(a, job, resp), k) == Callback(WithReaded(a, k), job, resp)
  {
    match job
    case LoginJob =>
    case LoadChatsJob =>
    case LoadContactsJob =>
    case LoadMessagesJob =>
    case LoadDataJob =>
    case _ =>
  }

  lemma ProcessIgnoresReaded(a: App, p: Packet, k: nat)
    ensures WithReaded(Process(a, p), k) == Process(WithReaded(a, k), p)
  {
    hide Callback;
    if p.AResponse? && a.callback.Some? {
      CallbackIgnoresReaded(a, a.callback.value, p.response, k);
    }
  }

  /** A callback runs before the reader is reset, and so does an operation that a view calls
      when the callback's signal reaches it; the order makes no difference. */
  lemma OperationInsideCallback(a: App, p: Packet, op: Operation, k: nat)
    ensures WithReaded(Performed(Process(a, p), op), k) == Performed(Process(WithReaded(a, k), p), op)
  {
    hide Process;
    ProcessIgnoresReaded(a, p, k);
  }

  lemma ChatsRequestIsSmall()
    ensures Sendable(ARequest(GetChats))
  {
    assert PacketMsg(ARequest(GetChats)) == Set(2, Set(3, Fields([])));
    assert |Encode(REQUEST, Set(3, Fields([])))| < 100;
    assert PacketBytes(ARequest(GetChats)) == EncodeSub(2, REQUEST, Set(3, Fields([])));
  }

  // ----- The classes ----------------------------------------------------------------

  class BackEndFacade {
    var available: bool
    var shown: seq<Signal>

    constructor ()
      ensures available && shown == []
    {
      available := true;
      shown := [];
    }

    /** The handlers connected to the signals of the backend. */
    method OnSignal(s: Signal)
      modifies this
      ensures available == (old(available) || Releases(s)) && shown == old(shown) + [s]
    {
      match s {
        case ShowMessage =>
        case _ => available := true;
      }
      shown := shown + [s];
    }
  }

  /** The socket is represented by the bytes it has received and not handed over, the bytes
      written to it, and whether it is connected. */
  class Session {
    var connected: bool
    var sockIn: Bytes
    var sockOut: Bytes
    var buffer: Bytes
    var bytesReaded: nat
    var messageSize: int
    var callback: Option<Job>
    var asked: seq<(Request, Job)>

    constructor ()
      ensures !connected && sockIn == [] && bytesReaded == 0 && messageSize == 0 && callback == None && asked == []
    {
      connected, sockIn, sockOut, buffer := false, [], [], [];
      bytesReaded, messageSize, callback, asked := 0, 0, None, [];
    }

    method Request(backend: Backend, req: Protocol.Request, job: Job)
      requires backend.session == this && Sendable(ARequest(req))
      modifies this`callback, this`asked, this`buffer, this`sockOut, backend.facade
      ensures backend.View() == Ask(old(backend.View()), req, job)
      ensures sockOut == old(sockOut) + if connected then Frame(ARequest(req)) else []
    {
      hide PacketBytes;
      if connected {
        callback := Some(job);
        buffer := Prefix(|PacketBytes(ARequest(req))|) + PacketBytes(ARequest(req));
        sockOut := sockOut + buffer;
        asked := asked + [(req, job)];
      } else {
        backend.facade.OnSignal(OperationAborted);
      }
    }

    /** The size the prefix announces, or PARSE_ERROR. */
    method ReadPrefixBytes() returns (size: int)
      requires |sockIn| >= PREFIX_SIZE
      modifies this`buffer, this`sockIn, this`bytesReaded
      ensures sockIn == old(sockIn)[PREFIX_SIZE..] && bytesReaded == PREFIX_SIZE
      ensures var prefix := ReadPrefix(old(sockIn)[..PREFIX_SIZE]);
              size == if prefix.Some? then Signed(prefix.value) else PARSE_ERROR
    {
      buffer := sockIn[..PREFIX_SIZE];
      sockIn := sockIn[PREFIX_SIZE..];
      bytesReaded := PREFIX_SIZE;
      var prefix := ReadPrefix(buffer);
      if prefix.Some? {
        return Signed(prefix.value);
      } else {
        return PARSE_ERROR;
      }
    }

    method ReadMessage(size: nat) returns (message: Option<Packet>)
      requires size <= |sockIn|
      modifies this`buffer, this`sockIn, this`bytesReaded
      ensures sockIn == old(sockIn)[size..] && bytesReaded == old(bytesReaded) + size
      ensures message == ReadPacket(old(sockIn)[..size])
    {
      buffer := sockIn[..size];
      sockIn := sockIn[size..];
      bytesReaded := bytesReaded + size;
      return ReadPacket(buffer);
    }

    method Abort(backend: Backend)
      requires backend.session == this
      modifies this`connected, this`sockIn, backend.facade
      ensures sockIn == [] && bytesReaded == old(bytesReaded)
      ensures backend.View() == Disconnect(old(backend.View()))
    {
      sockIn := [];
      if connected {
        connected := false;
        backend.facade.OnSignal(Disconnected);
      }
    }

    method OnConnection(backend: Backend)
      requires backend.session == this
      modifies this`connected, this`asked, backend.facade
      ensures backend.View() == Connected(old(backend.View()))
    {
      connected := true;
      asked := [];
      backend.facade.OnSignal(ShowMessage);
    }

    method ProcessResponse(backend: Backend, message: Packet)
      requires backend.session == this
      requires backend.messagesList.Valid()
      modifies this`callback, this`asked, this`buffer, this`sockOut, backend, backend.facade
      modifies backend.messagesList, backend.messagesList.observer
      ensures backend.messagesList.Valid() && backend.messagesList.observer == old(backend.messagesList.observer)
      ensures backend.View() == Process(old(backend.View()), message)
    {
      if message.AResponse? {
        if callback.Some? {
          backend.RunCallback(callback.value, message.response);
        }
      }
    }

    /** The lambda load_mesg, followed by the reset every caller of it does. */
    method LoadMessage(backend: Backend)
      requires backend.session == this && bytesReaded == PREFIX_SIZE && messageSize <= |sockIn|
      requires backend.messagesList.Valid()
      modifies this, backend, backend.facade
      modifies backend.messagesList, backend.messagesList.observer
      ensures backend.messagesList.Valid() && backend.messagesList.observer == old(backend.messagesList.observer)
      ensures var o := Load(old(backend.View()).reader);
              backend.View() ==
              if o.aborted then Disconnect(old(backend.View())).(reader := o.reader)
              else Process(old(backend.View()).(reader := o.reader), ReadPacket(o.loaded.value).value)
    {
      hide ReadPacket, Callback, MessagesList.Valid;
      if messageSize < 0 {
        Abort(backend);
        bytesReaded := 0;
        return;
      }
      ghost var before := backend.View();
      var message := ReadMessage(messageSize);
      ghost var after := backend.View();
      if message.Some? {
        ProcessResponse(backend, message.value);
        ProcessIgnoresReaded(after, message.value, 0);
        assert WithReaded(after, 0) == before.(reader := Load(before.reader).reader);
      } else {
        Abort(backend);
      }
      bytesReaded := 0;
    }

    method OnReadyRead(backend: Backend)
      requires backend.session == this
      requires backend.messagesList.Valid()
      modifies this, backend, backend.facade
      modifies backend.messagesList, backend.messagesList.observer
      ensures backend.messagesList.Valid() && backend.messagesList.observer == old(backend.messagesList.observer)
      ensures backend.View() == ReadyRead(old(backend.View()))
    {
      hide ReadPacket, ReadPrefix, Callback, MessagesList.Valid, Process;
      if bytesReaded < PREFIX_SIZE && |sockIn| >= PREFIX_SIZE {
        bytesReaded := 0;
        messageSize := ReadPrefixBytes();
        if messageSize == PARSE_ERROR {
          Abort(backend);
          bytesReaded := 0;
          return;
        }
        if |sockIn| == messageSize {
          LoadMessage(backend);
        }
      } else if bytesReaded == PREFIX_SIZE && |sockIn| >= messageSize {
        LoadMessage(backend);
      } else {
        bytesReaded := 0;
      }
    }
  }

  class Backend {
    const facade: BackEndFacade
    const session: Session
    var profile: Option<ContactInfo>
    var chats: Option<seq<ChatInfo>>
    var contacts: Option<seq<ContactInfo>>
    const messagesList: MessagesList

    constructor (facade: BackEndFacade, session: Session, messagesList: MessagesList)
      ensures this.facade == facade && this.session == session && this.messagesList == messagesList
      ensures profile == None && chats == None && contacts == None
    {
      this.facade, this.session, this.messagesList := facade, session, messagesList;
      profile, chats, contacts := None, None, None;
    }

    ghost function View(): App
      reads this, facade, session, messagesList
    {
      App(facade.available, session.connected, Reader(session.bytesReaded, session.messageSize, session.sockIn),
          session.callback, session.asked, profile, chats, contacts, messagesList.calls, facade.shown)
    }

    // ----- Callbacks ----------------------------------------------------------------

    method LoginCallback(resp: Response)
      modifies this`profile, facade
      ensures View() == Callback(old(View()), LoginJob, resp)
    {
      if resp.LoginResult? {
        var loggedIn := resp.profile.Some?;
        if loggedIn {
          profile := Some(ContactInfo(resp.profile.value.userId, resp.profile.value.name, resp.profile.value.email));
        }
        facade.OnSignal(LoggedIn(loggedIn));
      } else {
        facade.OnSignal(LoggedIn(false));
      }
    }

    /** The callback of the jobs that only report success. */
    method StatusCallback(job: Job, resp: Response)
      requires job.RegisterJob? || job.SendMessageJob? || job.AddContactJob? || job.CreateChatJob?
      modifies facade
      ensures View() == Callback(old(View()), job, resp)
    {
      var success := resp.Status? && resp.result == ACCEPTED;
      match job {
        case RegisterJob => facade.OnSignal(Registered(success));
        case SendMessageJob => facade.OnSignal(SendedMessage(success));
        case AddContactJob => facade.OnSignal(Signal.AddedContact(success));
        case CreateChatJob => facade.OnSignal(ChatCreated(success));
      }
    }

    method SetChats(items: seq<ChatInfo>)
      modifies this`chats
      ensures chats == Some(items)
    {
      var vec: seq<ChatInfo> := [];
      for j := 0 to |items|
        invariant vec == items[..j]
      {
        vec := vec + [ChatInfo(items[j].chatId, items[j].title)];
      }
      assert items[..|items|] == items;
      chats := Some(vec);
    }

    method SetContacts(items: seq<ContactInfo>)
      modifies this`contacts
      ensures contacts == Some(items)
    {
      var vec: seq<ContactInfo> := [];
      for j := 0 to |items|
        invariant vec == items[..j]
      {
        vec := vec + [ContactInfo(items[j].userId, items[j].name, items[j].email)];
      }
      assert items[..|items|] == items;
      contacts := Some(vec);
    }

    method LoadChatsCallback(resp: Response)
      modifies this`chats, facade
      ensures View() == Callback(old(View()), LoadChatsJob, resp)
    {
      if resp.Chats? { SetChats(resp.chats); }
      facade.OnSignal(LoadedChats);
    }

    method LoadContactsCallback(resp: Response)
      modifies this`contacts, facade
      ensures View() == Callback(old(View()), LoadContactsJob, resp)
    {
      if resp.Contacts? { SetContacts(resp.contacts); }
      facade.OnSignal(LoadedContacts);
    }

    method LoadMessagesCallback(resp: Response)
      requires messagesList.Valid()
      modifies messagesList, messagesList.observer, facade
      ensures View() == Callback(old(View()), LoadMessagesJob, resp)
      ensures messagesList.Valid() && messagesList.observer == old(messagesList.observer)
    {
      if resp.Messages? {
        var vec: seq<Mesg> := [];
        for j := 0 to |resp.messages|
          invariant vec == resp.messages[..j]
        {
          vec := vec + [Mesg(resp.messages[j].senderId, resp.messages[j].text)];
        }
        assert resp.messages[..|resp.messages|] == resp.messages;
        var items := new MessageVec(vec);
        messagesList.SetItems(items);
      }
      facade.OnSignal(LoadedMessages);
    }

    /** Contacts first, then a second request for the chats with the same callback. */
    method LoadDataCallback(resp: Response)
      modifies this, facade, session`callback, session`asked, session`buffer, session`sockOut
      ensures View() == Callback(old(View()), LoadDataJob, resp)
    {
      if resp.Contacts? {
        SetContacts(resp.contacts);
        ChatsRequestIsSmall();
        session.Request(this, GetChats, LoadDataJob);
      } else if resp.Chats? {
        SetChats(resp.chats);
        facade.OnSignal(Signal.LoadedData);
      } else {
        facade.OnSignal(Signal.LoadedData);
      }
    }

    method RunCallback(job: Job, resp: Response)
      requires messagesList.Valid()
      modifies this, facade, session`callback, session`asked, session`buffer, session`sockOut
      modifies messagesList, messagesList.observer
      ensures messagesList.Valid() && messagesList.observer == old(messagesList.observer)
      ensures View() == Callback(old(View()), job, resp)
    {
      match job {
        case LoginJob => LoginCallback(resp);
        case LoadChatsJob => LoadChatsCallback(resp);
        case LoadContactsJob => LoadContactsCallback(resp);
        case LoadMessagesJob => LoadMessagesCallback(resp);
        case LoadDataJob => LoadDataCallback(resp);
        case _ => StatusCallback(job, resp);
      }
    }

    // ----- Operations of the facade -------------------------------------------------

    method Perform(op: Operation)
      requires !op.UpdateConnectionSettings? ==> Sendable(ARequest(RequestOf(op)))
      modifies this, facade, session
      ensures View() == Performed(old(View()), op)
    {
      if facade.available {
        facade.available := false;
        match op {
          case UpdateConnectionSettings(validAddress) =>
            if validAddress {
              session.Abort(this);
            }
            facade.OnSignal(Signal.UpdatedConnectionSettings(validAddress));
          case _ => session.Request(this, RequestOf(op), JobOf(op));
        }
      }
    }
  }
}
