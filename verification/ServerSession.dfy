/**
 ClientSession of the server and the jobs that run on its behalf. Each handler ends by
 starting at most one further activity; module ServerProtocol runs them concurrently.

 ASIO is represented by the activities a session has begun and that have not completed:
 an exact-length read into the buffer, a write of the whole buffer, or a posted job.
 */
module ServerSession {
  import opened Basics
  import opened Protocol
  import opened Framing
  import opened ServerSpec

  /** An outstanding activity. A posted job is queued until a worker runs it; a request job
      first reads the state of its session, then makes its storage call, then responds. */
  datatype Task =
    | PrefixRead
    | MessageRead(size: U64)
    | ParseQueued
    | ParseRunning
    | JobQueued(req: Request)
    | JobRunning(req: Request, me: Who)
    | JobCommitted(req: Request, resp: Response)
    | WriteOut

  datatype Conn = Conn(stopped: bool, who: Who, buffer: Bytes, todo: multiset<Task>)

  const NEW_CONN := Conn(true, None, [], multiset{})

  /** std::vector::resize. */
  function Resize(s: Bytes, n: nat): (r: Bytes)
    ensures |r| == n
  {
    if n <= |s| then s[..n] else s + seq(n - |s|, _ => 0)
  }

  /** `part` written over `s` from offset `at`. */
  function Overwrite(s: Bytes, at: nat, part: Bytes): (r: Bytes)
    requires at + |part| <= |s|
    ensures |r| == |s|
  {
    s[..at] + part + s[at + |part|..]
  }

  // ----- What the handlers do -------------------------------------------------------

  function Stopped(c: Conn): Conn { c.(stopped := true) }

  function Begin(c: Conn, t: Task): Conn { c.(todo := c.todo + multiset{t}) }

  function ReadPrefixNext(c: Conn): Conn {
    if c.stopped then c else Begin(c.(buffer := Resize(c.buffer, PREFIX_SIZE)), PrefixRead)
  }

  function ReadMessageNext(c: Conn, size: U64): Conn {
    if c.stopped then c else Begin(c.(buffer := Resize(c.buffer, size)), MessageRead(size))
  }

  function Started(c: Conn): Conn { ReadPrefixNext(c.(stopped := false)) }

  /** A read has delivered `data` into the buffer and completed, with or without an error. */
  function AfterPrefix(c: Conn, err: bool, data: Bytes): Conn
    requires |data| <= |c.buffer|
  {
    var d := c.(buffer := Overwrite(c.buffer, 0, data));
    if err || d.stopped then Stopped(d)
    else if |data| != PREFIX_SIZE || ReadPrefix(data).None? then Stopped(d)
    else ReadMessageNext(d, ReadPrefix(data).value)
  }

  function AfterMessage(c: Conn, err: bool, data: Bytes, size: U64): Conn
    requires |data| <= |c.buffer|
  {
    var d := c.(buffer := Overwrite(c.buffer, 0, data));
    if err || d.stopped || |data| != size then Stopped(d) else Begin(d, ParseQueued)
  }

  /** The buffer holds a request with its oneof set. */
  predicate Decodable(buffer: Bytes) {
    var p := ReadPacket(buffer);
    p.Some? && p.value.ARequest? && !p.value.request.NoRequest?
  }

  function AfterParse(c: Conn): Conn {
    if Decodable(c.buffer) then Begin(c, JobQueued(ReadPacket(c.buffer).value.request)) else Stopped(c)
  }

  function WriteNext(c: Conn, p: Packet): Conn
    requires Sendable(p)
  {
    if c.stopped then c else Begin(c.(buffer := Frame(p)), WriteOut)
  }

  function AfterWrite(c: Conn, err: bool): Conn {
    if err then Stopped(c) else ReadPrefixNext(c)
  }

  /** A successful login is cached before its response is written. */
  function WithState(c: Conn, resp: Response): Conn {
    if resp.LoginResult? && resp.profile.Some? then c.(who := resp.profile) else c
  }

  function Respond(c: Conn, resp: Response): Conn
    requires Sendable(AResponse(resp))
  {
    WriteNext(WithState(c, resp), AResponse(resp))
  }

  // ----- The session ----------------------------------------------------------------

  class ClientSession {
    var stopped: bool
    var state: Who
    var readBuffer: Bytes
    var begun: multiset<Task>

    function View(): Conn
      reads this
    {
      Conn(stopped, state, readBuffer, begun)
    }

    constructor ()
      ensures View() == NEW_CONN
    {
      stopped := true;
      state := None;
      readBuffer := [];
      begun := multiset{};
    }

    method Start()
      modifies this
      ensures View() == Started(old(View()))
    {
      stopped := false;
      DoAsyncReadPrefix();
    }

    method Stop()
      modifies this
      ensures View() == Stopped(old(View()))
    {
      if stopped { return; }
      stopped := true;
    }

    method DoAsyncReadPrefix()
      modifies this
      ensures View() == ReadPrefixNext(old(View()))
    {
      if stopped { return; }
      readBuffer := Resize(readBuffer, PREFIX_SIZE);
      begun := begun + multiset{PrefixRead};
    }

    method DoAsyncReadMessage(size: U64)
      modifies this
      ensures View() == ReadMessageNext(old(View()), size)
    {
      if stopped { return; }
      readBuffer := Resize(readBuffer, size);
      begun := begun + multiset{MessageRead(size)};
    }

    /** The first `bytes` bytes of the buffer have been read from the socket. */
    method OnReadPrefix(err: bool, bytes: nat)
      requires bytes <= |readBuffer|
      modifies this
      ensures View() == AfterPrefix(old(View()), err, old(readBuffer)[..bytes])
    {
      assert Overwrite(readBuffer, 0, readBuffer[..bytes]) == readBuffer;
      if err { Stop(); }
      if stopped { return; }
      if bytes == PREFIX_SIZE {
        var prefix := ReadPrefix(readBuffer[..bytes]);
        if prefix.Some? {
          DoAsyncReadMessage(prefix.value);
        } else {
          Stop();
        }
      } else {
        Stop();
      }
    }

    method OnReadMessage(err: bool, bytes: nat, size: U64)
      requires bytes <= |readBuffer|
      modifies this
      ensures View() == AfterMessage(old(View()), err, old(readBuffer)[..bytes], size)
    {
      assert Overwrite(readBuffer, 0, readBuffer[..bytes]) == readBuffer;
      if err { Stop(); }
      if stopped { return; }
      if bytes == size {
        begun := begun + multiset{ParseQueued};
      } else {
        Stop();
      }
    }

    /** The buffer is sized for prefix and packet, and both are serialized in place. */
    method DoAsyncWrite(p: Packet)
      requires Sendable(p)
      modifies this
      ensures View() == WriteNext(old(View()), p)
    {
      hide PacketBytes, Prefix, ReadPacket, ReadPrefix;
      if stopped { return; }
      var size := |PacketBytes(p)|;
      FrameParts(p);
      PrefixSize(size);
      readBuffer := Resize(readBuffer, size + PREFIX_SIZE);
      readBuffer := Overwrite(readBuffer, 0, Prefix(size));
      readBuffer := Overwrite(readBuffer, PREFIX_SIZE, PacketBytes(p));
      assert readBuffer == Frame(p);
      begun := begun + multiset{WriteOut};
    }

    method SetState(newState: ContactInfo)
      modifies this
      ensures View() == old(View()).(who := Some(newState))
    {
      state := Some(newState);
    }

    method OnWrite(err: bool)
      modifies this
      ensures View() == AfterWrite(old(View()), err)
    {
      if err { Stop(); }
      if stopped { return; }
      DoAsyncReadPrefix();
    }

    /** Posts the job for the request in the buffer, or stops the session. */
    method ParseCommandJob()
      modifies this
      ensures View() == AfterParse(old(View()))
    {
      hide ReadPacket;
      var message := ReadPacket(readBuffer);
      if message.Some? {
        if message.value.ARequest? {
          var request := message.value.request;
          if request.Register? {
            begun := begun + multiset{JobQueued(Register(request.name, request.email, request.password))};
          } else if request.Login? {
            begun := begun + multiset{JobQueued(Login(request.email, request.password))};
          } else if request.GetChats? {
            begun := begun + multiset{JobQueued(GetChats)};
          } else if request.GetContacts? {
            begun := begun + multiset{JobQueued(GetContacts)};
          } else if request.GetMessages? {
            begun := begun + multiset{JobQueued(GetMessages(request.chatId))};
          } else if request.SendMesg? {
            begun := begun + multiset{JobQueued(SendMesg(request.chatId, request.text))};
          } else if request.AddContact? {
            begun := begun + multiset{JobQueued(Request.AddContact(request.email))};
          } else if request.CreateChat? {
            begun := begun + multiset{JobQueued(Request.CreateChat(request.friendId))};
          } else {
            Stop();
          }
        } else {
          Stop();
        }
      } else {
        Stop();
      }
    }
  }
}
