/**
 How the client's Session::onReadyRead puts a response together from the notifications of
 its socket, and exactly when it succeeds.
 */
module Reassembly {
  import opened Basics
  import opened Schema
  import opened Codec
  import opened Protocol
  import opened Framing

  const PARSE_ERROR: int := -1

  /** static_cast<qint64> of an unsigned length. */
  function Signed(n: U64): int {
    if n < TWO_63 then n else n - TWO_64
  }

  /** m_bytesReaded, m_messageSize, and the bytes available in the socket. */
  datatype Reader = Reader(readed: nat, size: int, sock: Bytes)

  /** What one notification did: the body it read, if any, and whether it gave up and
      aborted the socket. */
  datatype Outcome = Outcome(reader: Reader, loaded: Option<Bytes>, aborted: bool)

  predicate Idle(r: Reader) { r.readed == 0 && r.sock == [] }

  /** The body is read; an unreadable one aborts the socket. */
  function Load(r: Reader): Outcome {
    if 0 <= r.size <= |r.sock| && ReadPacket(r.sock[..r.size]).Some?
    then Outcome(Reader(0, r.size, r.sock[r.size..]), Some(r.sock[..r.size]), false)
    else Outcome(Reader(0, r.size, []), None, true)
  }

  function OnReadyRead(r: Reader): Outcome {
    if r.readed < PREFIX_SIZE && |r.sock| >= PREFIX_SIZE then
      var prefix := ReadPrefix(r.sock[..PREFIX_SIZE]);
      if prefix.None? || Signed(prefix.value) == PARSE_ERROR then Outcome(Reader(0, PARSE_ERROR, []), None, true)
      else
        var next := Reader(PREFIX_SIZE, Signed(prefix.value), r.sock[PREFIX_SIZE..]);
        if |next.sock| == next.size then Load(next) else Outcome(next, None, false)
    else if r.readed == PREFIX_SIZE && |r.sock| >= r.size then Load(r)
    else Outcome(r.(readed := 0), None, false)
  }

  /** `chunk` arrives and the socket notifies. */
  function Notify(r: Reader, chunk: Bytes): Outcome {
    OnReadyRead(r.(sock := r.sock + chunk))
  }

  /** What a series of notifications did. */
  datatype Fed = Fed(reader: Reader, loads: seq<Bytes>, aborted: bool)

  function Loads(o: Outcome): seq<Bytes> {
    if o.loaded.Some? then [o.loaded.value] else []
  }

  function Feed(r: Reader, chunks: seq<Bytes>): Fed
    decreases |chunks|
  {
    if chunks == [] then Fed(r, [], false)
    else
      var o := Notify(r, chunks[0]);
      if o.aborted then Fed(o.reader, Loads(o), true)
      else
        var rest := Feed(o.reader, chunks[1..]);
        Fed(rest.reader, Loads(o) + rest.loads, rest.aborted)
  }

  function Concat(chunks: seq<Bytes>): Bytes {
    if chunks == [] then [] else chunks[0] + Concat(chunks[1..])
  }

  /** How many notifications come when the prefix of a frame is complete and its body, of
      `n` bytes, is not; `got` bytes came before. */
  function Midway(chunks: seq<Bytes>, got: nat, n: nat): nat {
    if chunks == [] then 0
    else
      var now := got + |chunks[0]|;
      (if PREFIX_SIZE <= now < PREFIX_SIZE + n then 1 else 0) + Midway(chunks[1..], now, n)
  }

  lemma {:induction false} MidwayStops(chunks: seq<Bytes>, got: nat, n: nat)
    requires got >= PREFIX_SIZE + n
    ensures Midway(chunks, got, n) == 0
    decreases |chunks|
  {
    if chunks != [] {
      MidwayStops(chunks[1..], got + |chunks[0]|, n);
    }
  }

  /** A reader with at most `n` bytes to come, counting a prefix just read, never loads a
      body of `n` bytes. */
  lemma {:induction false} OnlyShortLoads(r: Reader, chunks: seq<Bytes>, n: nat)
    requires (r.readed == 0 || r.readed == PREFIX_SIZE) && r.readed + |r.sock| + |Concat(chunks)| <= n
    ensures forall l | l in Feed(r, chunks).loads :: |l| + PREFIX_SIZE <= n
    decreases |chunks|
  {
    hide ReadPacket, ReadPrefix;
    if chunks != [] {
      var o := Notify(r, chunks[0]);
      if !o.aborted {
        OnlyShortLoads(o.reader, chunks[1..], n);
      }
    }
  }

  /** Nothing more arrives after an idle reader's frame. */
  lemma {:induction false} StaysIdle(r: Reader, chunks: seq<Bytes>)
    requires Idle(r) && Concat(chunks) == []
    ensures Feed(r, chunks).loads == [] && Idle(Feed(r, chunks).reader) && !Feed(r, chunks).aborted
    decreases |chunks|
  {
    if chunks != [] {
      StaysIdle(Notify(r, chunks[0]).reader, chunks[1..]);
    }
  }

  /** The frame came through: its body was loaded, once, and the reader is idle again. */
  predicate Delivered(f: Fed, body: Bytes) {
    f.loads == [body] && Idle(f.reader) && !f.aborted
  }

  /** With the prefix taken by an earlier notification, the body is loaded if the next one
      completes it, and lost otherwise. */
  lemma {:induction false} BodyPhase(p: Packet, r: Reader, chunks: seq<Bytes>)
    requires Sendable(p) && r.readed == PREFIX_SIZE && r.size == |PacketBytes(p)| && |r.sock| < r.size
    requires r.sock + Concat(chunks) == PacketBytes(p)
    ensures Delivered(Feed(r, chunks), PacketBytes(p)) <==> Midway(chunks, PREFIX_SIZE + |r.sock|, r.size) == 0
    decreases |chunks|
  {
    hide ReadPacket, ReadPrefix, PacketBytes;
    var n, o := r.size, Notify(r, chunks[0]);
    var now := r.sock + chunks[0];
    PacketRoundTrip(p);
    if |now| >= n {
      assert now + Concat(chunks[1..]) == PacketBytes(p);
      assert now == PacketBytes(p) && now[..n] == now;
      StaysIdle(o.reader, chunks[1..]);
      MidwayStops(chunks[1..], PREFIX_SIZE + |now|, n);
    } else {
      OnlyShortLoads(o.reader, chunks[1..], n);
      assert PacketBytes(p) !in Feed(r, chunks).loads;
      assert Feed(r, chunks).loads != [PacketBytes(p)];
    }
  }

  /** With the prefix not taken yet, and `r.sock` the bytes of the frame that have come. */
  lemma {:induction false} PrefixPhase(p: Packet, r: Reader, chunks: seq<Bytes>)
    requires Sendable(p) && r.readed == 0 && r.sock + Concat(chunks) == Frame(p)
    ensures Delivered(Feed(r, chunks), PacketBytes(p)) <==>
            chunks != [] && Midway(chunks, |r.sock|, |PacketBytes(p)|) <= 1
    decreases |chunks|
  {
    hide ReadPacket, ReadPrefix, PacketBytes, Frame;
    FrameParts(p);
    PacketRoundTrip(p);
    if chunks != [] {
      var n, f := |PacketBytes(p)|, Frame(p);
      var o, now := Notify(r, chunks[0]), r.sock + chunks[0];
      assert now + Concat(chunks[1..]) == f;
      assert now == f[..|now|];
      if |now| < PREFIX_SIZE {
        PrefixPhase(p, o.reader, chunks[1..]);
      } else {
        assert now[..PREFIX_SIZE] == f[..PREFIX_SIZE];
        var body := now[PREFIX_SIZE..];
        assert body + Concat(chunks[1..]) == f[PREFIX_SIZE..];
        if |body| == n {
          assert body == PacketBytes(p) && body[..n] == body;
          StaysIdle(o.reader, chunks[1..]);
          MidwayStops(chunks[1..], |now|, n);
        } else {
          BodyPhase(p, o.reader, chunks[1..]);
        }
      }
    }
  }

  /** A response frame, split in any way, is delivered exactly when at most one notification
      falls between the end of its prefix and the end of its body. */
  lemma ReassemblyIff(p: Packet, r: Reader, chunks: seq<Bytes>)
    requires Sendable(p) && Idle(r) && Concat(chunks) == Frame(p)
    ensures Delivered(Feed(r, chunks), PacketBytes(p)) <==> Midway(chunks, 0, |PacketBytes(p)|) <= 1
  {
    hide Frame, Sendable, Delivered, Feed, Midway;
    FrameParts(p);
    assert r.sock + Concat(chunks) == Frame(p);
    PrefixPhase(p, r, chunks);
  }

  lemma ThreeChunks(a: Bytes, b: Bytes, c: Bytes, n: nat)
    requires |a| == PREFIX_SIZE && |b| == 1 && |c| == n - 1 && n >= 2
    ensures Concat([a, b, c]) == a + b + c && Midway([a, b, c], 0, n) == 2
  {
    var all := [a, b, c];
    assert all[1..] == [b, c] && [b, c][1..] == [c];
    assert Concat([c]) == c && Concat([b, c]) == b + c;
    assert Midway([c], PREFIX_SIZE + 1, n) == 0;
    assert Midway([b, c], PREFIX_SIZE, n) == 1;
  }

  /** Every response can be lost: prefix, one byte of the body, and the rest. */
  lemma ResponseIsLost(p: Packet, r: Reader)
    requires Sendable(p) && Idle(r)
    ensures |Frame(p)| > PREFIX_SIZE + 1
    ensures var f := Frame(p);
            var chunks := [f[..PREFIX_SIZE], f[PREFIX_SIZE..PREFIX_SIZE + 1], f[PREFIX_SIZE + 1..]];
            Concat(chunks) == f && !Delivered(Feed(r, chunks), PacketBytes(p))
  {
    hide Frame, Sendable, Delivered, Feed, PacketBytes, Concat, Midway;
    FrameParts(p);
    var f := Frame(p);
    var a, b, c := f[..PREFIX_SIZE], f[PREFIX_SIZE..PREFIX_SIZE + 1], f[PREFIX_SIZE + 1..];
    ThreeChunks(a, b, c, |PacketBytes(p)|);
    assert a + b + c == f;
    ReassemblyIff(p, r, [a, b, c]);
  }

  /** A prefix and a packet begin with different tags. */
  lemma FirstBytes(p: Packet)
    requires Sendable(p)
    ensures |Frame(p)| > 0 && Frame(p)[0] == 9 && |PacketBytes(p)| > 0 && PacketBytes(p)[0] != 9
  {
    FrameParts(p);
    var n, m := |PacketBytes(p)|, PacketMsg(p);
    PacketMsgReadsBack(p);
    assert PacketBytes(p) == EncodeSub(m.num, if p.AResponse? then RESPONSE else REQUEST, m.sub);
    assert Prefix(n) == EncodeVal(1, Fixed, Num(n)) + EncodeVals([Fixed], [Num(n)], 1);
  }

  /** connect() keeps m_bytesReaded. After a connection that was lost behind a prefix, the
      first response of the next one is delivered exactly when its first notification is
      shorter than the old body, is not the last, and the rest comes as above. */
  lemma StaleReaderIff(p: Packet, r: Reader, chunks: seq<Bytes>)
    requires Sendable(p) && r.readed == PREFIX_SIZE && r.sock == [] && Concat(chunks) == Frame(p) && chunks != []
    ensures Delivered(Feed(r, chunks), PacketBytes(p)) <==>
            |chunks[0]| < r.size && |chunks| > 1 && Midway(chunks[1..], |chunks[0]|, |PacketBytes(p)|) <= 1
  {
    hide ReadPacket, ReadPrefix, PacketBytes, Frame;
    var first, o := chunks[0], Notify(r, chunks[0]);
    assert r.sock + first == first;
    if |first| < r.size {
      PrefixPhase(p, o.reader, chunks[1..]);
    } else if !o.aborted {
      FirstBytes(p);
      var body := PacketBytes(p);
      assert o.loaded == Some(first[..r.size]);
      if r.size > 0 {
        assert Frame(p)[0] == first[0] == first[..r.size][0];
      }
      assert first[..r.size] != body;
      assert Feed(r, chunks).loads[0] == first[..r.size];
    }
  }

  /** Behind a lost prefix even a response that comes in one piece is not delivered. */
  lemma StaleReaderLoses(p: Packet, r: Reader)
    requires Sendable(p) && r.readed == PREFIX_SIZE && r.sock == []
    ensures Concat([Frame(p)]) == Frame(p) && !Delivered(Feed(r, [Frame(p)]), PacketBytes(p))
  {
    hide Frame, Sendable, Delivered, Feed, PacketBytes;
    assert Concat([Frame(p)]) == Frame(p) + [] == Frame(p);
    StaleReaderIff(p, r, [Frame(p)]);
  }

  /** Nine bytes that are no prefix end the connection. */
  lemma UnreadablePrefixAborts(r: Reader, chunk: Bytes)
    requires Idle(r) && |chunk| >= PREFIX_SIZE
    requires ReadPrefix(chunk[..PREFIX_SIZE]) == None || ReadPrefix(chunk[..PREFIX_SIZE]) == Some(0xFFFF_FFFF_FFFF_FFFF)
    ensures Notify(r, chunk).aborted && Notify(r, chunk).loaded == None && Idle(Notify(r, chunk).reader)
  {
    assert [] + chunk == chunk;
  }

  /** So does a body that is no packet. */
  lemma UnreadableBodyAborts(r: Reader, prefix: Bytes, body: Bytes)
    requires Idle(r) && |prefix| == PREFIX_SIZE && ReadPrefix(prefix) == Some(|body|) && |body| < TWO_63
    requires ReadPacket(body).None?
    ensures Notify(r, prefix + body).aborted && Idle(Notify(r, prefix + body).reader)
  {
    hide ReadPrefix, ReadPacket;
    var s := prefix + body;
    assert [] + s == s && s[..PREFIX_SIZE] == prefix && s[PREFIX_SIZE..] == body && body[..|body|] == body;
  }

  /** When more than the frame comes with it, its body is not loaded until the next
      notification; what comes behind it stays in the socket. */
  lemma MoreThanAFrameWaits(p: Packet, r: Reader, more: Bytes, chunk: Bytes)
    requires Sendable(p) && Idle(r) && more != []
    ensures var o := Notify(r, Frame(p) + more);
            var o' := Notify(o.reader, chunk);
            && o.loaded == None && !o.aborted && o.reader == Reader(PREFIX_SIZE, |PacketBytes(p)|, PacketBytes(p) + more)
            && o'.loaded == Some(PacketBytes(p)) && !o'.aborted && o'.reader == Reader(0, |PacketBytes(p)|, more + chunk)
  {
    hide ReadPacket, ReadPrefix, PacketBytes, Frame;
    FrameParts(p);
    PacketRoundTrip(p);
    var s, body := Frame(p) + more, PacketBytes(p);
    assert r.sock + s == s && s[..PREFIX_SIZE] == Frame(p)[..PREFIX_SIZE] && s[PREFIX_SIZE..] == body + more;
    var rest := body + more + chunk;
    assert rest[..|body|] == body && rest[|body|..] == more + chunk;
  }
}
