/**
 Frames: a packet behind a LengthPrefix message that always takes nine bytes.
 */
module Framing {
  import opened Basics
  import opened Wire
  import opened Schema
  import opened Codec
  import opened CodecLaws
  import opened Protocol

  const PREFIX_SIZE: nat := 9

  /** The serialized LengthPrefix. A length of 0 would be skipped as a default value. */
  function Prefix(length: U64): Bytes {
    Encode(LENGTH_PREFIX, Fields([Num(length)]))
  }

  function ReadPrefix(s: Bytes): Option<U64> {
    match Decode(LENGTH_PREFIX, s)
    case None => None
    case Some(m) => Some(m.vals[0].n)
  }

  /** The prefix has its fixed size exactly for non-zero lengths. */
  lemma PrefixSize(length: U64)
    ensures |Prefix(length)| == if length == 0 then 0 else PREFIX_SIZE
  {
    var vals := [Num(length)];
    assert EncodeVals([Fixed], vals, 1) == [];
    assert Prefix(length) == EncodeVal(1, Fixed, vals[0]) + [];
    VarintLength(8 + FIXED64);
  }

  lemma PrefixReadsBack(length: U64)
    ensures ReadPrefix(Prefix(length)) == Some(length)
  {
    hide Encode, Decode;
    var m := Fields([Num(length)]);
    assert Valid(LENGTH_PREFIX, m);
    ProtocolIsCompact();
    PrefixSize(length);
    SizeIsLength(LENGTH_PREFIX, m);
    RoundTrip(LENGTH_PREFIX, m);
  }

  function Frame(p: Packet): Bytes
    requires Sendable(p)
  {
    Prefix(|PacketBytes(p)|) + PacketBytes(p)
  }

  /** The parts of a frame, as a receiver takes them from the stream. */
  lemma FrameParts(p: Packet)
    requires Sendable(p)
    ensures |Frame(p)| == PREFIX_SIZE + |PacketBytes(p)| && |PacketBytes(p)| >= 2
    ensures ReadPrefix(Frame(p)[..PREFIX_SIZE]) == Some(|PacketBytes(p)|)
    ensures Frame(p)[PREFIX_SIZE..] == PacketBytes(p)
    ensures ReadPacket(Frame(p)[PREFIX_SIZE..]) == Some(p)
  {
    hide PacketBytes, ReadPacket, ReadPrefix, Prefix;
    PacketNotEmpty(p);
    PrefixSize(|PacketBytes(p)|);
    PrefixReadsBack(|PacketBytes(p)|);
    PacketRoundTrip(p);
    assert Frame(p)[..PREFIX_SIZE] == Prefix(|PacketBytes(p)|);
  }

  function Frames(ps: seq<Packet>): Bytes
    requires forall p | p in ps :: Sendable(p)
  {
    if ps == [] then [] else Frame(ps[0]) + Frames(ps[1..])
  }

  /** What a receiver makes of a whole stream: prefix, that many bytes, and again. */
  function Unframe(s: Bytes): Option<seq<Packet>>
    decreases |s|
  {
    if s == [] then Some([])
    else if |s| < PREFIX_SIZE || ReadPrefix(s[..PREFIX_SIZE]).None? then None
    else
      var length := ReadPrefix(s[..PREFIX_SIZE]).value;
      if length > |s| - PREFIX_SIZE then None
      else
        var p := ReadPacket(s[PREFIX_SIZE..PREFIX_SIZE + length]);
        var rest := Unframe(s[PREFIX_SIZE + length..]);
        if p.None? || rest.None? then None else Some([p.value] + rest.value)
  }

  /** Frames are self-delimiting: any concatenation is read as the packets it was made of. */
  lemma {:induction false} FramesReadBack(ps: seq<Packet>)
    requires forall p | p in ps :: Sendable(p)
    ensures Unframe(Frames(ps)) == Some(ps)
  {
    hide ReadPrefix, ReadPacket, Frame, PacketBytes, Sendable;
    if ps != [] {
      var p, s := ps[0], Frames(ps);
      FrameParts(p);
      FramesReadBack(ps[1..]);
      var n := |Frame(p)|;
      assert s[..PREFIX_SIZE] == Frame(p)[..PREFIX_SIZE];
      assert s[PREFIX_SIZE..n] == Frame(p)[PREFIX_SIZE..];
      assert s[n..] == Frames(ps[1..]);
      assert [p] + ps[1..] == ps;
    }
  }

  lemma {:induction false} FramesSnoc(ps: seq<Packet>, p: Packet)
    requires (forall q | q in ps :: Sendable(q)) && Sendable(p)
    ensures Frames(ps + [p]) == Frames(ps) + Frame(p)
  {
    hide Frame, Sendable;
    if ps == [] {
      assert ps + [p] == [p] && Frames([p][1..]) == [];
    } else {
      assert (ps + [p])[0] == ps[0] && (ps + [p])[1..] == ps[1..] + [p];
      FramesSnoc(ps[1..], p);
    }
  }

  /** One more prefix and body are read as one more packet. */
  lemma {:induction false} UnframeSnoc(s: Bytes, body: Bytes, prefix: Bytes)
    requires Unframe(s).Some? && |prefix| == PREFIX_SIZE && ReadPrefix(prefix) == Some(|body|)
    requires ReadPacket(body).Some?
    ensures Unframe(s + prefix + body) == Some(Unframe(s).value + [ReadPacket(body).value])
    decreases |s|
  {
    hide ReadPrefix, ReadPacket;
    var all := s + prefix + body;
    if s == [] {
      assert all[..PREFIX_SIZE] == prefix && all[PREFIX_SIZE..PREFIX_SIZE + |body|] == body;
      assert all[PREFIX_SIZE + |body|..] == [];
      var last := ReadPacket(body).value;
      assert Unframe(all) == Some([last] + []);
      assert [last] + [] == Unframe(s).value + [last];
    } else {
      var n := PREFIX_SIZE + ReadPrefix(s[..PREFIX_SIZE]).value;
      assert all[..PREFIX_SIZE] == s[..PREFIX_SIZE];
      assert all[PREFIX_SIZE..n] == s[PREFIX_SIZE..n];
      assert all[n..] == s[n..] + prefix + body;
      UnframeSnoc(s[n..], body, prefix);
      var first, rest, last := ReadPacket(s[PREFIX_SIZE..n]).value, Unframe(s[n..]).value, ReadPacket(body).value;
      assert [first] + (rest + [last]) == [first] + rest + [last];
    }
  }

  lemma {:induction false} FramesAppend(ps: seq<Packet>, qs: seq<Packet>)
    requires (forall p | p in ps :: Sendable(p)) && (forall p | p in qs :: Sendable(p))
    ensures Frames(ps + qs) == Frames(ps) + Frames(qs)
    decreases |qs|
  {
    hide Frame, Sendable;
    if qs == [] {
      assert ps + qs == ps;
    } else {
      FramesSnoc(ps, qs[0]);
      FramesAppend(ps + [qs[0]], qs[1..]);
      assert ps + [qs[0]] + qs[1..] == ps + qs;
    }
  }

  /** Whole packets read from the beginning of a stream are the first ones of the stream. */
  lemma {:induction false} UnframeOfPrefix(s: Bytes, ps: seq<Packet>)
    requires forall p | p in ps :: Sendable(p)
    requires s <= Frames(ps) && Unframe(s).Some?
    ensures Unframe(s).value <= ps
    decreases |ps|
  {
    hide ReadPrefix, ReadPacket, Frame, PacketBytes;
    if s != [] {
      var p, n, all := ps[0], |Frame(ps[0])|, Frames(ps);
      FrameParts(p);
      assert s == all[..|s|];
      assert s[..PREFIX_SIZE] == all[..PREFIX_SIZE] == Frame(p)[..PREFIX_SIZE];
      assert n <= |s|;
      assert s[PREFIX_SIZE..n] == all[PREFIX_SIZE..n] == Frame(p)[PREFIX_SIZE..];
      assert s[n..] == all[n..|s|] && all[n..] == Frames(ps[1..]);
      UnframeOfPrefix(s[n..], ps[1..]);
    }
  }
}
