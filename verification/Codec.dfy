/**
 What the generated serializers, parsers and MergeFrom mean, on message values.

 `Parse` is the plain loop: read a record, dispatch on its number, repeat. The generated
 parser takes shortcuts through it; module Messages proves it equal to this one.
 */
module Codec {
  import opened Basics
  import opened Wire
  import opened Schema

  // ----- Serialization --------------------------------------------------------------

  /** An enum goes on the wire as a 32-bit value extended by its sign to 64 bits. */
  function EnumToWire(n: int): nat
    requires -TWO_31 <= n < TWO_31
  {
    if n < 0 then n + TWO_64 else n
  }

  function EnumFromWire(v: nat): (n: int)
    ensures -TWO_31 <= n < TWO_31 && (v - n) % TWO_32 == 0
  {
    var low := v % TWO_32;
    if low < TWO_31 then low else low - TWO_32
  }

  /** The bytes of a non-default scalar after its tag. */
  function ValBody(k: Kind, v: Val): Bytes
    requires ValidVal(k, v)
  {
    match k
    case UInt64 => Varint(v.n)
    case Enum => Varint(EnumToWire(v.n))
    case Fixed => Fixed64(v.n)
    case Text => Delimited(v.s)
  }

  /** Fields with their default value are not written. */
  function EncodeVal(num: nat, k: Kind, v: Val): Bytes
    requires ValidVal(k, v)
  {
    if v == DefaultVal(k) then [] else Varint(8 * num + WireTypeOfKind(k)) + ValBody(k, v)
  }

  /** The fields from index `i` on. */
  function EncodeVals(kinds: seq<Kind>, vals: seq<Val>, i: nat): Bytes
    requires ValidVals(kinds, vals) && i <= |vals|
    decreases |vals| - i
  {
    if i == |vals| then [] else EncodeVal(i + 1, kinds[i], vals[i]) + EncodeVals(kinds, vals, i + 1)
  }

  function EncodeSub(num: nat, t: Shape, m: Msg): Bytes
    requires Valid(t, m)
    decreases m, 1
  {
    Varint(8 * num + LENGTH_DELIMITED) + Delimited(Encode(t, m))
  }

  function EncodeMany(t: Shape, ms: seq<Msg>): Bytes
    requires forall x | x in ms :: Valid(t, x)
    decreases ms
  {
    if ms == [] then [] else EncodeSub(1, t, ms[0]) + EncodeMany(t, ms[1..])
  }

  function Encode(t: Shape, m: Msg): Bytes
    requires Valid(t, m)
    decreases m, 0
  {
    match t
    case Scalars(kinds) => EncodeVals(kinds, m.vals, 0)
    case Choice(members) => if m.Unset? then [] else EncodeSub(m.num, members[m.num - 1], m.sub)
    case Repeated(elem) => EncodeMany(elem, m.subs)
  }

  // ----- Parsing --------------------------------------------------------------------

  function ReadVal(k: Kind, p: Payload): (r: Option<Val>)
    requires InRange(p)
    ensures r.Some? ==> ValidVal(k, r.value)
  {
    match k
    case UInt64 => if p.OfVarint? then Some(Num(p.v)) else None
    case Enum => if p.OfVarint? then Some(Num(EnumFromWire(p.v))) else None
    case Fixed => if p.OfFixed64? then Some(Num(p.x)) else None
    case Text => if p.OfBytes? && Utf8(p.body) then Some(Str(p.body)) else None
  }

  function WireTypeOfPayload(p: Payload): nat {
    match p
    case OfVarint(_) => VARINT
    case OfFixed64(_) => FIXED64
    case OfBytes(_) => LENGTH_DELIMITED
    case OfFixed32 => FIXED32
  }

  /** A declared number with its declared wire type. Everything else is skipped. */
  predicate Known(t: Shape, num: nat, p: Payload) {
    Declared(t, num) && WireTypeOf(t, num) == WireTypeOfPayload(p)
  }

  /** The submessage that mutable_x() hands out: the one that is set, or a new one. */
  function Current(m: Msg, num: nat, t: Shape): Msg {
    if m.Set? && m.num == num then m.sub else Default(t)
  }

  /** The effect of one record on a message; none when the record makes parsing fail. */
  function Apply(t: Shape, m: Msg, num: nat, p: Payload): (r: Option<Msg>)
    requires Valid(t, m) && InRange(p)
    ensures r.Some? ==> Valid(t, r.value)
    decreases PayloadSize(p), 1
  {
    if !Known(t, num, p) then Some(m)
    else
      match t
      case Scalars(kinds) => (
        match ReadVal(kinds[num - 1], p)
        case None => None
        case Some(v) => Some(Fields(m.vals[num - 1 := v])))
      case Choice(members) => (
        match Parse(members[num - 1], Current(m, num, members[num - 1]), p.body)
        case None => None
        case Some(sub) => Some(Set(num, sub)))
      case Repeated(elem) => (
        match Parse(elem, Default(elem), p.body)
        case None => None
        case Some(sub) => Some(Many(m.subs + [sub])))
  }

  /** Merges all of `s` into `m`; none if `s` is not a sequence of acceptable records. */
  function Parse(t: Shape, m: Msg, s: Bytes): (r: Option<Msg>)
    requires Valid(t, m)
    ensures r.Some? ==> Valid(t, r.value)
    decreases |s|, 0
  {
    if s == [] then Some(m)
    else
      match ReadRecord(s)
      case None => None
      case Some(rec) =>
        match Apply(t, m, rec.num, rec.payload)
        case None => None
        case Some(m') => Parse(t, m', s[rec.size..])
  }

  /** ParseFromArray: into a cleared message, all bytes. */
  function Decode(t: Shape, s: Bytes): (r: Option<Msg>)
    ensures r.Some? ==> Valid(t, r.value)
  {
    Parse(t, Default(t), s)
  }

  // ----- Merging --------------------------------------------------------------------

  function MergeVals(kinds: seq<Kind>, a: seq<Val>, b: seq<Val>): (r: seq<Val>)
    requires ValidVals(kinds, a) && ValidVals(kinds, b)
    ensures ValidVals(kinds, r)
  {
    seq(|kinds|, i requires 0 <= i < |kinds| => if b[i] == DefaultVal(kinds[i]) then a[i] else b[i])
  }

  /** MergeFrom: what `b` sets wins, repeated fields append, a set oneof member merges
      into the same member and replaces another one. */
  function Merge(t: Shape, a: Msg, b: Msg): (r: Msg)
    requires Valid(t, a) && Valid(t, b)
    ensures Valid(t, r)
    decreases b
  {
    match t
    case Scalars(kinds) => Fields(MergeVals(kinds, a.vals, b.vals))
    case Choice(members) =>
      if b.Unset? then a
      else Set(b.num, Merge(members[b.num - 1], Current(a, b.num, members[b.num - 1]), b.sub))
    case Repeated(_) => Many(a.subs + b.subs)
  }

  // ----- Sizes ----------------------------------------------------------------------

  function ValSize(k: Kind, v: Val): nat
    requires ValidVal(k, v)
  {
    if v == DefaultVal(k) then 0
    else
      match k
      case UInt64 => 1 + VarintSize(v.n)
      case Enum => 1 + (if v.n < 0 then 10 else VarintSize(v.n))
      case Fixed => 1 + 8
      case Text => 1 + VarintSize(|v.s|) + |v.s|
  }

  function ValsSize(kinds: seq<Kind>, vals: seq<Val>, i: nat): nat
    requires ValidVals(kinds, vals) && i <= |vals|
    decreases |vals| - i
  {
    if i == |vals| then 0 else ValSize(kinds[i], vals[i]) + ValsSize(kinds, vals, i + 1)
  }

  function SubSize(t: Shape, m: Msg): nat
    requires Valid(t, m)
    decreases m, 1
  {
    1 + VarintSize(Size(t, m)) + Size(t, m)
  }

  function ManySize(t: Shape, ms: seq<Msg>): (n: nat)
    requires forall x | x in ms :: Valid(t, x)
    ensures n >= |ms|
    decreases ms
  {
    if ms == [] then 0 else SubSize(t, ms[0]) + ManySize(t, ms[1..])
  }

  /** What ByteSize() computes, without producing a byte. */
  function Size(t: Shape, m: Msg): nat
    requires Valid(t, m)
    decreases m, 0
  {
    match t
    case Scalars(kinds) => ValsSize(kinds, m.vals, 0)
    case Choice(members) => if m.Unset? then 0 else SubSize(members[m.num - 1], m.sub)
    case Repeated(elem) => ManySize(elem, m.subs)
  }
}
