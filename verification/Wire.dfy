/**
 The primitives of the Protocol Buffers encoding that the generated code calls:
 base 128 varints, little-endian fixed64, records and their payloads, and the UTF-8
 check. They are not part of the repository; they follow the Protocol Buffers
 Encoding specification ("Base 128 Varints", "Message Structure",
 "Length-Delimited Records") and section 4 of RFC 3629.
 */
module Wire {
  import opened Basics

  const MAX_VARINT_BYTES: nat := 10

  /** A number together with the number of bytes it was read from. */
  datatype Read = Read(value: nat, size: nat)

  // ----- Varints --------------------------------------------------------------------

  function Varint(n: nat): Bytes {
    if n < 128 then [n] else [128 + n % 128] + Varint(n / 128)
  }

  function VarintSize(n: nat): nat {
    if n < 128 then 1 else 1 + VarintSize(n / 128)
  }

  /** Reads at most `budget` groups of seven bits; fails on a varint that does not end. */
  function RawVarint(s: Bytes, budget: nat): (r: Option<Read>)
    ensures r.Some? ==> 1 <= r.value.size <= |s|
    decreases budget
  {
    if budget == 0 || s == [] then None
    else if s[0] < 128 then Some(Read(s[0], 1))
    else
      match RawVarint(s[1..], budget - 1)
      case None => None
      case Some(r) => Some(Read(s[0] - 128 + 128 * r.value, r.size + 1))
  }

  /** A varint holds at most 64 bits: higher bits are dropped. */
  function ReadVarint(s: Bytes): (r: Option<Read>)
    ensures r.Some? ==> 1 <= r.value.size <= |s| && r.value.value < TWO_64
  {
    match RawVarint(s, MAX_VARINT_BYTES)
    case None => None
    case Some(r) => Some(Read(r.value % TWO_64, r.size))
  }

  lemma VarintLength(n: nat)
    ensures |Varint(n)| == VarintSize(n)
  {
  }

  function Power(base: nat, k: nat): nat {
    if k == 0 then 1 else base * Power(base, k - 1)
  }

  lemma VarintSizeBound(n: nat, k: nat)
    requires k > 0 && n < Power(128, k)
    ensures VarintSize(n) <= k
  {
    if n >= 128 {
      assert n / 128 < Power(128, k - 1) by { assert n < 128 * Power(128, k - 1); }
      VarintSizeBound(n / 128, k - 1);
    }
  }

  lemma VarintFits(n: nat)
    requires n < TWO_64
    ensures VarintSize(n) <= MAX_VARINT_BYTES
  {
    assert Power(128, 10) == 128 * 128 * 128 * 128 * 128 * 128 * 128 * 128 * 128 * 128 by {
      assert Power(128, 2) == 128 * 128;
      assert Power(128, 4) == 128 * 128 * Power(128, 2);
      assert Power(128, 6) == 128 * 128 * Power(128, 4);
      assert Power(128, 8) == 128 * 128 * Power(128, 6);
    }
    VarintSizeBound(n, 10);
  }

  lemma {:induction false} RawVarintReadsBack(n: nat, rest: Bytes, budget: nat)
    requires VarintSize(n) <= budget
    ensures RawVarint(Varint(n) + rest, budget) == Some(Read(n, VarintSize(n)))
  {
    if n >= 128 {
      RawVarintReadsBack(n / 128, rest, budget - 1);
      assert (Varint(n) + rest)[1..] == Varint(n / 128) + rest;
    }
  }

  /** Reading what was written returns the number, whatever follows it. */
  lemma VarintReadsBack(n: nat, rest: Bytes)
    requires n < TWO_64
    ensures ReadVarint(Varint(n) + rest) == Some(Read(n, |Varint(n)|))
  {
    VarintFits(n);
    VarintLength(n);
    RawVarintReadsBack(n, rest, MAX_VARINT_BYTES);
  }

  lemma {:induction false} RawVarintIgnoresTail(s: Bytes, tail: Bytes, budget: nat)
    requires RawVarint(s, budget).Some?
    ensures RawVarint(s + tail, budget) == RawVarint(s, budget)
  {
    if s[0] >= 128 {
      assert (s + tail)[1..] == s[1..] + tail;
      RawVarintIgnoresTail(s[1..], tail, budget - 1);
    }
  }

  /** The number that groups of seven bits make, the lowest first. */
  function FromGroups(s: Bytes): nat {
    if s == [] then 0 else s[0] % 128 + 128 * FromGroups(s[1..])
  }

  /** A varint of `n` bytes: all but the last have their high bit set. */
  predicate VarintOf(s: Bytes, n: nat) {
    1 <= n <= |s| && s[n - 1] < 128 && forall i | 0 <= i < n - 1 :: s[i] >= 128
  }

  lemma {:induction false} RawVarintFound(s: Bytes, budget: nat, n: nat)
    requires VarintOf(s, n) && n <= budget
    ensures RawVarint(s, budget) == Some(Read(FromGroups(s[..n]), n))
    decreases n
  {
    assert s[..n][1..] == s[1..][..n - 1];
    if n == 1 {
      assert FromGroups(s[..1][1..]) == 0;
    } else {
      RawVarintFound(s[1..], budget - 1, n - 1);
    }
  }

  lemma {:induction false} RawVarintEnds(s: Bytes, budget: nat)
    requires RawVarint(s, budget).Some?
    ensures RawVarint(s, budget).value.size <= budget && VarintOf(s, RawVarint(s, budget).value.size)
    decreases budget
  {
    if s[0] >= 128 {
      RawVarintEnds(s[1..], budget - 1);
      var n := RawVarint(s[1..], budget - 1).value.size;
      assert forall i | 1 <= i < n :: s[i] == s[1..][i - 1];
    }
  }

  /** A varint is read whatever its form, over-long ones included: its size is the number of
      bytes up to the first below 128, its value what their groups make. */
  lemma ReadVarintIff(s: Bytes, n: nat)
    ensures ReadVarint(s).Some? && ReadVarint(s).value.size == n <==> VarintOf(s, n) && n <= MAX_VARINT_BYTES
    ensures VarintOf(s, n) && n <= MAX_VARINT_BYTES ==> ReadVarint(s).value.value == FromGroups(s[..n]) % TWO_64
  {
    if VarintOf(s, n) && n <= MAX_VARINT_BYTES {
      RawVarintFound(s, MAX_VARINT_BYTES, n);
    }
    if RawVarint(s, MAX_VARINT_BYTES).Some? {
      RawVarintEnds(s, MAX_VARINT_BYTES);
    }
  }

  // ----- Fixed-width numbers --------------------------------------------------------

  function LittleEndian(x: nat, width: nat): (s: Bytes)
    ensures |s| == width
  {
    if width == 0 then [] else [x % 256] + LittleEndian(x / 256, width - 1)
  }

  function FromLittleEndian(s: Bytes): nat {
    if s == [] then 0 else s[0] + 256 * FromLittleEndian(s[1..])
  }

  lemma {:induction false} LittleEndianReadsBack(x: nat, width: nat)
    requires x < Power(256, width)
    ensures FromLittleEndian(LittleEndian(x, width)) == x
  {
    if width > 0 {
      assert x / 256 < Power(256, width - 1) by { assert x < 256 * Power(256, width - 1); }
      LittleEndianReadsBack(x / 256, width - 1);
    }
  }

  lemma {:induction false} FromLittleEndianBound(s: Bytes)
    ensures FromLittleEndian(s) < Power(256, |s|)
  {
    if s != [] {
      FromLittleEndianBound(s[1..]);
    }
  }

  lemma EightBytes()
    ensures Power(256, 8) == TWO_64
  {
    assert Power(256, 2) == 256 * 256;
    assert Power(256, 4) == 256 * 256 * Power(256, 2);
    assert Power(256, 6) == 256 * 256 * Power(256, 4);
  }

  function Fixed64(x: nat): Bytes {
    LittleEndian(x, 8)
  }

  function FromFixed64(s: Bytes): (x: nat)
    requires |s| == 8
    ensures x < TWO_64
  {
    FromLittleEndianBound(s);
    EightBytes();
    FromLittleEndian(s)
  }

  /** `x` without its lowest `k` bytes. */
  function Down(x: nat, k: nat): nat {
    if k == 0 then x else Down(x / 256, k - 1)
  }

  lemma {:induction false} DownNext(x: nat, k: nat)
    ensures Down(x, k + 1) == Down(x, k) / 256
  {
    if k > 0 {
      DownNext(x / 256, k - 1);
    }
  }

  lemma {:induction false} LittleEndianDigit(x: nat, width: nat, i: nat)
    requires i < width
    ensures LittleEndian(x, width)[i] == Down(x, i) % 256
    decreases i
  {
    if i > 0 {
      LittleEndianDigit(x / 256, width - 1, i - 1);
    }
  }

  /** The least significant byte comes first. */
  lemma Fixed64Bytes(x: nat)
    ensures Fixed64(x) == [x % 256, x / 0x100 % 256, x / 0x1_0000 % 256, x / 0x100_0000 % 256,
                           x / 0x1_0000_0000 % 256, x / 0x100_0000_0000 % 256,
                           x / 0x1_0000_0000_0000 % 256, x / 0x100_0000_0000_0000 % 256]
  {
    hide LittleEndian, Down;
    forall i | 0 <= i < 8
      ensures LittleEndian(x, 8)[i] == Down(x, i) % 256
    {
      LittleEndianDigit(x, 8, i);
    }
    Downs(x);
  }

  lemma Downs(x: nat)
    ensures Down(x, 0) == x && Down(x, 1) == x / 0x100 && Down(x, 2) == x / 0x1_0000
    ensures Down(x, 3) == x / 0x100_0000 && Down(x, 4) == x / 0x1_0000_0000
    ensures Down(x, 5) == x / 0x100_0000_0000 && Down(x, 6) == x / 0x1_0000_0000_0000
    ensures Down(x, 7) == x / 0x100_0000_0000_0000
  {
    assert Down(x, 0) == x;
    hide Down;
    DownNext(x, 0);
    DownNext(x, 1);
    DownNext(x, 2);
    DownNext(x, 3);
    DownNext(x, 4);
    DownNext(x, 5);
    DownNext(x, 6);
  }

  lemma Fixed64ReadsBack(x: nat)
    requires x < TWO_64
    ensures FromFixed64(Fixed64(x)) == x
  {
    EightBytes();
    LittleEndianReadsBack(x, 8);
  }

  // ----- Records --------------------------------------------------------------------

  const VARINT: nat := 0
  const FIXED64: nat := 1
  const LENGTH_DELIMITED: nat := 2
  const START_GROUP: nat := 3
  const END_GROUP: nat := 4
  const FIXED32: nat := 5

  /** What follows a tag on the wire. */
  datatype Payload =
    | OfVarint(v: nat)
    | OfFixed64(x: nat)
    | OfBytes(body: Bytes)
    | OfFixed32

  /** One field on the wire: its number, its payload and how many bytes it takes. */
  datatype Record = Record(num: nat, payload: Payload, size: nat)

  function PayloadSize(p: Payload): nat {
    if p.OfBytes? then |p.body| else 0
  }

  predicate InRange(p: Payload) {
    match p
    case OfVarint(v) => v < TWO_64
    case OfFixed64(x) => x < TWO_64
    case _ => true
  }

  /** A payload read by its wire type. Groups have no payload of their own and fail. */
  function ReadPayload(wireType: nat, s: Bytes): (r: Option<(Payload, nat)>)
    ensures r.Some? ==> 1 <= r.value.1 <= |s| && PayloadSize(r.value.0) < |s| && InRange(r.value.0)
  {
    if wireType == VARINT then
      match ReadVarint(s) {
        case None => None
        case Some(r) => Some((OfVarint(r.value), r.size))
      }
    else if wireType == FIXED64 then
      if |s| < 8 then None else Some((OfFixed64(FromFixed64(s[..8])), 8))
    else if wireType == LENGTH_DELIMITED then
      match ReadVarint(s) {
        case None => None
        case Some(r) =>
          if r.value > |s| - r.size then None
          else Some((OfBytes(s[r.size..r.size + r.value]), r.size + r.value))
      }
    else if wireType == FIXED32 then
      if |s| < 4 then None else Some((OfFixed32, 4))
    else None
  }

  /** A tag is a varint of 32 bits: field number and wire type. */
  function ReadTag(s: Bytes): (r: Option<Read>)
    ensures r.Some? ==> 1 <= r.value.size <= |s|
  {
    match ReadVarint(s)
    case None => None
    case Some(r) => Some(Read(r.value % TWO_32, r.size))
  }

  /** A tag is read in any form, and only its lowest 32 bits count. */
  lemma ReadTagIff(s: Bytes, n: nat)
    ensures ReadTag(s).Some? && ReadTag(s).value.size == n <==> VarintOf(s, n) && n <= MAX_VARINT_BYTES
    ensures VarintOf(s, n) && n <= MAX_VARINT_BYTES ==> ReadTag(s).value.value == FromGroups(s[..n]) % TWO_32
  {
    hide ReadVarint, VarintOf, FromGroups;
    ReadVarintIff(s, n);
  }

  /** The first record of `s`; none if it is cut short, a group, or has field number 0. */
  function ReadRecord(s: Bytes): (r: Option<Record>)
    ensures r.Some? ==> 1 <= r.value.size <= |s| && PayloadSize(r.value.payload) < |s| && InRange(r.value.payload)
  {
    match ReadTag(s)
    case None => None
    case Some(tag) =>
      if tag.value / 8 == 0 then None
      else
        match ReadPayload(tag.value % 8, s[tag.size..])
        case None => None
        case Some(p) => Some(Record(tag.value / 8, p.0, tag.size + p.1))
  }

  lemma ReadVarintIgnoresTail(s: Bytes, tail: Bytes)
    requires ReadVarint(s).Some?
    ensures ReadVarint(s + tail) == ReadVarint(s)
  {
    RawVarintIgnoresTail(s, tail, MAX_VARINT_BYTES);
  }

  lemma ReadPayloadIgnoresTail(wireType: nat, s: Bytes, tail: Bytes)
    requires ReadPayload(wireType, s).Some?
    ensures ReadPayload(wireType, s + tail) == ReadPayload(wireType, s)
  {
    hide RawVarint, ReadVarint, FromFixed64;
    if wireType == VARINT || wireType == LENGTH_DELIMITED {
      ReadVarintIgnoresTail(s, tail);
      if wireType == LENGTH_DELIMITED {
        var r := ReadVarint(s).value;
        assert (s + tail)[r.size..r.size + r.value] == s[r.size..r.size + r.value];
      }
    } else if wireType == FIXED64 {
      assert (s + tail)[..8] == s[..8];
    }
  }

  /** A complete record reads the same whatever bytes follow it. */
  lemma ReadRecordIgnoresTail(s: Bytes, tail: Bytes)
    requires ReadRecord(s).Some?
    ensures ReadRecord(s + tail) == ReadRecord(s)
  {
    hide ReadPayload, ReadVarint;
    ReadVarintIgnoresTail(s, tail);
    var tag := ReadTag(s).value;
    assert (s + tail)[tag.size..] == s[tag.size..] + tail;
    ReadPayloadIgnoresTail(tag.value % 8, s[tag.size..], tail);
  }

  /** A record whose tag is a single byte. */
  lemma ReadRecordOneByteTag(tag: Byte, rest: Bytes)
    requires 8 <= tag < 128
    ensures Varint(tag) == [tag]
    ensures ReadTag([tag] + rest) == Some(Read(tag, 1))
    ensures ReadRecord([tag] + rest) ==
            match ReadPayload(tag % 8, rest) {
              case None => None
              case Some(p) => Some(Record(tag / 8, p.0, 1 + p.1))
            }
  {
    assert ([tag] + rest)[1..] == rest;
  }

  // ----- Writing payloads -----------------------------------------------------------

  function Delimited(body: Bytes): Bytes {
    Varint(|body|) + body
  }

  lemma DelimitedReadsBack(body: Bytes, rest: Bytes)
    requires |body| < TWO_64
    ensures ReadPayload(LENGTH_DELIMITED, Delimited(body) + rest) == Some((OfBytes(body), |Delimited(body)|))
  {
    var s := Delimited(body) + rest;
    assert s == Varint(|body|) + (body + rest);
    VarintReadsBack(|body|, body + rest);
    var n := |Varint(|body|)|;
    assert s[n..n + |body|] == body;
  }

  lemma TaggedRecord(num: nat, wireType: nat, rest: Bytes)
    requires num < 0x2000_0000 && wireType < 8
    ensures ReadRecord(Varint(8 * num + wireType) + rest) ==
            if num == 0 then None
            else
              match ReadPayload(wireType, rest) {
                case None => None
                case Some(p) => Some(Record(num, p.0, |Varint(8 * num + wireType)| + p.1))
              }
  {
    hide ReadVarint, Varint, ReadPayload;
    var tag := 8 * num + wireType;
    VarintReadsBack(tag, rest);
    assert (Varint(tag) + rest)[|Varint(tag)|..] == rest;
  }

  /** The records of the specification, one wire type after the other: a varint, eight
      bytes, a length and that many bytes, four bytes. */
  lemma RecordsRead(num: nat, n: nat, x: Bytes, rest: Bytes)
    requires 0 < num < 0x2000_0000 && n < TWO_64 && |x| < TWO_64
    ensures var s := Varint(8 * num) + (Varint(n) + rest);
            ReadRecord(s) == Some(Record(num, OfVarint(n), |s| - |rest|))
    ensures |x| == 8 ==>
              var s := Varint(8 * num + 1) + (x + rest);
              ReadRecord(s) == Some(Record(num, OfFixed64(FromFixed64(x)), |s| - |rest|))
    ensures var s := Varint(8 * num + 2) + (Varint(|x|) + x + rest);
            ReadRecord(s) == Some(Record(num, OfBytes(x), |s| - |rest|))
    ensures |x| == 4 ==>
              var s := Varint(8 * num + 5) + (x + rest);
              ReadRecord(s) == Some(Record(num, OfFixed32, |s| - |rest|))
  {
    hide ReadVarint, Varint, ReadRecord, FromFixed64;
    TaggedRecord(num, 0, Varint(n) + rest);
    VarintReadsBack(n, rest);
    TaggedRecord(num, 1, x + rest);
    assert |x| == 8 ==> (x + rest)[..8] == x;
    TaggedRecord(num, 2, Varint(|x|) + x + rest);
    DelimitedReadsBack(x, rest);
    assert Delimited(x) == Varint(|x|) + x;
    TaggedRecord(num, 5, x + rest);
  }

  /** Groups, other wire types and field number 0 are no records. */
  lemma NoRecord(num: nat, wireType: nat, rest: Bytes)
    requires num < 0x2000_0000 && wireType < 8
    requires num == 0 || wireType in {START_GROUP, END_GROUP, 6, 7}
    ensures ReadRecord(Varint(8 * num + wireType) + rest) == None
  {
    hide ReadRecord, Varint;
    TaggedRecord(num, wireType, rest);
  }

  // ----- UTF-8 ----------------------------------------------------------------------

  predicate Tail(b: Byte) {
    0x80 <= b <= 0xBF
  }

  /** The length of the UTF-8 character that `s` starts with, 0 if there is none. */
  function CharLength(s: Bytes): (n: nat)
    ensures n <= |s|
  {
    if |s| >= 1 && s[0] <= 0x7F then 1
    else if |s| >= 2 && 0xC2 <= s[0] <= 0xDF && Tail(s[1]) then 2
    else if |s| >= 3 && s[0] == 0xE0 && 0xA0 <= s[1] <= 0xBF && Tail(s[2]) then 3
    else if |s| >= 3 && (0xE1 <= s[0] <= 0xEC || 0xEE <= s[0] <= 0xEF) && Tail(s[1]) && Tail(s[2]) then 3
    else if |s| >= 3 && s[0] == 0xED && 0x80 <= s[1] <= 0x9F && Tail(s[2]) then 3
    else if |s| >= 4 && s[0] == 0xF0 && 0x90 <= s[1] <= 0xBF && Tail(s[2]) && Tail(s[3]) then 4
    else if |s| >= 4 && 0xF1 <= s[0] <= 0xF3 && Tail(s[1]) && Tail(s[2]) && Tail(s[3]) then 4
    else if |s| >= 4 && s[0] == 0xF4 && 0x80 <= s[1] <= 0x8F && Tail(s[2]) && Tail(s[3]) then 4
    else 0
  }

  predicate Utf8(s: Bytes) {
    s == [] || (CharLength(s) > 0 && Utf8(s[CharLength(s)..]))
  }

  /** Joining two valid strings gives a valid string. */
  lemma {:induction false} Utf8Concat(a: Bytes, b: Bytes)
    requires Utf8(a) && Utf8(b)
    ensures Utf8(a + b)
  {
    if a == [] {
      assert a + b == b;
    } else {
      var n := CharLength(a);
      assert CharLength(a + b) == n;
      assert (a + b)[n..] == a[n..] + b;
      Utf8Concat(a[n..], b);
    }
  }

  /** A Unicode scalar value: a code point that is no surrogate. */
  type Scalar = c: int | 0 <= c < 0x11_0000 && !(0xD800 <= c < 0xE000)

  /** The bits of a scalar value in one to four bytes, six to each byte behind the first. */
  function CharBytes(c: Scalar): Bytes {
    if c < 0x80 then [c]
    else if c < 0x800 then [0xC0 + c / 64, 0x80 + c % 64]
    else if c < 0x1_0000 then [0xE0 + c / 4096, 0x80 + c / 64 % 64, 0x80 + c % 64]
    else [0xF0 + c / 262144, 0x80 + c / 4096 % 64, 0x80 + c / 64 % 64, 0x80 + c % 64]
  }

  function TextBytes(text: seq<Scalar>): Bytes {
    if text == [] then [] else CharBytes(text[0]) + TextBytes(text[1..])
  }

  lemma CharIsRead(c: Scalar, rest: Bytes)
    ensures CharLength(CharBytes(c) + rest) == |CharBytes(c)|
  {
    var s := CharBytes(c) + rest;
    assert s[..|CharBytes(c)|] == CharBytes(c);
    if 0x800 <= c < 0x1_0000 {
      assert c / 4096 == 0 ==> c / 64 % 64 >= 32;
      assert c / 4096 == 13 ==> c / 64 % 64 < 32;
    } else if 0x1_0000 <= c {
      assert c / 262144 == 0 ==> c / 4096 % 64 >= 16;
      assert c / 262144 == 4 ==> c / 4096 % 64 < 16;
    }
  }

  lemma TwoByteChar(a: int, b: int)
    requires 2 <= a < 32 && 0 <= b < 64
    ensures var c: Scalar := 64 * a + b; CharBytes(c) == [0xC0 + a, 0x80 + b]
  {
  }

  lemma ThreeByteChar(a: int, b: int, d: int)
    requires 0 <= a < 16 && 0 <= b < 64 && 0 <= d < 64
    requires (a == 0 ==> b >= 32) && (a == 13 ==> b < 32)
    ensures var c: Scalar := 4096 * a + 64 * b + d; CharBytes(c) == [0xE0 + a, 0x80 + b, 0x80 + d]
  {
    var c := 4096 * a + 64 * b + d;
    assert c / 4096 == a && c / 64 == 64 * a + b && c % 64 == d;
  }

  lemma FourByteChar(a: int, b: int, d: int, e: int)
    requires 0 <= a < 5 && 0 <= b < 64 && 0 <= d < 64 && 0 <= e < 64
    requires (a == 0 ==> b >= 16) && (a == 4 ==> b < 16)
    ensures var c: Scalar := 262144 * a + 4096 * b + 64 * d + e;
            CharBytes(c) == [0xF0 + a, 0x80 + b, 0x80 + d, 0x80 + e]
  {
    var c := 262144 * a + 4096 * b + 64 * d + e;
    assert c / 262144 == a && c / 4096 == 64 * a + b && c / 64 == 4096 * a + 64 * b + d && c % 64 == e;
  }

  lemma CharKind(s: Bytes)
    ensures CharLength(s) == 1 ==> s[0] < 0x80
    ensures CharLength(s) == 2 ==> 0xC2 <= s[0] < 0xE0 && Tail(s[1])
    ensures CharLength(s) == 3 ==> && 0xE0 <= s[0] < 0xF0 && Tail(s[1]) && Tail(s[2])
                                   && (s[0] == 0xE0 ==> s[1] >= 0xA0) && (s[0] == 0xED ==> s[1] < 0xA0)
    ensures CharLength(s) == 4 ==> && 0xF0 <= s[0] < 0xF5 && Tail(s[1]) && Tail(s[2]) && Tail(s[3])
                                   && (s[0] == 0xF0 ==> s[1] >= 0x90) && (s[0] == 0xF4 ==> s[1] < 0x90)
    ensures CharLength(s) <= 4
  {
  }

  /** The scalar value of a character, put together from the low bits of its bytes. */
  lemma CharFound(s: Bytes) returns (c: Scalar)
    requires CharLength(s) > 0
    ensures CharBytes(c) == s[..CharLength(s)]
  {
    hide CharLength;
    CharKind(s);
    var n := CharLength(s);
    if n == 1 {
      c := s[0];
    } else {
      hide CharBytes;
      if n == 2 {
        TwoByteChar(s[0] - 0xC0, s[1] - 0x80);
        c := 64 * (s[0] as int - 0xC0) + (s[1] - 0x80);
      } else if n == 3 {
        ThreeByteChar(s[0] - 0xE0, s[1] - 0x80, s[2] - 0x80);
        c := 4096 * (s[0] as int - 0xE0) + 64 * (s[1] as int - 0x80) + (s[2] - 0x80);
      } else {
        FourByteChar(s[0] - 0xF0, s[1] - 0x80, s[2] - 0x80, s[3] - 0x80);
        c := 262144 * (s[0] as int - 0xF0) + 4096 * (s[1] as int - 0x80) + 64 * (s[2] as int - 0x80) + (s[3] - 0x80);
      }
    }
  }

  lemma {:induction false} TextIsUtf8(text: seq<Scalar>)
    ensures Utf8(TextBytes(text))
  {
    hide CharLength;
    if text != [] {
      var first := CharBytes(text[0]);
      CharIsRead(text[0], TextBytes(text[1..]));
      assert TextBytes(text)[|first|..] == TextBytes(text[1..]);
      TextIsUtf8(text[1..]);
    }
  }

  lemma {:induction false} Utf8IsText(s: Bytes) returns (text: seq<Scalar>)
    requires Utf8(s)
    ensures TextBytes(text) == s
    decreases |s|
  {
    hide CharLength, CharBytes;
    if s == [] {
      text := [];
    } else {
      var n := CharLength(s);
      var c := CharFound(s);
      var rest := Utf8IsText(s[n..]);
      text := [c] + rest;
      assert text[1..] == rest;
      assert s == s[..n] + s[n..];
    }
  }

  /** The check accepts exactly the encodings of sequences of scalar values. */
  lemma Utf8Iff(s: Bytes)
    ensures Utf8(s) <==> exists text :: TextBytes(text) == s
  {
    hide Utf8, TextBytes;
    if Utf8(s) {
      var text := Utf8IsText(s);
    }
    forall text | TextBytes(text) == s
      ensures Utf8(s)
    {
      TextIsUtf8(text);
    }
  }
}
