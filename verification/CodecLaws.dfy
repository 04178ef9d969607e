/** The laws of the codec: sizes, round trip, concatenation is merge, unknown fields. */
module CodecLaws {
  import opened Basics
  import opened Wire
  import opened Schema
  import opened Codec

  // ----- Sizes ----------------------------------------------------------------------

  lemma VarintSizeDown(n: nat)
    requires n >= 0x1000_0000
    ensures VarintSize(n) == 4 + VarintSize(n / 0x1000_0000)
  {
    assert VarintSize(n / 128 / 128) == 2 + VarintSize(n / 128 / 128 / 128 / 128);
    assert VarintSize(n) == 2 + VarintSize(n / 128 / 128);
  }

  /** A negative enum value takes ten bytes. */
  lemma EnumWireSize(n: int)
    requires -TWO_31 <= n < 0
    ensures VarintSize(EnumToWire(n)) == 10
  {
    var v := EnumToWire(n);
    VarintSizeDown(v);
    VarintSizeDown(v / 0x1000_0000);
    assert v / 0x1000_0000 / 0x1000_0000 == 255;
  }

  lemma ValSizeIsLength(num: nat, k: Kind, v: Val)
    requires 1 <= num <= MAX_ONE_BYTE_FIELD && ValidVal(k, v)
    ensures |EncodeVal(num, k, v)| == ValSize(k, v)
  {
    match k
    case UInt64 => VarintLength(v.n);
    case Enum =>
      VarintLength(EnumToWire(v.n));
      if v.n < 0 { EnumWireSize(v.n); }
    case Fixed =>
    case Text => VarintLength(|v.s|);
  }

  lemma {:induction false} ValsSizeIsLength(kinds: seq<Kind>, vals: seq<Val>, i: nat)
    requires |kinds| <= MAX_ONE_BYTE_FIELD && ValidVals(kinds, vals) && i <= |vals|
    ensures |EncodeVals(kinds, vals, i)| == ValsSize(kinds, vals, i)
    decreases |vals| - i
  {
    if i < |vals| {
      ValSizeIsLength(i + 1, kinds[i], vals[i]);
      ValsSizeIsLength(kinds, vals, i + 1);
    }
  }

  lemma {:induction false} ManySizeIsLength(t: Shape, ms: seq<Msg>)
    requires Compact(t) && forall x | x in ms :: Valid(t, x)
    ensures |EncodeMany(t, ms)| == ManySize(t, ms)
    decreases ms
  {
    if ms != [] {
      SizeIsLength(t, ms[0]);
      VarintLength(Size(t, ms[0]));
      ManySizeIsLength(t, ms[1..]);
    }
  }

  /** ByteSize() is the number of bytes serialization produces. */
  lemma {:induction false} SizeIsLength(t: Shape, m: Msg)
    requires Compact(t) && Valid(t, m)
    ensures |Encode(t, m)| == Size(t, m)
    decreases m
  {
    match t
    case Scalars(kinds) => ValsSizeIsLength(kinds, m.vals, 0);
    case Choice(members) =>
      if m.Set? {
        SizeIsLength(members[m.num - 1], m.sub);
        VarintLength(Size(members[m.num - 1], m.sub));
      }
    case Repeated(elem) => ManySizeIsLength(elem, m.subs);
  }

  // ----- Parsing one record, parsing a prefix ---------------------------------------

  /** Parsing a record and then the rest. */
  lemma ParseRecordThen(t: Shape, m: Msg, r: Bytes, rest: Bytes)
    requires Valid(t, m) && ReadRecord(r).Some? && ReadRecord(r).value.size == |r|
    ensures var rec := ReadRecord(r).value;
            Parse(t, m, r + rest) ==
            match Apply(t, m, rec.num, rec.payload) { case None => None case Some(m') => Parse(t, m', rest) }
  {
    ReadRecordIgnoresTail(r, rest);
    assert (r + rest)[|r|..] == rest;
  }

  /** If `x` parses, parsing `x + y` is parsing `y` into the result. */
  lemma {:induction false} ParseConcat(t: Shape, m: Msg, x: Bytes, y: Bytes)
    requires Valid(t, m) && Parse(t, m, x).Some?
    ensures Parse(t, m, x + y) == Parse(t, Parse(t, m, x).value, y)
    decreases |x|
  {
    if x == [] {
      assert x + y == y;
    } else {
      var rec := ReadRecord(x).value;
      ReadRecordIgnoresTail(x, y);
      assert (x + y)[rec.size..] == x[rec.size..] + y;
      ParseConcat(t, Apply(t, m, rec.num, rec.payload).value, x[rec.size..], y);
    }
  }

  // ----- Parsing what was written ---------------------------------------------------

  lemma EnumReadsBack(n: int)
    requires -TWO_31 <= n < TWO_31
    ensures EnumFromWire(EnumToWire(n)) == n
  {
  }

  lemma ValReadsBack(num: nat, k: Kind, v: Val, rest: Bytes)
    requires 1 <= num <= MAX_ONE_BYTE_FIELD && ValidVal(k, v) && |ValBody(k, v)| < TWO_31
    ensures var p := ReadPayload(WireTypeOfKind(k), ValBody(k, v) + rest);
            p.Some? && p.value.1 == |ValBody(k, v)| && ReadVal(k, p.value.0) == Some(v)
            && WireTypeOfPayload(p.value.0) == WireTypeOfKind(k)
  {
    match k
    case UInt64 => VarintReadsBack(v.n, rest);
    case Enum =>
      EnumReadsBack(v.n);
      VarintReadsBack(EnumToWire(v.n), rest);
    case Fixed =>
      Fixed64ReadsBack(v.n);
      assert (ValBody(k, v) + rest)[..8] == Fixed64(v.n);
    case Text => DelimitedReadsBack(v.s, rest);
  }

  function SetUpTo(kinds: seq<Kind>, a: seq<Val>, b: seq<Val>, i: nat): (r: seq<Val>)
    requires ValidVals(kinds, a) && ValidVals(kinds, b) && i <= |kinds|
    ensures ValidVals(kinds, r)
  {
    MergeVals(kinds, a, b)[..i] + a[i..]
  }

  /** A written scalar is one record, with the field's number and wire type. */
  lemma ValRecordReadsBack(num: nat, k: Kind, v: Val)
    requires 1 <= num <= MAX_ONE_BYTE_FIELD && ValidVal(k, v) && v != DefaultVal(k) && |ValBody(k, v)| < TWO_31
    ensures var r := ReadRecord(EncodeVal(num, k, v));
            && r.Some? && r.value.num == num && r.value.size == |EncodeVal(num, k, v)|
            && WireTypeOfPayload(r.value.payload) == WireTypeOfKind(k)
            && ReadVal(k, r.value.payload) == Some(v)
  {
    hide ReadPayload, ReadVal, ReadTag, ReadRecord, Varint, ValBody;
    var body := ValBody(k, v);
    ValReadsBack(num, k, v, []);
    assert body + [] == body;
    ReadRecordOneByteTag(8 * num + WireTypeOfKind(k), body);
  }

  /** A written scalar is read into its field. */
  lemma ValParses(t: Shape, kinds: seq<Kind>, cur: seq<Val>, i: nat, v: Val, rest: Bytes)
    requires t == Scalars(kinds) && ValidVals(kinds, cur) && i < |kinds| && |kinds| <= MAX_ONE_BYTE_FIELD
    requires ValidVal(kinds[i], v) && v != DefaultVal(kinds[i]) && |ValBody(kinds[i], v)| < TWO_31
    ensures Parse(t, Fields(cur), EncodeVal(i + 1, kinds[i], v) + rest) == Parse(t, Fields(cur[i := v]), rest)
  {
    hide ReadRecord, EncodeVal, ReadVal;
    ValRecordReadsBack(i + 1, kinds[i], v);
    ParseRecordThen(t, Fields(cur), EncodeVal(i + 1, kinds[i], v), rest);
  }

  lemma SetUpToNext(kinds: seq<Kind>, a: seq<Val>, b: seq<Val>, i: nat)
    requires ValidVals(kinds, a) && ValidVals(kinds, b) && i < |kinds|
    ensures SetUpTo(kinds, a, b, i + 1) ==
            if b[i] == DefaultVal(kinds[i]) then SetUpTo(kinds, a, b, i) else SetUpTo(kinds, a, b, i)[i := b[i]]
  {
  }

  lemma {:induction false} ValsParseAsMerge(t: Shape, kinds: seq<Kind>, a: seq<Val>, b: seq<Val>, i: nat)
    requires t == Scalars(kinds) && |kinds| <= MAX_ONE_BYTE_FIELD
    requires ValidVals(kinds, a) && ValidVals(kinds, b) && i <= |kinds|
    requires |EncodeVals(kinds, b, i)| < TWO_31
    ensures Parse(t, Fields(SetUpTo(kinds, a, b, i)), EncodeVals(kinds, b, i)) ==
            Some(Fields(MergeVals(kinds, a, b)))
    decreases |kinds| - i
  {
    hide ReadRecord, MergeVals, ValBody;
    if i == |kinds| {
      assert SetUpTo(kinds, a, b, i) == MergeVals(kinds, a, b);
    } else {
      hide SetUpTo, Parse;
      ValsParseAsMerge(t, kinds, a, b, i + 1);
      SetUpToNext(kinds, a, b, i);
      if b[i] == DefaultVal(kinds[i]) {
        assert EncodeVals(kinds, b, i) == EncodeVals(kinds, b, i + 1);
      } else {
        ValParses(t, kinds, SetUpTo(kinds, a, b, i), i, b[i], EncodeVals(kinds, b, i + 1));
      }
    }
  }

  /** A length-delimited field as it stands on the wire. */
  function Field(num: nat, body: Bytes): Bytes {
    Varint(8 * num + LENGTH_DELIMITED) + Delimited(body)
  }

  lemma FieldReadsBack(num: nat, body: Bytes)
    requires 1 <= num <= MAX_ONE_BYTE_FIELD && |body| < TWO_31
    ensures ReadRecord(Field(num, body)) == Some(Record(num, OfBytes(body), |Field(num, body)|))
  {
    hide ReadPayload, ReadTag, ReadRecord, Varint;
    DelimitedReadsBack(body, []);
    assert Delimited(body) + [] == Delimited(body);
    ReadRecordOneByteTag(8 * num + LENGTH_DELIMITED, Delimited(body));
  }

  /** A written submessage is one record whose body is the encoding of the submessage. */
  lemma SubReadsBack(num: nat, t: Shape, m: Msg)
    requires 1 <= num <= MAX_ONE_BYTE_FIELD && Valid(t, m) && |Encode(t, m)| < TWO_31
    ensures ReadRecord(EncodeSub(num, t, m)) ==
            Some(Record(num, OfBytes(Encode(t, m)), |EncodeSub(num, t, m)|))
  {
    hide ReadRecord, Varint, Encode;
    FieldReadsBack(num, Encode(t, m));
    assert EncodeSub(num, t, m) == Field(num, Encode(t, m));
  }

  /** A record of a repeated field appends the element its body parses to. */
  lemma ApplyElement(elem: Shape, a: seq<Msg>, body: Bytes)
    requires Valid(Repeated(elem), Many(a))
    ensures Apply(Repeated(elem), Many(a), 1, OfBytes(body)) ==
            match Parse(elem, Default(elem), body) {
              case None => None
              case Some(sub) => Some(Many(a + [sub]))
            }
  {
    hide Parse;
  }

  lemma {:induction false} ManyParseAsMerge(t: Shape, elem: Shape, a: seq<Msg>, b: seq<Msg>)
    requires Compact(t) && t == Repeated(elem)
    requires Valid(t, Many(a)) && Valid(t, Many(b)) && |EncodeMany(elem, b)| < TWO_31
    ensures Parse(t, Many(a), EncodeMany(elem, b)) == Some(Many(a + b))
    decreases b
  {
    hide ReadRecord, Valid, Apply, Merge, Encode;
    RepeatedHolds(elem, Many(a));
    RepeatedHolds(elem, Many(b));
    if b == [] {
      assert a + b == a;
    } else {
      hide Parse;
      var first := EncodeSub(1, elem, b[0]);
      SubReadsBack(1, elem, b[0]);
      ParseEncoded(elem, Default(elem), b[0]);
      MergeIntoDefault(elem, b[0]);
      ApplyElement(elem, a, Encode(elem, b[0]));
      ParseRecordThen(t, Many(a), first, EncodeMany(elem, b[1..]));
      ManyIsValid(elem, a + [b[0]]);
      ManyIsValid(elem, b[1..]);
      ManyParseAsMerge(t, elem, a + [b[0]], b[1..]);
      assert a + [b[0]] + b[1..] == a + b;
    }
  }

  /** The main law: parsing the serialization of `b` into `a` merges `b` into `a`. */
  lemma {:induction false} ParseEncoded(t: Shape, a: Msg, b: Msg)
    requires Compact(t) && Valid(t, a) && Valid(t, b) && |Encode(t, b)| < TWO_31
    ensures Parse(t, a, Encode(t, b)) == Some(Merge(t, a, b))
    decreases b
  {
    hide ReadRecord, ValidVal;
    match t
    case Scalars(kinds) =>
      ValsParseAsMerge(t, kinds, a.vals, b.vals, 0);
      assert SetUpTo(kinds, a.vals, b.vals, 0) == a.vals;
    case Choice(members) =>
      if b.Set? {
        var sub := members[b.num - 1];
        SubReadsBack(b.num, sub, b.sub);
        ParseEncoded(sub, Current(a, b.num, sub), b.sub);
        ParseRecordThen(t, a, Encode(t, b), []);
        assert Encode(t, b) + [] == Encode(t, b);
      }
    case Repeated(elem) => ManyParseAsMerge(t, elem, a.subs, b.subs);
  }

  // ----- Merging --------------------------------------------------------------------

  /** A cleared message is a left unit of MergeFrom. */
  lemma {:induction false} MergeIntoDefault(t: Shape, m: Msg)
    requires Valid(t, m)
    ensures Merge(t, Default(t), m) == m
    decreases m
  {
    match t
    case Scalars(kinds) => assert MergeVals(kinds, Default(t).vals, m.vals) == m.vals;
    case Choice(members) =>
      if m.Set? { MergeIntoDefault(members[m.num - 1], m.sub); }
    case Repeated(elem) => assert [] + m.subs == m.subs;
  }

  /** A cleared message is a right unit of MergeFrom. */
  lemma MergeDefault(t: Shape, m: Msg)
    requires Valid(t, m)
    ensures Merge(t, m, Default(t)) == m
  {
    match t
    case Scalars(kinds) => assert MergeVals(kinds, m.vals, Default(t).vals) == m.vals;
    case Choice(_) =>
    case Repeated(_) => assert m.subs + [] == m.subs;
  }

  /** `c` sets whatever `a` sets: every field that is default in `c` is default in `a`. */
  predicate Covers(t: Shape, a: Msg, c: Msg)
    requires Valid(t, a) && Valid(t, c)
    decreases c
  {
    match t
    case Scalars(kinds) =>
      forall i | 0 <= i < |kinds| :: c.vals[i] == DefaultVal(kinds[i]) ==> a.vals[i] == DefaultVal(kinds[i])
    case Repeated(_) => a.subs == []
    case Choice(members) =>
      if c.Unset? then a.Unset?
      else a.Set? && a.num == c.num ==> Covers(members[c.num - 1], a.sub, c.sub)
  }

  /** Nothing of a message is left after a merge exactly when the other one covers it. */
  lemma {:induction false} MergeHidesIff(t: Shape, a: Msg, c: Msg)
    requires Valid(t, a) && Valid(t, c)
    ensures Merge(t, a, c) == c <==> Covers(t, a, c)
    decreases c
  {
    hide ValidVal;
    match t
    case Scalars(kinds) =>
      var merged := MergeVals(kinds, a.vals, c.vals);
      if Covers(t, a, c) {
        assert merged == c.vals;
      } else {
        var i :| 0 <= i < |kinds| && c.vals[i] == DefaultVal(kinds[i]) && a.vals[i] != DefaultVal(kinds[i]);
        assert merged[i] != c.vals[i];
      }
    case Repeated(_) =>
      assert |a.subs + c.subs| == |a.subs| + |c.subs|;
      assert a.subs == [] ==> a.subs + c.subs == c.subs;
    case Choice(members) =>
      if c.Set? {
        var sub := members[c.num - 1];
        if a.Set? && a.num == c.num {
          MergeHidesIff(sub, a.sub, c.sub);
        } else {
          MergeIntoDefault(sub, c.sub);
        }
      }
  }

  /** The inputs on which the grouping of two merges does not matter: no oneof goes from
      one member to another and back, unless what came back covers what was there first. */
  predicate GroupingIrrelevant(t: Shape, a: Msg, b: Msg, c: Msg)
    requires Valid(t, a) && Valid(t, b) && Valid(t, c)
    decreases c
  {
    match t
    case Scalars(_) => true
    case Repeated(_) => true
    case Choice(members) =>
      if b.Unset? || c.Unset? then true
      else if b.num == c.num then
        GroupingIrrelevant(members[c.num - 1], Current(a, c.num, members[c.num - 1]), b.sub, c.sub)
      else
        a.Set? && a.num == c.num ==> Covers(members[c.num - 1], a.sub, c.sub)
  }

  /** Merging a oneof that is set merges into the same member, or into a new one. */
  lemma MergeSet(members: seq<Shape>, a: Msg, num: nat, sub: Msg)
    requires Valid(Choice(members), a) && 1 <= num <= |members| && Valid(members[num - 1], sub)
    ensures Valid(Choice(members), Set(num, sub))
    ensures Merge(Choice(members), a, Set(num, sub)) ==
            Set(num, Merge(members[num - 1], Current(a, num, members[num - 1]), sub))
  {
  }

  lemma MergeUnset(members: seq<Shape>, a: Msg)
    requires Valid(Choice(members), a)
    ensures Merge(Choice(members), a, Unset) == a
  {
  }

  /** A oneof that is set replaces another member. */
  lemma MergeOver(members: seq<Shape>, a: Msg, num: nat, sub: Msg)
    requires Valid(Choice(members), a) && 1 <= num <= |members| && Valid(members[num - 1], sub)
    requires a.Set? ==> a.num != num
    ensures Valid(Choice(members), Set(num, sub)) && Merge(Choice(members), a, Set(num, sub)) == Set(num, sub)
  {
    hide Merge, Valid;
    MergeSet(members, a, num, sub);
    MergeIntoDefault(members[num - 1], sub);
  }

  /** A oneof goes to another member and back: what came back hides the first value, or
      does not. */
  lemma AssociativeBackIff(members: seq<Shape>, a: Msg, num: nat, b: Msg, back: nat, c: Msg)
    requires Valid(Choice(members), a) && 1 <= num <= |members| && 1 <= back <= |members| && num != back
    requires Valid(members[num - 1], b) && Valid(members[back - 1], c)
    ensures var t := Choice(members);
            && Valid(t, Set(num, b)) && Valid(t, Set(back, c))
            && (Merge(t, Merge(t, a, Set(num, b)), Set(back, c)) == Merge(t, a, Merge(t, Set(num, b), Set(back, c))) <==>
                (a.Set? && a.num == back ==> Covers(members[back - 1], a.sub, c)))
  {
    hide Merge, Covers, Valid;
    if !a.Unset? { ChoiceHolds(members, a); }
    MergeSet(members, a, num, b);
    MergeOver(members, Merge(Choice(members), a, Set(num, b)), back, c);
    MergeOver(members, Set(num, b), back, c);
    if a.Set? && a.num == back {
      MergeSet(members, a, back, c);
      MergeHidesIff(members[back - 1], a.sub, c);
    } else {
      MergeOver(members, a, back, c);
    }
  }

  lemma AssociativeSame(members: seq<Shape>, num: nat, a: Msg, b: Msg, c: Msg)
    requires Valid(Choice(members), a) && 1 <= num <= |members|
    requires Valid(members[num - 1], b) && Valid(members[num - 1], c)
    ensures var t, sub, first := Choice(members), members[num - 1], Current(a, num, members[num - 1]);
            && Merge(t, Merge(t, a, Set(num, b)), Set(num, c)) == Set(num, Merge(sub, Merge(sub, first, b), c))
            && Merge(t, a, Merge(t, Set(num, b), Set(num, c))) == Set(num, Merge(sub, first, Merge(sub, b, c)))
  {
    hide Merge, Valid;
    if !a.Unset? { ChoiceHolds(members, a); }
    var sub, first := members[num - 1], Current(a, num, members[num - 1]);
    MergeSet(members, a, num, b);
    MergeSet(members, Set(num, Merge(sub, first, b)), num, c);
    MergeSet(members, Set(num, b), num, c);
    MergeSet(members, a, num, Merge(sub, b, c));
  }

  /** MergeFrom groups to the left: it is associative on exactly these inputs. */
  lemma {:induction false} MergeAssociativeIff(t: Shape, a: Msg, b: Msg, c: Msg)
    requires Valid(t, a) && Valid(t, b) && Valid(t, c)
    ensures Merge(t, Merge(t, a, b), c) == Merge(t, a, Merge(t, b, c)) <==> GroupingIrrelevant(t, a, b, c)
    decreases c
  {
    hide ValidVal, Covers;
    match t
    case Scalars(kinds) =>
      assert MergeVals(kinds, MergeVals(kinds, a.vals, b.vals), c.vals)
          == MergeVals(kinds, a.vals, MergeVals(kinds, b.vals, c.vals));
    case Choice(members) => ChoiceAssociativeIff(members, a, b, c);
    case Repeated(_) => assert a.subs + b.subs + c.subs == a.subs + (b.subs + c.subs);
  }

  lemma {:induction false} ChoiceAssociativeIff(members: seq<Shape>, a: Msg, b: Msg, c: Msg)
    requires Valid(Choice(members), a) && Valid(Choice(members), b) && Valid(Choice(members), c)
    ensures var t := Choice(members);
            Merge(t, Merge(t, a, b), c) == Merge(t, a, Merge(t, b, c)) <==> GroupingIrrelevant(t, a, b, c)
    decreases c, 0
  {
    hide Merge, Covers, Valid;
    if !a.Unset? { ChoiceHolds(members, a); }
    if !b.Unset? { ChoiceHolds(members, b); }
    if !c.Unset? { ChoiceHolds(members, c); }
    if c.Unset? {
      MergeUnset(members, Merge(Choice(members), a, b));
      MergeUnset(members, b);
    } else if b.Unset? {
      MergeUnset(members, a);
      MergeSet(members, b, c.num, c.sub);
      MergeIntoDefault(members[c.num - 1], c.sub);
    } else if b.num == c.num {
      AssociativeSame(members, c.num, a, b.sub, c.sub);
      MergeAssociativeIff(members[c.num - 1], Current(a, c.num, members[c.num - 1]), b.sub, c.sub);
    } else {
      AssociativeBackIff(members, a, b.num, b.sub, c.num, c.sub);
    }
  }

  /** A oneof that goes to another member and back loses its first value only if the
      merges are grouped to the left. */
  lemma MergeNotAssociative()
    ensures exists a, b, c ::
              && Valid(REQUEST, a) && Valid(REQUEST, b) && Valid(REQUEST, c)
              && Merge(REQUEST, Merge(REQUEST, a, b), c) != Merge(REQUEST, a, Merge(REQUEST, b, c))
  {
    var a := Set(5, Fields([Num(7)]));
    var b := Set(3, Fields([]));
    var c := Set(5, Fields([Num(0)]));
    assert Valid(MESSAGES_REQUEST, a.sub) && Valid(ALL_MY_CHATS_REQUEST, b.sub) && Valid(MESSAGES_REQUEST, c.sub);
    assert c.sub.vals[0] == DefaultVal(UInt64) && a.sub.vals[0] != DefaultVal(UInt64);
    assert !Covers(MESSAGES_REQUEST, a.sub, c.sub);
    MergeAssociativeIff(REQUEST, a, b, c);
  }

  // ----- The theorems about whole messages ------------------------------------------

  /** Parsing a serialized message gives the message back. */
  lemma RoundTrip(t: Shape, m: Msg)
    requires Compact(t) && Valid(t, m) && Size(t, m) < TWO_31
    ensures Decode(t, Encode(t, m)) == Some(m)
  {
    SizeIsLength(t, m);
    ParseEncoded(t, Default(t), m);
    MergeIntoDefault(t, m);
  }

  /** Distinct messages have distinct serializations. */
  lemma EncodeInjective(t: Shape, a: Msg, b: Msg)
    requires Compact(t) && Valid(t, a) && Valid(t, b) && Size(t, a) < TWO_31 && Size(t, b) < TWO_31
    ensures Encode(t, a) == Encode(t, b) <==> a == b
  {
    RoundTrip(t, a);
    RoundTrip(t, b);
  }

  /** Parsing two serializations written one after the other merges the messages. */
  lemma ConcatIsMerge(t: Shape, a: Msg, b: Msg)
    requires Compact(t) && Valid(t, a) && Valid(t, b) && Size(t, a) < TWO_31 && Size(t, b) < TWO_31
    ensures Decode(t, Encode(t, a) + Encode(t, b)) == Some(Merge(t, a, b))
  {
    RoundTrip(t, a);
    SizeIsLength(t, b);
    ParseConcat(t, Default(t), Encode(t, a), Encode(t, b));
    ParseEncoded(t, a, b);
  }

  // ----- Unknown fields -------------------------------------------------------------

  /** `padded` is `s` with unknown records inserted at field boundaries, at any depth: a
      submessage may be replaced by a padded one, its length written anew. */
  predicate Pads(t: Shape, s: Bytes, padded: Bytes)
    decreases |padded|, 1
  {
    if padded == [] then s == []
    else
      match ReadRecord(padded)
      case None => false
      case Some(rec) =>
        || (!Known(t, rec.num, rec.payload) && Pads(t, s, padded[rec.size..]))
        || (s != [] && ReadRecord(s).Some?
            && PadsRecord(t, ReadRecord(s).value, rec)
            && Pads(t, s[ReadRecord(s).value.size..], padded[rec.size..]))
  }

  predicate PadsRecord(t: Shape, rec: Record, padded: Record)
    decreases PayloadSize(padded.payload), 2
  {
    && rec.num == padded.num
    && (|| rec.payload == padded.payload
        || (&& Known(t, rec.num, rec.payload) && Known(t, rec.num, padded.payload)
            && match t
               case Scalars(_) => false
               case Choice(members) => Pads(members[rec.num - 1], rec.payload.body, padded.payload.body)
               case Repeated(elem) => Pads(elem, rec.payload.body, padded.payload.body)))
  }

  lemma ParseUnknown(t: Shape, m: Msg, s: Bytes)
    requires Valid(t, m) && s != [] && ReadRecord(s).Some?
    requires !Known(t, ReadRecord(s).value.num, ReadRecord(s).value.payload)
    ensures Parse(t, m, s) == Parse(t, m, s[ReadRecord(s).value.size..])
  {
  }

  /** Two inputs that start with records of the same effect. */
  lemma ParseAlike(t: Shape, m: Msg, s: Bytes, s': Bytes)
    requires Valid(t, m) && s != [] && s' != [] && ReadRecord(s).Some? && ReadRecord(s').Some?
    requires var r, r' := ReadRecord(s).value, ReadRecord(s').value;
             var a := Apply(t, m, r.num, r.payload);
             && a == Apply(t, m, r'.num, r'.payload)
             && (a.Some? ==> Parse(t, a.value, s[r.size..]) == Parse(t, a.value, s'[r'.size..]))
    ensures Parse(t, m, s) == Parse(t, m, s')
  {
  }

  /** Unknown fields are invisible: a padded input is accepted exactly when the plain one
      is, and builds the same message. */
  lemma {:induction false} UnknownFieldsInvisible(t: Shape, m: Msg, s: Bytes, padded: Bytes)
    requires Valid(t, m) && Pads(t, s, padded)
    ensures Parse(t, m, padded) == Parse(t, m, s)
    decreases |padded|, 0
  {
    if padded != [] {
      var rec := ReadRecord(padded).value;
      if !Known(t, rec.num, rec.payload) && Pads(t, s, padded[rec.size..]) {
        ParseUnknown(t, m, padded);
        UnknownFieldsInvisible(t, m, s, padded[rec.size..]);
      } else {
        var plain := ReadRecord(s).value;
        PaddedRecordApplies(t, m, plain, rec);
        var r := Apply(t, m, rec.num, rec.payload);
        if r.Some? {
          UnknownFieldsInvisible(t, r.value, s[plain.size..], padded[rec.size..]);
        }
        ParseAlike(t, m, s, padded);
      }
    }
  }

  lemma {:induction false} PaddedRecordApplies(t: Shape, m: Msg, rec: Record, padded: Record)
    requires Valid(t, m) && PadsRecord(t, rec, padded) && InRange(rec.payload) && InRange(padded.payload)
    ensures Apply(t, m, padded.num, padded.payload) == Apply(t, m, rec.num, rec.payload)
    decreases PayloadSize(padded.payload), 1
  {
    hide ReadRecord;
    if rec.payload != padded.payload {
      match t
      case Choice(members) =>
        var sub := members[rec.num - 1];
        UnknownFieldsInvisible(sub, Current(m, rec.num, sub), rec.payload.body, padded.payload.body);
      case Repeated(elem) =>
        UnknownFieldsInvisible(elem, Default(elem), rec.payload.body, padded.payload.body);
    }
  }

  /** A sequence of complete records, whatever they mean. */
  predicate WellFormed(s: Bytes)
    decreases |s|
  {
    s == [] || (ReadRecord(s).Some? && WellFormed(s[ReadRecord(s).value.size..]))
  }

  /** Padding may go on behind a record both inputs share. */
  lemma PadsAfterSharedRecord(t: Shape, s: Bytes, padded: Bytes)
    requires s != [] && padded != [] && ReadRecord(s).Some? && ReadRecord(padded) == ReadRecord(s)
    requires Pads(t, s[ReadRecord(s).value.size..], padded[ReadRecord(s).value.size..])
    ensures Pads(t, s, padded)
  {
  }

  lemma PadsAfterPaddedRecord(t: Shape, s: Bytes, padded: Bytes)
    requires s != [] && padded != [] && ReadRecord(s).Some? && ReadRecord(padded).Some?
    requires PadsRecord(t, ReadRecord(s).value, ReadRecord(padded).value)
    requires Pads(t, s[ReadRecord(s).value.size..], padded[ReadRecord(padded).value.size..])
    ensures Pads(t, s, padded)
  {
  }

  lemma {:induction false} PadsItself(t: Shape, s: Bytes)
    requires WellFormed(s)
    ensures Pads(t, s, s)
    decreases |s|
  {
    if s != [] {
      PadsItself(t, s[ReadRecord(s).value.size..]);
      PadsAfterSharedRecord(t, s, s);
    }
  }

  /** Inserting one unknown record between two sequences of records is padding. */
  lemma {:induction false} InsertionPads(t: Shape, x: Bytes, u: Bytes, y: Bytes)
    requires WellFormed(x) && WellFormed(y)
    requires ReadRecord(u).Some? && ReadRecord(u).value.size == |u|
    requires !Known(t, ReadRecord(u).value.num, ReadRecord(u).value.payload)
    ensures Pads(t, x + y, x + (u + y))
    decreases |x|
  {
    hide ReadRecord;
    if x == [] {
      assert x + y == y && x + (u + y) == u + y;
      ReadRecordIgnoresTail(u, y);
      assert (u + y)[|u|..] == y;
      PadsItself(t, y);
    } else {
      var n := ReadRecord(x).value.size;
      ReadRecordIgnoresTail(x, y);
      ReadRecordIgnoresTail(x, u + y);
      InsertionPads(t, x[n..], u, y);
      assert (x + y)[n..] == x[n..] + y && (x + (u + y))[n..] == x[n..] + (u + y);
      PadsAfterSharedRecord(t, x + y, x + (u + y));
    }
  }

  /** The type of a submessage field. */
  function SubType(t: Shape, num: nat): Shape
    requires !t.Scalars? && Declared(t, num)
  {
    if t.Choice? then t.members[num - 1] else t.elem
  }

  /** Replacing the body of a submessage by a padded one, its length written anew, between
      two sequences of records is padding. */
  lemma {:induction false} NestedPads(t: Shape, x: Bytes, num: nat, body: Bytes, padded: Bytes, y: Bytes)
    requires !t.Scalars? && Compact(t) && Declared(t, num) && WellFormed(x) && WellFormed(y)
    requires Pads(SubType(t, num), body, padded) && |body| < TWO_31 && |padded| < TWO_31
    ensures Pads(t, x + (Field(num, body) + y), x + (Field(num, padded) + y))
    decreases |x|
  {
    hide ReadRecord, Field;
    var f, f' := Field(num, body), Field(num, padded);
    if x == [] {
      FieldReadsBack(num, body);
      FieldReadsBack(num, padded);
      ReadRecordIgnoresTail(f, y);
      ReadRecordIgnoresTail(f', y);
      assert x + (f + y) == f + y && x + (f' + y) == f' + y;
      assert (f + y)[|f|..] == y && (f' + y)[|f'|..] == y;
      PadsItself(t, y);
      PadsAfterPaddedRecord(t, f + y, f' + y);
    } else {
      var n := ReadRecord(x).value.size;
      ReadRecordIgnoresTail(x, f + y);
      ReadRecordIgnoresTail(x, f' + y);
      NestedPads(t, x[n..], num, body, padded, y);
      assert (x + (f + y))[n..] == x[n..] + (f + y) && (x + (f' + y))[n..] == x[n..] + (f' + y);
      PadsAfterSharedRecord(t, x + (f + y), x + (f' + y));
    }
  }
}
