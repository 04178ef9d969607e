/**
 The generated message classes: objects that are parsed, sized, serialized and merged in
 place. One class stands for all of them; its `t` is the switch table of the class.

 `model` is the message value an object stands for, and `Repr` the objects it owns.
 */
module Messages {
  import opened Basics
  import opened Wire
  import opened Schema
  import opened Codec
  import opened CodecLaws

  /** The input stream: a position in a buffer and the limit of the current message. */
  class CodedInputStream {
    const data: Bytes
    var pos: nat
    var limit: nat
    var legitimateEnd: bool  // the last tag was not read because the limit was reached

    predicate InBounds()
      reads this
    {
      pos <= limit <= |data|
    }

    function Rest(): Bytes
      requires InBounds()
      reads this
    {
      data[pos..limit]
    }

    constructor (data: Bytes)
      ensures InBounds() && Rest() == data && this.data == data && !legitimateEnd
    {
      this.data := data;
      pos, limit, legitimateEnd := 0, |data|, false;
    }

    /** Tag 0 stands for the end of the message and for a tag that cannot be read. */
    method ReadTagWithCutoff(cutoff: nat) returns (tag: nat, small: bool)
      requires InBounds() && !legitimateEnd
      modifies this`pos, this`legitimateEnd
      ensures InBounds()
      ensures small == (1 <= tag <= cutoff)
      ensures legitimateEnd == (old(Rest()) == [])
      ensures old(Rest()) == [] ==> tag == 0 && pos == old(pos)
      ensures old(Rest()) != [] ==>
                match ReadTag(old(Rest()))
                case None => tag == 0
                case Some(r) => tag == r.value && pos == old(pos) + r.size
    {
      tag := 0;
      if pos == limit {
        legitimateEnd := true;
      } else {
        var r := ReadTag(Rest());
        if r.Some? {
          tag, pos := r.value.value, pos + r.value.size;
        }
      }
      small := 1 <= tag <= cutoff;
    }

    /** Consumes `tag` if it comes next in its one-byte form. */
    method ExpectTag(tag: Byte) returns (found: bool)
      requires InBounds()
      modifies this`pos
      ensures InBounds()
      ensures found == (old(Rest()) != [] && old(Rest())[0] == tag)
      ensures pos == if found then old(pos) + 1 else old(pos)
    {
      found := pos < limit && data[pos] == tag;
      if found { pos := pos + 1; }
    }

    method ExpectAtEnd() returns (atEnd: bool)
      requires InBounds() && !legitimateEnd
      modifies this`legitimateEnd
      ensures atEnd == legitimateEnd == (Rest() == [])
    {
      atEnd := pos == limit;
      legitimateEnd := atEnd;
    }

    /** Reads what follows a tag of the given wire type. */
    method ReadBody(wireType: nat) returns (p: Option<Payload>)
      requires InBounds()
      modifies this`pos
      ensures InBounds()
      ensures match ReadPayload(wireType, old(Rest()))
              case None => p.None? && pos == old(pos)
              case Some(r) => p == Some(r.0) && pos == old(pos) + r.1
    {
      var r := ReadPayload(wireType, Rest());
      if r.None? { return None; }
      pos := pos + r.value.1;
      p := Some(r.value.0);
    }

    /** Field number 0 and groups are not accepted. */
    method SkipField(tag: nat) returns (ok: bool)
      requires InBounds()
      modifies this`pos
      ensures InBounds()
      ensures ok == (tag / 8 != 0 && ReadPayload(tag % 8, old(Rest())).Some?)
      ensures ok ==> pos == old(pos) + ReadPayload(tag % 8, old(Rest())).value.1
    {
      if tag / 8 == 0 { return false; }
      var p := ReadBody(tag % 8);
      ok := p.Some?;
    }
  }

  // ----- The meaning of a parser that has just consumed a tag -----------------------

  /** Parsing `s` when the tag of field `num` has already been consumed. */
  function ParseAfterTag(t: Shape, m: Msg, num: nat, s: Bytes): (r: Option<Msg>)
    requires Schema.Valid(t, m) && Declared(t, num)
  {
    match ReadPayload(WireTypeOf(t, num), s)
    case None => None
    case Some(p) =>
      match Apply(t, m, num, p.0)
      case None => None
      case Some(m') => Parse(t, m', s[p.1..])
  }

  lemma PayloadHasItsWireType(wireType: nat, s: Bytes)
    requires ReadPayload(wireType, s).Some?
    ensures WireTypeOfPayload(ReadPayload(wireType, s).value.0) == wireType
  {
  }

  /** A length-delimited payload: a length, and that many bytes of the rest. */
  lemma DelimitedPayload(s: Bytes)
    ensures ReadPayload(LENGTH_DELIMITED, s) ==
            match ReadVarint(s) {
              case None => None
              case Some(r) => if r.value > |s| - r.size then None
                              else Some((OfBytes(s[r.size..r.size + r.value]), r.size + r.value))
            }
  {
    hide ReadVarint;
  }

  /** A submessage of a oneof is merged with the member that is set, or set anew. */
  lemma ApplyMember(t: Shape, m: Msg, num: nat, body: Bytes)
    requires Schema.Valid(t, m) && t.Choice? && Declared(t, num)
    ensures Apply(t, m, num, OfBytes(body)) ==
            match Parse(t.members[num - 1], Current(m, num, t.members[num - 1]), body) {
              case None => None
              case Some(sub) => Some(Set(num, sub))
            }
  {
    hide Parse;
  }

  lemma MemberIsCompact(members: seq<Shape>, num: nat)
    requires Compact(Choice(members)) && 1 <= num <= |members|
    ensures Compact(members[num - 1])
  {
  }

  lemma DeclaredRecord(t: Shape, num: nat, s: Bytes)
    requires Declared(t, num) && ReadTag(s).Some? && ReadTag(s).value.value == TagOf(t, num)
    ensures ReadRecord(s) ==
            var n := ReadTag(s).value.size;
            match ReadPayload(WireTypeOf(t, num), s[n..]) {
              case None => None
              case Some(p) => Some(Record(num, p.0, n + p.1))
            }
  {
    hide ReadPayload, ReadTag, WireTypeOf;
    assert TagOf(t, num) / 8 == num && TagOf(t, num) % 8 == WireTypeOf(t, num);
  }

  /** A record with the declared tag: the loop reads it as the jump target does. */
  lemma ParseDeclared(t: Shape, m: Msg, num: nat, s: Bytes)
    requires Schema.Valid(t, m) && Declared(t, num)
    requires s != [] && ReadTag(s).Some? && ReadTag(s).value.value == TagOf(t, num)
    ensures Parse(t, m, s) == ParseAfterTag(t, m, num, s[ReadTag(s).value.size..])
  {
    hide ReadPayload, ReadTag, ReadRecord, Apply, TagOf, WireTypeOf, Schema.Valid;
    DeclaredRecord(t, num, s);
    var n := ReadTag(s).value.size;
    var p := ReadPayload(WireTypeOf(t, num), s[n..]);
    if p.Some? {
      assert s[n..][p.value.1..] == s[n + p.value.1..];
    }
  }

  /** Every declared tag is within the cutoff. */
  lemma TagsAreSmall(t: Shape)
    requires Compact(t)
    ensures forall num | Declared(t, num) :: 8 <= TagOf(t, num) <= 127
  {
  }

  /** ExpectTag takes exactly the tags whose canonical form is one byte. */
  lemma ParseExpected(t: Shape, m: Msg, num: nat, s: Bytes)
    requires Schema.Valid(t, m) && Compact(t) && Declared(t, num)
    requires s != [] && s[0] == TagOf(t, num)
    ensures Parse(t, m, s) == ParseAfterTag(t, m, num, s[1..])
  {
    hide ReadPayload, ReadRecord, Apply, Parse, ParseAfterTag;
    assert s == [s[0]] + s[1..];
    ReadRecordOneByteTag(s[0], s[1..]);
    ParseDeclared(t, m, num, s);
  }

  lemma RecordOfTag(s: Bytes)
    requires ReadTag(s).Some?
    ensures var tag := ReadTag(s).value; var p := ReadPayload(tag.value % 8, s[tag.size..]);
            ReadRecord(s) ==
            if tag.value / 8 == 0 || p.None? then None
            else Some(Record(tag.value / 8, p.value.0, tag.size + p.value.1))
  {
    hide ReadTag, ReadPayload;
  }

  /** A record with any other tag is skipped, or stops the parser. */
  lemma ParseUndeclared(t: Shape, m: Msg, s: Bytes)
    requires Schema.Valid(t, m) && s != [] && ReadTag(s).Some?
    requires var tag := ReadTag(s).value.value; Declared(t, tag / 8) ==> TagOf(t, tag / 8) != tag
    ensures var tag := ReadTag(s).value; var rest := s[tag.size..];
            Parse(t, m, s) ==
            if tag.value / 8 == 0 || ReadPayload(tag.value % 8, rest).None? then None
            else Parse(t, m, rest[ReadPayload(tag.value % 8, rest).value.1..])
  {
    hide ReadTag, ReadPayload, ReadRecord, Apply;
    RecordOfTag(s);
    var tag := ReadTag(s).value;
    var rest := s[tag.size..];
    var p := ReadPayload(tag.value % 8, rest);
    if tag.value / 8 != 0 && p.Some? {
      PayloadHasItsWireType(tag.value % 8, rest);
      assert s[tag.size + p.value.1..] == rest[p.value.1..];
      assert !Known(t, tag.value / 8, p.value.0);
      ParseUnknown(t, m, s);
    }
  }

  /** Where the generated loop goes to `success`: only at the end is the input accepted. */
  lemma ParseStops(t: Shape, m: Msg, s: Bytes)
    requires Schema.Valid(t, m)
    requires s == [] || ReadTag(s).None? || ReadTag(s).value.value == 0 || ReadTag(s).value.value % 8 == END_GROUP
    ensures Parse(t, m, s) == if s == [] then Some(m) else None
  {
    hide ReadTag, Apply;
  }

  lemma OneMore(elem: Shape, subs: seq<Msg>, sub: Msg)
    requires Schema.Valid(Repeated(elem), Many(subs)) && Schema.Valid(elem, sub)
    ensures Schema.Valid(Repeated(elem), Many(subs + [sub]))
  {
  }

  lemma MergeOfMany(elem: Shape, mine: seq<Msg>, theirs: seq<Msg>)
    requires Schema.Valid(Repeated(elem), Many(mine)) && Schema.Valid(Repeated(elem), Many(theirs))
    ensures Merge(Repeated(elem), Many(mine), Many(theirs)) == Many(mine + theirs[..|theirs|])
  {
    assert theirs[..|theirs|] == theirs;
  }

  // ----- Walking over the elements of a repeated field ------------------------------

  lemma NextElement(elem: Shape, subs: seq<Msg>, i: nat)
    requires Compact(elem) && i < |subs| && forall x | x in subs :: Schema.Valid(elem, x)
    ensures EncodeMany(elem, subs[i..]) == EncodeSub(1, elem, subs[i]) + EncodeMany(elem, subs[i + 1..])
    ensures ManySize(elem, subs[i..]) == SubSize(elem, subs[i]) + ManySize(elem, subs[i + 1..])
    ensures |EncodeSub(1, elem, subs[i])| == SubSize(elem, subs[i])
  {
    assert subs[i..][1..] == subs[i + 1..];
    SizeIsLength(elem, subs[i]);
    VarintLength(Size(elem, subs[i]));
  }

  lemma LastElement(elem: Shape, subs: seq<Msg>)
    requires forall x | x in subs :: Schema.Valid(elem, x)
    ensures EncodeMany(elem, subs[|subs|..]) == [] && ManySize(elem, subs[|subs|..]) == 0
    ensures EncodeMany(elem, subs[0..]) == EncodeMany(elem, subs) && ManySize(elem, subs[0..]) == ManySize(elem, subs)
  {
    assert subs[0..] == subs;
  }

  // ----- What a serializer does to its target ---------------------------------------

  /** `after` is `before` with `bytes` at position `at`, and nothing else changed. */
  ghost predicate Wrote(before: Bytes, at: nat, bytes: Bytes, after: Bytes) {
    && at + |bytes| <= |before| == |after|
    && after[at..at + |bytes|] == bytes
    && after[..at] == before[..at]
    && after[at + |bytes|..] == before[at + |bytes|..]
  }

  lemma SliceOfSlice(s: Bytes, from: nat, to: nat, i: nat, j: nat)
    requires from <= to <= |s| && i <= j <= to - from
    ensures s[from..to][i..j] == s[from + i..from + j]
  {
    assert forall k | 0 <= k < j - i :: s[from..to][i..j][k] == s[from..to][i + k] == s[from + i + k];
  }

  lemma WroteNothing(s: Bytes, at: nat)
    requires at <= |s|
    ensures Wrote(s, at, [], s)
  {
  }

  /** Two writes one after the other are one write of the concatenation. */
  lemma WroteThen(s0: Bytes, at: nat, x: Bytes, s1: Bytes, y: Bytes, s2: Bytes)
    requires Wrote(s0, at, x, s1) && Wrote(s1, at + |x|, y, s2)
    ensures Wrote(s0, at, x + y, s2)
  {
    var m, n := at + |x|, at + |x| + |y|;
    assert s2[at..m] == s2[..m][at..] == s1[..m][at..] == s1[at..m];
    assert s2[at..n] == s2[at..m] + s2[m..n];
    assert s2[..at] == s2[..m][..at] == s1[..m][..at] == s1[..at];
    assert s1[n..] == s1[m..][|y|..] == s0[m..][|y|..] == s0[n..];
  }

  // ----- Message objects ------------------------------------------------------------

  class Message {
    const t: Shape
    var vals: seq<Val>       // scalar fields
    var which: nat           // _oneof_case_; 0 is MSG_NOT_SET
    var kids: seq<Message>   // the oneof member that is set, or the repeated field
    var cachedSize: Int32    // _cached_size_
    ghost var model: Msg
    ghost var Repr: set<Message>

    ghost predicate Valid()
      reads this, Repr
      ensures Valid() ==> this in Repr
      decreases Repr, 1
    {
      && OwnsKids()
      && Schema.Valid(t, model)
      && Stands(model)
    }

    /** The submessages are valid trees that share nothing. */
    ghost predicate OwnsKids()
      reads this, Repr
      decreases Repr, 0
    {
      && this in Repr
      && (forall k | k in kids :: k in Repr && k.Repr <= Repr && this !in k.Repr && k.Valid())
      && (forall i, j | 0 <= i < j < |kids| :: kids[i].Repr !! kids[j].Repr)
    }

    /** The fields spell out `m`. */
    ghost predicate Stands(m: Msg)
      reads this`vals, this`which, this`kids, kids`model
    {
      match t
      case Scalars(_) => kids == [] && m == Fields(vals)
      case Choice(members) =>
        if which == 0 then kids == [] && m == Unset
        else
          && which <= |members| && |kids| == 1
          && kids[0].t == members[which - 1] && m == Set(which, kids[0].model)
      case Repeated(elem) =>
        && m.Many? && |m.subs| == |kids|
        && forall i | 0 <= i < |kids| :: kids[i].t == elem && kids[i].model == m.subs[i]
    }

    /** Records the value the fields have come to spell out. */
    ghost method Restate(m: Msg)
      requires OwnsKids() && Stands(m) && Schema.Valid(t, m)
      modifies this`model
      ensures Valid() && model == m
    {
      model := m;
    }

    constructor (t: Shape)
      ensures Valid() && fresh(Repr) && this.t == t && model == Default(t)
    {
      this.t := t;
      vals := if t.Scalars? then Default(t).vals else [];
      which, kids, cachedSize := 0, [], 0;
      model := Default(t);
      Repr := {this};
    }

    /** mutable_x(): clears another member that is set, and creates this one if needed. */
    method MutableMember(num: nat) returns (member: Message)
      requires Valid() && t.Choice? && Declared(t, num)
      modifies this
      ensures Valid() && fresh(Repr - old(Repr))
      ensures which == num && kids == [member] && member.t == t.members[num - 1]
      ensures member.model == Current(old(model), num, member.t)
      ensures member.Repr <= Repr && (member.Repr <= old(Repr) || fresh(member.Repr))
    {
      if which != num {
        member := new Message(t.members[num - 1]);
        which, kids := num, [member];
        model := Set(num, member.model);
        Repr := {this} + member.Repr;
      } else {
        member := kids[0];
      }
    }

    /** add_x(): appends an empty element. */
    method AddElement() returns (elem: Message)
      requires Valid() && t.Repeated?
      modifies this
      ensures Valid() && fresh(Repr - old(Repr)) && Repr == old(Repr) + elem.Repr
      ensures kids == old(kids) + [elem] && fresh(elem) && fresh(elem.Repr) && elem.t == t.elem
      ensures elem.model == Default(elem.t) && model == Many(old(model).subs + [elem.model])
    {
      elem := new Message(t.elem);
      kids := kids + [elem];
      model := Many(model.subs + [elem.model]);
      Repr := Repr + elem.Repr;
    }

    // ----- Parsing ------------------------------------------------------------------

    /** ReadMessageNoVirtual: parses a length-delimited body into this message. */
    method ReadMessage(input: CodedInputStream) returns (ok: bool)
      requires Valid() && Compact(t) && input.InBounds() && !input.legitimateEnd
      modifies input, Repr
      ensures Valid() && fresh(Repr - old(Repr))
      ensures input.InBounds() && input.limit == old(input.limit)
      ensures var p := ReadPayload(LENGTH_DELIMITED, old(input.Rest()));
              ok == (p.Some? && Parse(t, old(model), p.value.0.body).Some?)
      ensures ok ==>
                var p := ReadPayload(LENGTH_DELIMITED, old(input.Rest()));
                && !input.legitimateEnd && input.pos == old(input.pos) + p.value.1
                && Some(model) == Parse(t, old(model), p.value.0.body)
      decreases input.limit - input.pos, 0
    {
      hide ReadPayload, ReadVarint, Parse;
      DelimitedPayload(input.Rest());
      var length := ReadVarint(input.Rest());
      if length.None? || length.value.value > |input.Rest()| - length.value.size {
        return false;
      }
      ghost var rest := input.Rest();
      ghost var body := rest[length.value.size..length.value.size + length.value.value];
      assert ReadPayload(LENGTH_DELIMITED, rest).value.0.body == body;
      var outer := input.limit;
      SliceOfSlice(input.data, input.pos, outer, length.value.size, length.value.size + length.value.value);
      input.pos := input.pos + length.value.size;
      input.limit := input.pos + length.value.value;
      assert input.Rest() == body;
      ok := MergePartialFromCodedStream(input);
      ok := ok && input.legitimateEnd;
      input.limit := outer;
      input.legitimateEnd := false;
    }

    method ReadScalar(num: nat, input: CodedInputStream) returns (ok: bool)
      requires Valid() && t.Scalars? && Declared(t, num) && input.InBounds()
      modifies input`pos, this
      ensures Valid() && Repr == old(Repr) && input.InBounds()
      ensures var p := ReadPayload(WireTypeOf(t, num), old(input.Rest()));
              && ok == (p.Some? && Apply(t, old(model), num, p.value.0).Some?)
              && (ok ==> input.pos == old(input.pos) + p.value.1)
              && (ok ==> Some(model) == Apply(t, old(model), num, p.value.0))
    {
      hide ReadPayload, ReadVal;
      ghost var rest := input.Rest();
      var kind := t.kinds[num - 1];
      var body := input.ReadBody(WireTypeOfKind(kind));
      if body.None? { return false; }
      PayloadHasItsWireType(WireTypeOfKind(kind), rest);
      var v := ReadVal(kind, body.value);
      if v.None? { return false; }
      vals := vals[num - 1 := v.value];
      model := Fields(vals);
      ok := true;
    }

    /** Parses into one submessage; the others keep what they hold. */
    method ReadKid(i: nat, input: CodedInputStream) returns (ok: bool)
      requires OwnsKids() && i < |kids| && Compact(kids[i].t) && Schema.Valid(kids[i].t, kids[i].model)
      requires input.InBounds() && !input.legitimateEnd
      modifies input, Repr
      ensures OwnsKids() && fresh(Repr - old(Repr))
      ensures unchanged(this`vals) && unchanged(this`which) && unchanged(this`kids) && unchanged(this`model)
      ensures forall j | 0 <= j < |kids| && j != i :: kids[j].model == old(kids[j].model)
      ensures Schema.Valid(kids[i].t, kids[i].model)
      ensures input.InBounds() && input.limit == old(input.limit)
      ensures var p := ReadPayload(LENGTH_DELIMITED, old(input.Rest()));
              && ok == (p.Some? && Parse(kids[i].t, old(kids[i].model), p.value.0.body).Some?)
              && (ok ==> !input.legitimateEnd && input.pos == old(input.pos) + p.value.1)
              && (ok ==> Some(kids[i].model) == Parse(kids[i].t, old(kids[i].model), p.value.0.body))
      decreases input.limit - input.pos, 1
    {
      hide ReadPayload, Parse, Schema.Valid, Message.Stands;
      var kid := kids[i];
      assert forall k | k in kids :: k in k.Repr;
      assert forall j | 0 <= j < |kids| && j != i :: kids[j].Repr !! kid.Repr && kids[j] !in kid.Repr;
      ok := kid.ReadMessage(input);
      assert forall j | 0 <= j < |kids| && j != i :: kids[j].Valid() && kids[j].Repr !! kid.Repr;
      Repr := Repr + kid.Repr;
    }

    lemma KidIsValid()
      requires Valid() && |kids| == 1
      ensures Schema.Valid(kids[0].t, kids[0].model)
    {
      assert kids[0] in kids;
    }

    /** Parses into the member that is set. */
    method ReadCurrentMember(input: CodedInputStream) returns (ok: bool)
      requires Valid() && t.Choice? && |kids| == 1 && Compact(kids[0].t)
      requires input.InBounds() && !input.legitimateEnd
      modifies input, Repr
      ensures Valid() && fresh(Repr - old(Repr)) && which == old(which) && kids == old(kids)
      ensures model == Set(which, kids[0].model)
      ensures input.InBounds() && input.limit == old(input.limit)
      ensures var p := ReadPayload(LENGTH_DELIMITED, old(input.Rest()));
              && ok == (p.Some? && Parse(kids[0].t, old(kids[0].model), p.value.0.body).Some?)
              && (ok ==> !input.legitimateEnd && input.pos == old(input.pos) + p.value.1)
              && (ok ==> Some(kids[0].model) == Parse(kids[0].t, old(kids[0].model), p.value.0.body))
      decreases input.limit - input.pos, 2
    {
      hide ReadPayload, Parse, Schema.Valid, Compact, Message.OwnsKids;
      KidIsValid();
      ok := ReadKid(0, input);
      SetIsValid(t.members, which, kids[0].model);
      Restate(Set(which, kids[0].model));
    }

    method ReadMember(num: nat, input: CodedInputStream) returns (ok: bool)
      requires Valid() && Compact(t) && t.Choice? && Declared(t, num)
      requires input.InBounds() && !input.legitimateEnd
      modifies input, Repr
      ensures Valid() && fresh(Repr - old(Repr))
      ensures input.InBounds() && input.limit == old(input.limit)
      ensures var p := ReadPayload(LENGTH_DELIMITED, old(input.Rest()));
              && ok == (p.Some? && Apply(t, old(model), num, p.value.0).Some?)
              && (ok ==> !input.legitimateEnd && input.pos == old(input.pos) + p.value.1)
              && (ok ==> Some(model) == Apply(t, old(model), num, p.value.0))
      decreases input.limit - input.pos, 3
    {
      ghost var rest := input.Rest();
      ghost var p := ReadPayload(LENGTH_DELIMITED, rest);
      hide ReadPayload, Parse, Apply, Schema.Valid, Compact, Current, Message.OwnsKids, Message.Stands;
      MemberIsCompact(t.members, num);
      if p.Some? {
        PayloadHasItsWireType(LENGTH_DELIMITED, rest);
        ApplyMember(t, model, num, p.value.0.body);
      }
      var member := MutableMember(num);
      ok := ReadCurrentMember(input);
    }

    method ReadElement(num: nat, input: CodedInputStream) returns (ok: bool)
      requires Valid() && Compact(t) && t.Repeated? && num == 1
      requires input.InBounds() && !input.legitimateEnd
      modifies input, Repr
      ensures Valid() && fresh(Repr - old(Repr))
      ensures input.InBounds() && input.limit == old(input.limit)
      ensures var p := ReadPayload(LENGTH_DELIMITED, old(input.Rest()));
              && ok == (p.Some? && Apply(t, old(model), num, p.value.0).Some?)
              && (ok ==> !input.legitimateEnd && input.pos == old(input.pos) + p.value.1)
              && (ok ==> Some(model) == Apply(t, old(model), num, p.value.0))
      decreases input.limit - input.pos, 2
    {
      ghost var rest := input.Rest();
      ghost var p := ReadPayload(LENGTH_DELIMITED, rest);
      if p.Some? { PayloadHasItsWireType(LENGTH_DELIMITED, rest); }
      hide ReadPayload, Parse, Message.OwnsKids, Schema.Valid;
      var elem := AddElement();
      ok := ReadKid(|kids| - 1, input);
      OneMore(t.elem, old(model).subs, elem.model);
      Restate(Many(old(model).subs + [elem.model]));
    }

    /** The body of one case of the switch, after the tag. */
    method ReadField(num: nat, input: CodedInputStream) returns (ok: bool)
      requires Valid() && Compact(t) && Declared(t, num) && input.InBounds() && !input.legitimateEnd
      modifies input, Repr
      ensures Valid() && fresh(Repr - old(Repr))
      ensures input.InBounds() && input.limit == old(input.limit)
      ensures ok ==> !input.legitimateEnd && input.pos > old(input.pos)
      ensures ParseAfterTag(t, old(model), num, old(input.Rest())) ==
              if ok then Parse(t, model, input.Rest()) else None
      decreases input.limit - input.pos, 4
    {
      hide ReadPayload, Parse, Apply;
      ghost var rest := input.Rest();
      if t.Scalars? {
        ok := ReadScalar(num, input);
      } else if t.Choice? {
        ok := ReadMember(num, input);
      } else {
        ok := ReadElement(num, input);
      }
      if ok {
        assert input.Rest() == rest[ReadPayload(WireTypeOf(t, num), rest).value.1..];
      }
    }

    /** The shortcuts after a field: the tag of the next field (or again of the repeated
        field) is tried directly, and after the last field the end of the message. */
    method TryShortcut(num: nat, input: CodedInputStream) returns (jump: nat, atEnd: bool)
      requires Valid() && Compact(t) && Declared(t, num) && input.InBounds() && !input.legitimateEnd
      modifies input`pos, input`legitimateEnd
      ensures input.InBounds() && input.legitimateEnd == atEnd
      ensures atEnd ==> jump == 0 && input.pos == input.limit && old(input.Rest()) == []
      ensures jump == 0 ==> input.pos == old(input.pos)
      ensures jump != 0 ==> Declared(t, jump) && input.pos == old(input.pos) + 1
      ensures jump != 0 ==> Parse(t, model, old(input.Rest())) == ParseAfterTag(t, model, jump, input.Rest())
    {
      hide Parse, ParseAfterTag, Schema.Valid, Message.Stands, Message.OwnsKids;
      jump, atEnd := 0, false;
      var next := if t.Repeated? then num else num + 1;
      if Declared(t, next) {
        ghost var rest := input.Rest();
        var found := input.ExpectTag(TagOf(t, next));
        if found {
          ParseExpected(t, model, next, rest);
          assert input.Rest() == rest[1..];
          return next, false;
        }
      }
      if t.Repeated? || num == FieldCount(t) {
        atEnd := input.ExpectAtEnd();
      }
    }

    /** The parse loop with its jumps. */
    method MergePartialFromCodedStream(input: CodedInputStream) returns (ok: bool)
      requires Valid() && Compact(t) && input.InBounds() && !input.legitimateEnd
      modifies input, Repr
      ensures Valid() && fresh(Repr - old(Repr))
      ensures input.InBounds() && input.limit == old(input.limit)
      ensures Parse(t, old(model), old(input.Rest())) ==
              if ok && input.legitimateEnd then Some(model) else None
      ensures ok && input.legitimateEnd ==> input.pos == input.limit
      decreases input.limit - input.pos, 4
    {
      hide ReadPayload, ReadTag, Parse, ParseAfterTag, Compact, TagOf, Declared, Schema.Valid,
        Message.Stands, Message.OwnsKids;
      TagsAreSmall(t);
      ghost var goal := Parse(t, model, input.Rest());
      var jump: nat := 0;  // the field whose label is jumped to; 0 reads a tag
      while true
        invariant Valid() && fresh(Repr - old(Repr))
        invariant input.InBounds() && input.limit == old(input.limit) && !input.legitimateEnd
        invariant old(input.pos) <= input.pos
        invariant jump == 0 ==> goal == Parse(t, model, input.Rest())
        invariant jump != 0 ==> Declared(t, jump) && old(input.pos) < input.pos
        invariant jump != 0 ==> goal == ParseAfterTag(t, model, jump, input.Rest())
        decreases input.limit - input.pos
      {
        var num := jump;
        if num == 0 {
          ghost var rest := input.Rest();
          var tag, small := input.ReadTagWithCutoff(127);
          if small && Declared(t, tag / 8) && tag == TagOf(t, tag / 8) {
            num := tag / 8;
            ParseDeclared(t, model, num, rest);
          } else {
            if tag == 0 || tag % 8 == END_GROUP {
              ParseStops(t, model, rest);
              return true;
            }
            ParseUndeclared(t, model, rest);
            var skipped := input.SkipField(tag);
            if !skipped { return false; }
            continue;
          }
        }
        var read := ReadField(num, input);
        if !read { return false; }
        var atEnd;
        jump, atEnd := TryShortcut(num, input);
        if atEnd {
          ParseStops(t, model, input.Rest());
          return true;
        }
      }
    }

    method Clear()
      requires Valid()
      modifies this
      ensures Valid() && Repr == old(Repr) && model == Default(t)
    {
      if t.Scalars? { vals := Default(t).vals; }
      which, kids := 0, [];
      model := Default(t);
    }

    /** ParseFromArray: into the cleared message, and all bytes must have been consumed. */
    method ParseFromArray(data: Bytes) returns (ok: bool)
      requires Valid() && Compact(t)
      modifies Repr
      ensures Valid() && fresh(Repr - old(Repr))
      ensures Decode(t, data) == if ok then Some(model) else None
    {
      Clear();
      var input := new CodedInputStream(data);
      ok := MergePartialFromCodedStream(input);
      ok := ok && input.legitimateEnd;
    }

    // ----- Sizes --------------------------------------------------------------------

    /** Every message of the tree has cached the number of bytes it will emit. */
    ghost predicate Sized()
      reads this, Repr
      decreases Repr
    {
      && this in Repr && Schema.Valid(t, model) && cachedSize == Size(t, model)
      && forall k | k in kids :: k in Repr && k.Repr < Repr && k.Sized()
    }

    /** Caches the sizes below one submessage; the others keep theirs. */
    method SizeKid(i: nat) returns (size: Int32)
      requires Valid() && i < |kids| && Schema.Valid(kids[i].t, kids[i].model)
      requires Size(kids[i].t, kids[i].model) < TWO_31
      modifies Repr`cachedSize
      ensures Valid() && kids[i].Sized() && size == kids[i].cachedSize
      ensures forall j | 0 <= j < |kids| && j != i && old(kids[j].Sized()) :: kids[j].Sized()
      decreases Repr, 0
    {
      hide Size, Schema.Valid, Message.Stands, Message.Sized;
      var kid := kids[i];
      assert forall j | 0 <= j < |kids| && j != i :: kids[j].Repr !! kid.Repr && kids[j].Valid();
      size := kid.ByteSize();
      assert forall j | 0 <= j < |kids| :: kids[j].Valid();
    }

    method SetCachedSize(size: Int32)
      requires Valid() && size == Size(t, model)
      requires forall k | k in kids :: k.Sized()
      modifies this`cachedSize
      ensures Valid() && Sized() && cachedSize == size
    {
      hide Size, Schema.Valid, Message.Stands;
      assert forall k | k in kids :: k.Repr < Repr;
      cachedSize := size;
    }

    method ElementsSize() returns (total: Int32)
      requires Valid() && t.Repeated? && Size(t, model) < TWO_31
      modifies Repr`cachedSize
      ensures Valid() && total == Size(t, model)
      ensures forall j | 0 <= j < |kids| :: kids[j].Sized()
      decreases Repr, 1
    {
      total := |kids|;
      for i := 0 to |kids|
        invariant Valid() && forall j | 0 <= j < i :: kids[j].Sized()
        invariant total >= |kids|
        invariant total + ManySize(t.elem, model.subs[i..]) == Size(t, model) + |kids| - i
      {
        assert model.subs[i..][1..] == model.subs[i + 1..];
        var size := SizeKid(i);
        total := total + VarintSize(size) + size;
      }
      assert model.subs[|kids|..] == [];
    }

    /** ByteSize(): caches the size of every message of the tree. */
    method ByteSize() returns (total: Int32)
      requires Valid() && Size(t, model) < TWO_31
      modifies Repr`cachedSize
      ensures Valid() && Sized() && total == cachedSize
      decreases Repr, 2
    {
      total := 0;
      if t.Scalars? {
        for i := 0 to |vals|
          invariant total + ValsSize(t.kinds, vals, i) == Size(t, model)
        {
          total := total + ValSize(t.kinds[i], vals[i]);
        }
      } else if t.Repeated? {
        total := ElementsSize();
      } else if which != 0 {
        var size := SizeKid(0);
        total := 1 + VarintSize(size) + size;
      }
      SetCachedSize(total);
    }

    // ----- Serialization ------------------------------------------------------------

    /** WriteXToArray: copies bytes to the target and returns the position after them. */
    static method Put(target: array<Byte>, at: nat, bytes: Bytes) returns (next: nat)
      requires at + |bytes| <= target.Length
      modifies target
      ensures next == at + |bytes| && Wrote(old(target[..]), at, bytes, target[..])
    {
      for i := 0 to |bytes|
        invariant target[..at] == old(target[..at])
        invariant target[at..at + i] == bytes[..i]
        invariant target[at + i..] == old(target[at + i..])
      {
        target[at + i] := bytes[i];
      }
      next := at + |bytes|;
    }

    /** InternalWriteMessageNoVirtualToArray: tag, cached size, body of one submessage. */
    method PutKid(num: nat, i: nat, target: array<Byte>, at: nat) returns (next: nat)
      requires Valid() && Compact(t) && Declared(t, num) && i < |kids|
      requires Compact(kids[i].t) && kids[i].Sized()
      requires at + SubSize(kids[i].t, kids[i].model) <= target.Length
      modifies target
      ensures next == at + SubSize(kids[i].t, kids[i].model)
      ensures Wrote(old(target[..]), at, EncodeSub(num, kids[i].t, kids[i].model), target[..])
      decreases Repr, 0
    {
      hide Wrote, Encode;
      var kid := kids[i];
      SizeIsLength(kid.t, kid.model);
      VarintLength(kid.cachedSize);
      var head := Varint(8 * num + LENGTH_DELIMITED) + Varint(kid.cachedSize);
      ghost var start := target[..];
      next := Put(target, at, head);
      ghost var middle := target[..];
      next := kid.SerializeWithCachedSizesToArray(target, next);
      WroteThen(start, at, head, middle, Encode(kid.t, kid.model), target[..]);
      assert EncodeSub(num, kid.t, kid.model) == head + Encode(kid.t, kid.model);
    }

    method PutElements(target: array<Byte>, at: nat) returns (next: nat)
      requires Valid() && Compact(t) && t.Repeated? && Sized() && at + Size(t, model) <= target.Length
      modifies target
      ensures next == at + Size(t, model) && Wrote(old(target[..]), at, Encode(t, model), target[..])
      decreases Repr, 1
    {
      hide Wrote, EncodeSub, SubSize, EncodeMany, ManySize;
      ghost var done: Bytes := [];
      WroteNothing(target[..], at);
      LastElement(t.elem, model.subs);
      next := at;
      for i := 0 to |kids|
        invariant next == at + |done| && next + ManySize(t.elem, model.subs[i..]) == at + Size(t, model)
        invariant done + EncodeMany(t.elem, model.subs[i..]) == Encode(t, model)
        invariant Wrote(old(target[..]), at, done, target[..])
      {
        ghost var sub := EncodeSub(1, t.elem, kids[i].model);
        NextElement(t.elem, model.subs, i);
        ghost var before := target[..];
        next := PutKid(1, i, target, next);
        WroteThen(old(target[..]), at, done, before, sub, target[..]);
        done := done + sub;
      }
      assert done + [] == done;
    }

    method PutScalars(target: array<Byte>, at: nat) returns (next: nat)
      requires Valid() && Compact(t) && t.Scalars? && at + Size(t, model) <= target.Length
      modifies target
      ensures next == at + Size(t, model) && Wrote(old(target[..]), at, Encode(t, model), target[..])
    {
      hide Wrote, EncodeVal;
      ghost var done: Bytes := [];
      WroteNothing(target[..], at);
      SizeIsLength(t, model);
      next := at;
      for i := 0 to |vals|
        invariant next == at + |done|
        invariant done + EncodeVals(t.kinds, vals, i) == Encode(t, model)
        invariant Wrote(old(target[..]), at, done, target[..])
      {
        var field := EncodeVal(i + 1, t.kinds[i], vals[i]);
        ghost var before := target[..];
        next := Put(target, next, field);
        WroteThen(old(target[..]), at, done, before, field, target[..]);
        done := done + field;
      }
      assert done + [] == done;
    }

    /** Fills exactly the bytes that ByteSize() announced, trusting every cached size. */
    method SerializeWithCachedSizesToArray(target: array<Byte>, at: nat) returns (next: nat)
      requires Valid() && Compact(t) && Sized() && at + cachedSize <= target.Length
      modifies target
      ensures next == at + cachedSize && Wrote(old(target[..]), at, Encode(t, model), target[..])
      decreases Repr, 2
    {
      hide Wrote;
      if t.Scalars? {
        next := PutScalars(target, at);
      } else if t.Repeated? {
        next := PutElements(target, at);
      } else if which != 0 {
        next := PutKid(which, 0, target, at);
      } else {
        next := at;
        WroteNothing(target[..], at);
      }
    }

    /** SerializeToArray: ByteSize(), then the serializer. */
    method SerializeToArray() returns (target: array<Byte>)
      requires Valid() && Compact(t) && Size(t, model) < TWO_31
      modifies Repr`cachedSize
      ensures Valid() && fresh(target) && target[..] == Encode(t, model)
    {
      var size := ByteSize();
      target := new Byte[size](_ => 0);
      var _ := SerializeWithCachedSizesToArray(target, 0);
      SizeIsLength(t, model);
    }

    // ----- Merging ------------------------------------------------------------------

    /** Merges into one submessage; the others keep what they hold. */
    method MergeKid(i: nat, from: Message)
      requires OwnsKids() && i < |kids| && from.Valid() && from.t == kids[i].t && Repr !! from.Repr
      requires Schema.Valid(kids[i].t, kids[i].model)
      modifies Repr
      ensures OwnsKids() && fresh(Repr - old(Repr))
      ensures unchanged(this`vals) && unchanged(this`which) && unchanged(this`kids) && unchanged(this`model)
      ensures forall j | 0 <= j < |kids| && j != i :: kids[j].model == old(kids[j].model)
      ensures kids[i].model == Merge(from.t, old(kids[i].model), from.model)
      decreases from.Repr, 4
    {
      hide Merge, Schema.Valid, Message.Stands;
      var kid := kids[i];
      assert forall j | 0 <= j < |kids| && j != i :: kids[j].Repr !! kid.Repr && kids[j] !in kid.Repr;
      kid.MergeFrom(from);
      assert forall j | 0 <= j < |kids| && j != i :: kids[j].Valid() && kids[j].Repr !! kid.Repr;
      Repr := Repr + kid.Repr;
    }

    method MergeScalars(from: Message)
      requires Valid() && from.Valid() && from.t == t && t.Scalars?
      modifies this
      ensures Valid() && Repr == old(Repr) && model == Merge(t, old(model), from.model)
    {
      ghost var merged := MergeVals(t.kinds, vals, from.vals);
      var theirs := from.vals;
      for i := 0 to |theirs|
        invariant |vals| == |merged| && vals[..i] == merged[..i] && vals[i..] == old(vals)[i..]
        invariant kids == [] && Repr == old(Repr)
      {
        if theirs[i] != DefaultVal(t.kinds[i]) {
          vals := vals[i := theirs[i]];
        }
      }
      model := Fields(vals);
      assert vals == merged;
    }

    method MergeElement(other: Message)
      requires Valid() && t.Repeated? && other.Valid() && other.t == t.elem && Repr !! other.Repr
      modifies Repr
      ensures Valid() && fresh(Repr - old(Repr)) && model == Many(old(model).subs + [other.model])
      decreases other.Repr, 5
    {
      hide Schema.Valid, Merge;
      ghost var mine := model.subs;
      var elem := AddElement();
      MergeKid(|kids| - 1, other);
      MergeIntoDefault(t.elem, other.model);
      OneMore(t.elem, mine, elem.model);
      Restate(Many(mine + [elem.model]));
    }

    method MergeElements(from: Message)
      requires Valid() && from.Valid() && from.t == t && t.Repeated? && Repr !! from.Repr
      modifies Repr
      ensures Valid() && fresh(Repr - old(Repr)) && model == Merge(t, old(model), from.model)
      decreases from.Repr, 2
    {
      hide Schema.Valid, Merge;
      ghost var mine, theirs := model.subs, from.model.subs;
      for i := 0 to |from.kids|
        invariant Valid() && fresh(Repr - old(Repr)) && from.Valid() && Repr !! from.Repr
        invariant from.model == Many(theirs) && from.kids == old(from.kids)
        invariant model == Many(mine + theirs[..i])
      {
        MergeElement(from.kids[i]);
        assert theirs[..i + 1] == theirs[..i] + [theirs[i]];
        assert mine + theirs[..i + 1] == mine + theirs[..i] + [theirs[i]];
      }
      MergeOfMany(t.elem, mine, theirs);
    }

    method MergeFrom(from: Message)
      requires Valid() && from.Valid() && from.t == t && Repr !! from.Repr
      modifies Repr
      ensures Valid() && fresh(Repr - old(Repr)) && model == Merge(t, old(model), from.model)
      decreases from.Repr, 3
    {
      if t.Scalars? {
        MergeScalars(from);
      } else if t.Repeated? {
        MergeElements(from);
      } else if from.which != 0 {
        var num := from.which;
        var member := MutableMember(num);
        MergeKid(0, from.kids[0]);
        Restate(Set(num, member.model));
      }
    }
  }
}