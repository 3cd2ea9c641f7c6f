/**
 The format in its own terms: which values can be encoded, under which names, in
 which slots, and as which kinds of JSON value.
 */
module Format {

  import opened Decoding
  import opened ListProgress
  import opened Results
  import opened RoundTrip
  import opened RoundTripExact
  import opened Schemas

  // ----- what can be encoded

  /** Every enumeration value inside has a name. */
  ghost predicate Nameable(s: Schema, v: Value)
    requires HasType(s, v)
    decreases s, 1, 0
  {
    match s
    case SEnum(names) => exists n :: n in names && n.1 == v.e
    case SList(_) => ListNameable(s, v.items)
    case STuple(es) => TupleNameable(es, v.items)
    case SOptional(e) => v.VSome? ==> Nameable(e, v.v)
    case SMap(_, _) => MapNameable(s, v.entries)
    case SStringMap(_) => StringMapNameable(s, v.named)
    case SStruct(ms) => MembersNameable(ms, v.fields)
    case _ => true
  }

  ghost predicate ListNameable(s: Schema, vs: seq<Value>)
    requires s.SList? && ListTyped(s, vs)
    decreases s, 0, |vs|
  {
    vs == [] || (Nameable(s.elem, vs[0]) && ListNameable(s, vs[1..]))
  }

  ghost predicate TupleNameable(es: seq<Schema>, vs: seq<Value>)
    requires TupleTyped(es, vs)
    decreases es, 0, 0
  {
    es == [] || (Nameable(es[0], vs[0]) && TupleNameable(es[1..], vs[1..]))
  }

  ghost predicate MapNameable(s: Schema, es: seq<Entry>)
    requires s.SMap? && MapTyped(s, es)
    decreases s, 0, |es|
  {
    es == [] || (Nameable(s.key, es[0].key) && Nameable(s.mapped, es[0].value) && MapNameable(s, es[1..]))
  }

  ghost predicate StringMapNameable(s: Schema, es: seq<Named>)
    requires s.SStringMap? && StringMapTyped(s, es)
    decreases s, 0, |es|
  {
    es == [] || (Nameable(s.mapped, es[0].value) && StringMapNameable(s, es[1..]))
  }

  ghost predicate MembersNameable(ms: seq<Member>, fs: seq<Value>)
    requires MembersTyped(ms, fs)
    decreases ms, 0, 0
  {
    ms == [] || (MemberNameable(ms[0], fs[0]) && MembersNameable(ms[1..], fs[1..]))
  }

  ghost predicate MemberNameable(m: Member, f: Value)
    requires MemberTyped(m, f)
    decreases m, 0, 0
  {
    match m
    case Typed(_, s) => Nameable(s, f)
    case Custom(_, s, to, _) => Nameable(s, to(f))
    case Ancestor(base) => MembersNameable(base, f.fields)
  }

  /** Encoding succeeds if and only if every enumeration value inside has a name. */
  lemma {:induction false} EncodesIffNameable(s: Schema, v: Value)
    requires HasType(s, v)
    ensures EncodeElement(s, v).Some? <==> Nameable(s, v)
    ensures EncodeItem(s, v).Some? <==> Nameable(s, v)
    decreases s, 1, 0
  {
    match s
    case SOptional(e) => if v.VSome? { EncodesIffNameable(e, v.v); }
    case SList(_) => ListEncodesIff(s, v.items);
    case STuple(es) => TupleEncodesIff(es, v.items);
    case SMap(_, _) => MapEncodesIff(s, v.entries);
    case SStringMap(_) => StringMapEncodesIff(s, v.named);
    case SStruct(ms) => MembersEncodeIff(ms, v.fields, map[]);
    case _ =>
  }

  lemma {:induction false} ListEncodesIff(s: Schema, vs: seq<Value>)
    requires s.SList? && ListTyped(s, vs)
    ensures EncodeList(s, vs).Some? <==> ListNameable(s, vs)
    decreases s, 0, |vs|
  {
    if vs == [] {
    } else {
      EncodesIffNameable(s.elem, vs[0]);
      ListEncodesIff(s, vs[1..]);
    }
  }

  lemma {:induction false} TupleEncodesIff(es: seq<Schema>, vs: seq<Value>)
    requires TupleTyped(es, vs)
    ensures EncodeTuple(es, vs).Some? <==> TupleNameable(es, vs)
    decreases es, 0, 0
  {
    if es == [] {
    } else {
      EncodesIffNameable(es[0], vs[0]);
      TupleEncodesIff(es[1..], vs[1..]);
    }
  }

  lemma {:induction false} MapEncodesIff(s: Schema, es: seq<Entry>)
    requires s.SMap? && MapTyped(s, es)
    ensures EncodeMap(s, es).Some? <==> MapNameable(s, es)
    decreases s, 0, |es|
  {
    if es == [] {
    } else {
      EncodesIffNameable(s.key, es[0].key);
      EncodesIffNameable(s.mapped, es[0].value);
      EntryEncodesIff(s, es[0]);
      MapEncodesIff(s, es[1..]);
    }
  }

  lemma EntryEncodesIff(s: Schema, e: Entry)
    requires s.SMap? && HasType(s.key, e.key) && HasType(s.mapped, e.value)
    ensures PutEntry(s, e).Some? <==> EncodeElement(s.key, e.key).Some? && EncodeElement(s.mapped, e.value).Some?
  {
  }

  lemma {:induction false} StringMapEncodesIff(s: Schema, es: seq<Named>)
    requires s.SStringMap? && StringMapTyped(s, es)
    ensures EncodeStringMap(s, es).Some? <==> StringMapNameable(s, es)
    decreases s, 0, |es|
  {
    if es == [] {
    } else {
      EncodesIffNameable(s.mapped, es[0].value);
      StringMapEncodesIff(s, es[1..]);
    }
  }

  lemma {:induction false} MembersEncodeIff(ms: seq<Member>, fs: seq<Value>, obj: map<string, Json>)
    requires MembersTyped(ms, fs)
    ensures PutMembers(ms, fs, obj).Some? <==> MembersNameable(ms, fs)
    decreases ms, 0, 0
  {
    if ms == [] {
    } else {
      MemberEncodesIff(ms[0], fs[0], obj);
      var m := PutMember(ms[0], fs[0], obj);
      if m.Some? {
        MembersEncodeIff(ms[1..], fs[1..], m.value);
      }
    }
  }

  lemma {:induction false} MemberEncodesIff(m: Member, f: Value, obj: map<string, Json>)
    requires MemberTyped(m, f)
    ensures PutMember(m, f, obj).Some? <==> MemberNameable(m, f)
    decreases m, 0, 0
  {
    match m
    case Typed(_, s) => EncodesIffNameable(s, f);
    case Custom(_, s, to, _) => EncodesIffNameable(s, to(f));
    case Ancestor(base) => MembersEncodeIff(base, f.fields, obj);
  }

  // ----- as what it is encoded

  /**
   A number, boolean or text is written as itself, an enumeration value as the
   first of its names, an array or a struct as an array or an object.
   */
  lemma EncodedAs(s: Schema, v: Value)
    requires HasType(s, v) && !s.SOptional? && Encode(s, v).Some?
    ensures var j := Encode(s, v).value;
            match s
            case SBool => j == Bool(v.b)
            case SInt(w) => j == if w in {UInt8, UInt16, UInt32, UInt64} then Unsigned(v.i) else Signed(v.i)
            case SFloat => j == Float(v.r)
            case SString => j == Text(v.s)
            case SEnum(names) => j.Text? && exists i :: IsFirstName(names, v.e, j.s, i)
            case SStruct(_) => j.Object?
            case _ => j.Array?
  {
    if s.SEnum? {
      var i := FirstName(s.names, v.e);
    }
  }

  ghost predicate IsFirstName(names: seq<(string, int)>, e: int, name: string, i: nat) {
    i < |names| && names[i] == (name, e) && forall j :: 0 <= j < i ==> names[j].1 != e
  }

  lemma {:induction false} FirstName(names: seq<(string, int)>, e: int) returns (i: nat)
    requires NameOf(names, e).Some?
    ensures IsFirstName(names, e, NameOf(names, e).value, i)
  {
    if names[0].1 == e {
      i := 0;
    } else {
      var j := FirstName(names[1..], e);
      i := j + 1;
    }
  }

  /** Widths double: the bounds of each integer type follow from those of a byte. */
  lemma IntegerBounds()
    ensures UInt8.Max() == 255
    ensures UInt16.Max() + 1 == (UInt8.Max() + 1) * 256
    ensures UInt32.Max() + 1 == (UInt16.Max() + 1) * 0x1_0000
    ensures UInt64.Max() + 1 == (UInt32.Max() + 1) * 0x1_0000_0000
    ensures forall w :: w in {UInt8, UInt16, UInt32, UInt64} ==> w.Min() == 0
    ensures forall p :: p in {(Int8, UInt8), (Int16, UInt16), (Int32, UInt32), (Int64, UInt64)} ==>
      p.0.Min() == -p.0.Max() - 1 && p.1.Max() == 2 * p.0.Max() + 1
  {
  }

  // ----- where it is written

  /** An empty optional, at any depth, is left out of an object and null in an array; a full one is its content. */
  lemma {:induction false} OptionalFormat(s: Schema, v: Value, name: string, obj: map<string, Json>)
    requires s.SOptional? && HasType(s, v)
    ensures IsEmpty(s, v) ==> Put(s, v, name, obj) == Some(obj) && EncodeItem(s, v) == Some(Null)
    ensures v.VSome? ==>
      Put(s, v, name, obj) == Put(s.inner, v.v, name, obj) && EncodeItem(s, v) == EncodeItem(s.inner, v.v)
    decreases s
  {
    if v.VSome? {
      if s.inner.SOptional? {
        OptionalFormat(s.inner, v.v, name, obj);
      } else {
        assert !IsEmpty(s.inner, v.v);
      }
    }
  }

  /** Anything else is stored under its name and pushed to an array as it is encoded, never as null. */
  lemma ElementFormat(s: Schema, v: Value, name: string, obj: map<string, Json>)
    requires HasType(s, v) && !s.SOptional? && Encode(s, v).Some?
    ensures var j := Encode(s, v).value;
            j != Null && Put(s, v, name, obj) == Some(obj[name := j]) && EncodeItem(s, v) == Some(j)
  {
    EmptyIffNoElement(s, v);
  }

  /** A tuple is an array with the encoding of each element at its position. */
  lemma {:induction false} TupleFormat(es: seq<Schema>, vs: seq<Value>, i: nat)
    requires TupleTyped(es, vs) && EncodeTuple(es, vs).Some? && i < |vs|
    ensures var js := EncodeTuple(es, vs).value;
            |js| == |vs| == |es| && HasType(es[i], vs[i]) && EncodeItem(es[i], vs[i]) == Some(js[i])
    decreases |vs|
  {
    if i > 0 {
      TupleFormat(es[1..], vs[1..], i - 1);
    } else if |vs| > 1 {
      TupleFormat(es[1..], vs[1..], 0);
    }
  }

  /**
   The root array of a list, tuple or map is its encoding itself; of anything else,
   and of an empty optional, it has the one item an array serializer would push.
   */
  lemma {:induction false} RootFormat(s: Schema, v: Value)
    requires HasType(s, v)
    ensures s.SList? || s.STuple? || s.SMap? || s.SStringMap? ==> EncodeRoot(s, v) == Encode(s, v)
    ensures !IsArrayLike(Core(s)) || IsEmpty(s, v) ==>
      EncodeRoot(s, v) == match EncodeItem(s, v) case None => None case Some(j) => Some(Array([j]))
    ensures v.VSome? && s.SOptional? ==> EncodeRoot(s, v) == EncodeRoot(s.inner, v.v)
    decreases s
  {
    if s.SOptional? && v.VSome? {
      RootFormat(s.inner, v.v);
    }
  }
}
