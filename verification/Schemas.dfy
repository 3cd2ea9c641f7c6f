/**
 The types that ObjectAssembler knows how to serialize, their values, and the
 JSON tree each value stands for (values as in section 3 of RFC 8259).
 */
module Schemas {

  import opened Results

  /** Numbers keep the tag nlohmann gives them; a float is an exact real. */
  datatype Json =
    | Null
    | Bool(b: bool)
    | Signed(i: int)
    | Unsigned(n: int)
    | Float(r: real)
    | Text(s: string)
    | Array(items: seq<Json>)
    | Object(members: map<string, Json>)

  datatype IntType = Int8 | Int16 | Int32 | Int64 | UInt8 | UInt16 | UInt32 | UInt64 {
    predicate IsUnsigned() {
      UInt8? || UInt16? || UInt32? || UInt64?
    }

    function Min(): int {
      match this
      case Int8 => -0x80
      case Int16 => -0x8000
      case Int32 => -0x8000_0000
      case Int64 => -0x8000_0000_0000_0000
      case _ => 0
    }

    function Max(): int {
      match this
      case Int8 => 0x7f
      case Int16 => 0x7fff
      case Int32 => 0x7fff_ffff
      case Int64 => 0x7fff_ffff_ffff_ffff
      case UInt8 => 0xff
      case UInt16 => 0xffff
      case UInt32 => 0xffff_ffff
      case UInt64 => 0xffff_ffff_ffff_ffff
    }
  }

  /** An enumeration lists its names in map order; several names may share a value. */
  datatype Schema =
    | SBool
    | SInt(width: IntType)
    | SFloat
    | SString
    | SEnum(names: seq<(string, int)>)
    | SList(elem: Schema)
    | STuple(elems: seq<Schema>)
    | SOptional(inner: Schema)
    | SMap(key: Schema, mapped: Schema)
    | SStringMap(mapped: Schema)
    | SStruct(defs: seq<Member>)

  /** `define`, `defineAs` with its two conversions, and `extend`. */
  datatype Member =
    | Typed(name: string, schema: Schema)
    | Custom(name: string, schema: Schema, to: Value -> Value, from: Value -> Value)
    | Ancestor(base: seq<Member>)

  /** Maps list their entries in iteration order; a struct has one field per member, an ancestor's being its part. */
  datatype Value =
    | VBool(b: bool)
    | VInt(i: int)
    | VFloat(r: real)
    | VString(s: string)
    | VEnum(e: int)
    | VList(items: seq<Value>)
    | VTuple(items: seq<Value>)
    | VNone
    | VSome(v: Value)
    | VMap(entries: seq<Entry>)
    | VStringMap(named: seq<Named>)
    | VStruct(fields: seq<Value>)

  datatype Entry = Entry(key: Value, value: Value)
  datatype Named = Named(name: string, value: Value)

  const KEY_NAME := "__mapKey__"
  const VALUE_NAME := "__mapValue__"

  // ----- enumerations

  /** The first name mapped to a value. */
  function NameOf(names: seq<(string, int)>, e: int): (r: Option<string>)
    ensures r.Some? ==> (r.value, e) in names
    ensures r.None? ==> forall n :: n in names ==> n.1 != e
  {
    if names == [] then None
    else if names[0].1 == e then Some(names[0].0)
    else NameOf(names[1..], e)
  }

  function ValueOf(names: seq<(string, int)>, name: string): (r: Option<int>)
    ensures r.Some? ==> (name, r.value) in names
    ensures r.None? ==> forall n :: n in names ==> n.0 != name
  {
    if names == [] then None
    else if names[0].0 == name then Some(names[0].1)
    else ValueOf(names[1..], name)
  }

  /** `define` refuses a name twice. */
  ghost predicate DistinctEnum(names: seq<(string, int)>) {
    forall i, j :: 0 <= i < j < |names| ==> names[i].0 != names[j].0
  }

  // ----- typing

  ghost predicate HasType(s: Schema, v: Value)
    decreases s, 1, 0
  {
    match s
    case SBool => v.VBool?
    case SInt(w) => v.VInt? && w.Min() <= v.i <= w.Max()
    case SFloat => v.VFloat?
    case SString => v.VString?
    case SEnum(_) => v.VEnum?
    case SList(_) => v.VList? && ListTyped(s, v.items)
    case STuple(es) => v.VTuple? && TupleTyped(es, v.items)
    case SOptional(e) => v.VNone? || (v.VSome? && HasType(e, v.v))
    case SMap(_, _) => v.VMap? && MapTyped(s, v.entries)
    case SStringMap(_) => v.VStringMap? && StringMapTyped(s, v.named)
    case SStruct(ms) => v.VStruct? && MembersTyped(ms, v.fields)
  }

  ghost predicate ListTyped(s: Schema, vs: seq<Value>)
    requires s.SList?
    decreases s, 0, |vs|
  {
    vs == [] || (HasType(s.elem, vs[0]) && ListTyped(s, vs[1..]))
  }

  ghost predicate TupleTyped(es: seq<Schema>, vs: seq<Value>)
    decreases es, 0, 0
  {
    |es| == |vs| && (es == [] || (HasType(es[0], vs[0]) && TupleTyped(es[1..], vs[1..])))
  }

  ghost predicate MapTyped(s: Schema, es: seq<Entry>)
    requires s.SMap?
    decreases s, 0, |es|
  {
    es == [] || (HasType(s.key, es[0].key) && HasType(s.mapped, es[0].value) && MapTyped(s, es[1..]))
  }

  ghost predicate StringMapTyped(s: Schema, es: seq<Named>)
    requires s.SStringMap?
    decreases s, 0, |es|
  {
    es == [] || (HasType(s.mapped, es[0].value) && StringMapTyped(s, es[1..]))
  }

  ghost predicate MembersTyped(ms: seq<Member>, fs: seq<Value>)
    decreases ms, 0, 0
  {
    |ms| == |fs| && (ms == [] || (MemberTyped(ms[0], fs[0]) && MembersTyped(ms[1..], fs[1..])))
  }

  ghost predicate MemberTyped(m: Member, f: Value)
    decreases m, 0, 0
  {
    match m
    case Typed(_, s) => HasType(s, f)
    case Custom(_, s, to, _) => HasType(s, to(f))
    case Ancestor(base) => f.VStruct? && MembersTyped(base, f.fields)
  }

  // ----- encoding; None when an enumeration value has no name, for which the source throws

  /** What `serializeElement` stores under a name: nothing for an empty optional. */
  function EncodeElement(s: Schema, v: Value): Option<Option<Json>>
    requires HasType(s, v)
    decreases s, 1, 1
  {
    match s
    case SOptional(e) =>
      if v.VNone? then Some(None) else EncodeElement(e, v.v)
    case _ =>
      match Encode(s, v)
      case None => None
      case Some(j) => Some(Some(j))
  }

  /** What `serialize` pushes to an array: always one item. */
  function EncodeItem(s: Schema, v: Value): Option<Json>
    requires HasType(s, v)
    decreases s, 1, 2
  {
    match EncodeElement(s, v)
    case None => None
    case Some(None) => Some(Null)
    case Some(Some(j)) => Some(j)
  }

  function Encode(s: Schema, v: Value): Option<Json>
    requires HasType(s, v) && !s.SOptional?
    decreases s, 1, 0
  {
    match s
    case SBool => Some(Bool(v.b))
    case SInt(w) => Some(if w.IsUnsigned() then Unsigned(v.i) else Signed(v.i))
    case SFloat => Some(Float(v.r))
    case SString => Some(Text(v.s))
    case SEnum(names) =>
      (match NameOf(names, v.e)
       case None => None
       case Some(name) => Some(Text(name)))
    case SList(_) => AsArray(EncodeList(s, v.items))
    case STuple(es) => AsArray(EncodeTuple(es, v.items))
    case SMap(_, _) => AsArray(EncodeMap(s, v.entries))
    case SStringMap(_) => AsArray(EncodeStringMap(s, v.named))
    case SStruct(ms) => AsObject(PutMembers(ms, v.fields, map[]))
  }

  function AsArray(items: Option<seq<Json>>): Option<Json> {
    match items
    case None => None
    case Some(js) => Some(Array(js))
  }

  function AsObject(obj: Option<map<string, Json>>): Option<Json> {
    match obj
    case None => None
    case Some(m) => Some(Object(m))
  }

  function Cons(j: Option<Json>, rest: Option<seq<Json>>): Option<seq<Json>> {
    if j.Some? && rest.Some? then Some([j.value] + rest.value) else None
  }

  function EncodeList(s: Schema, vs: seq<Value>): Option<seq<Json>>
    requires s.SList? && ListTyped(s, vs)
    decreases s, 0, |vs|
  {
    if vs == [] then Some([]) else Cons(EncodeItem(s.elem, vs[0]), EncodeList(s, vs[1..]))
  }

  function EncodeTuple(es: seq<Schema>, vs: seq<Value>): Option<seq<Json>>
    requires TupleTyped(es, vs)
    decreases es, 0, 0
  {
    if es == [] then Some([]) else Cons(EncodeItem(es[0], vs[0]), EncodeTuple(es[1..], vs[1..]))
  }

  function EncodeMap(s: Schema, es: seq<Entry>): Option<seq<Json>>
    requires s.SMap? && MapTyped(s, es)
    decreases s, 0, |es|
  {
    if es == [] then Some([])
    else Cons(AsObject(PutEntry(s, es[0])), EncodeMap(s, es[1..]))
  }

  /** One entry of a general map: an object with a key and a value member. */
  function PutEntry(s: Schema, e: Entry): Option<map<string, Json>>
    requires s.SMap? && HasType(s.key, e.key) && HasType(s.mapped, e.value)
    decreases s, 0, 0
  {
    match Put(s.key, e.key, KEY_NAME, map[])
    case None => None
    case Some(m) => Put(s.mapped, e.value, VALUE_NAME, m)
  }

  function EncodeStringMap(s: Schema, es: seq<Named>): Option<seq<Json>>
    requires s.SStringMap? && StringMapTyped(s, es)
    decreases s, 0, |es|
  {
    if es == [] then Some([])
    else Cons(AsObject(Put(s.mapped, es[0].value, es[0].name, map[])), EncodeStringMap(s, es[1..]))
  }

  /** `serializeElement` on an object. */
  function Put(s: Schema, v: Value, name: string, obj: map<string, Json>): Option<map<string, Json>>
    requires HasType(s, v)
    decreases s, 1, 2
  {
    match EncodeElement(s, v)
    case None => None
    case Some(None) => Some(obj)
    case Some(Some(j)) => Some(obj[name := j])
  }

  function PutMembers(ms: seq<Member>, fs: seq<Value>, obj: map<string, Json>): Option<map<string, Json>>
    requires MembersTyped(ms, fs)
    decreases ms, 0, 0
  {
    if ms == [] then Some(obj)
    else
      match PutMember(ms[0], fs[0], obj)
      case None => None
      case Some(m) => PutMembers(ms[1..], fs[1..], m)
  }

  function PutMember(m: Member, f: Value, obj: map<string, Json>): Option<map<string, Json>>
    requires MemberTyped(m, f)
    decreases m, 0, 0
  {
    match m
    case Typed(name, s) => Put(s, f, name, obj)
    case Custom(name, s, to, _) => Put(s, to(f), name, obj)
    case Ancestor(base) => PutMembers(base, f.fields, obj)
  }
}
