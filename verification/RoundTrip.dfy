/**
 Decoding what was encoded: for every schema with distinct member and
 enumeration names and every encodable value, the decoder yields the normal form
 of the value, in memory and through JSON text, one array slot per element.
 */
module RoundTrip {

  import opened Decoding
  import opened Results
  import opened Schemas

  // ----- JSON text changes one thing: a non-negative signed number is parsed as unsigned

  function Relabel(j: Json): Json {
    match j
    case Signed(i) => if i >= 0 then Unsigned(i) else j
    case Array(items) => Array(RelabelAll(items))
    case Object(m) => Object(map k | k in m :: Relabel(m[k]))
    case _ => j
  }

  function RelabelAll(js: seq<Json>): (r: seq<Json>)
    ensures |r| == |js| && forall i :: 0 <= i < |js| ==> r[i] == Relabel(js[i])
  {
    if js == [] then [] else [Relabel(js[0])] + RelabelAll(js[1..])
  }

  /** The tree a decoder sees: the encoder's own, or the one parsed from its text. */
  function Seen(text: bool, j: Json): Json {
    if text then Relabel(j) else j
  }

  // ----- schemas whose names are distinct

  ghost function NameSet(ms: seq<Member>): set<string>
    decreases ms, 0
  {
    if ms == [] then {} else MemberNames(ms[0]) + NameSet(ms[1..])
  }

  ghost function MemberNames(m: Member): set<string>
    decreases m, 0
  {
    match m
    case Typed(name, _) => {name}
    case Custom(name, _, _, _) => {name}
    case Ancestor(base) => NameSet(base)
  }

  ghost predicate Distinct(s: Schema)
    decreases s, 0
  {
    match s
    case SEnum(names) => DistinctEnum(names)
    case SList(e) => Distinct(e)
    case STuple(es) => AllDistinct(es)
    case SOptional(e) => Distinct(e)
    case SMap(k, e) => Distinct(k) && Distinct(e)
    case SStringMap(e) => Distinct(e)
    case SStruct(ms) => DistinctMembers(ms)
    case _ => true
  }

  ghost predicate AllDistinct(es: seq<Schema>)
    decreases es, 0
  {
    es == [] || (Distinct(es[0]) && AllDistinct(es[1..]))
  }

  /** Flattened through ancestors, no name occurs twice. */
  ghost predicate DistinctMembers(ms: seq<Member>)
    decreases ms, 0
  {
    ms == [] || (DistinctMember(ms[0]) && MemberNames(ms[0]) !! NameSet(ms[1..]) && DistinctMembers(ms[1..]))
  }

  ghost predicate DistinctMember(m: Member)
    decreases m, 0
  {
    match m
    case Typed(_, s) => Distinct(s)
    case Custom(_, s, _, _) => Distinct(s)
    case Ancestor(base) => DistinctMembers(base)
  }

  // ----- the normal form

  /** An optional that holds nothing at any depth leaves no trace in the tree. */
  predicate IsEmpty(s: Schema, v: Value) {
    s.SOptional? && (v.VNone? || (v.VSome? && IsEmpty(s.inner, v.v)))
  }

  /**
   What survives encoding: an optional around an empty optional becomes empty,
   string-keyed entries with empty optionals disappear, and map entries whose
   keys coincide in normal form are merged.
   */
  function Normal(s: Schema, v: Value): Value
    requires HasType(s, v)
    decreases s, 1, 0
  {
    match s
    case SOptional(e) => if IsEmpty(s, v) then VNone else VSome(Normal(e, v.v))
    case SList(_) => VList(NormalList(s, v.items))
    case STuple(es) => VTuple(NormalTuple(es, v.items))
    case SMap(_, _) => VMap(NormalMap(s, v.entries, []))
    case SStringMap(_) => VStringMap(NormalStringMap(s, v.named, []))
    case SStruct(ms) => VStruct(NormalMembers(ms, v.fields))
    case _ => v
  }

  function NormalList(s: Schema, vs: seq<Value>): seq<Value>
    requires s.SList? && ListTyped(s, vs)
    decreases s, 0, |vs|
  {
    if vs == [] then [] else [Normal(s.elem, vs[0])] + NormalList(s, vs[1..])
  }

  function NormalTuple(es: seq<Schema>, vs: seq<Value>): seq<Value>
    requires TupleTyped(es, vs)
    decreases es, 0, 0
  {
    if es == [] then [] else [Normal(es[0], vs[0])] + NormalTuple(es[1..], vs[1..])
  }

  function NormalMap(s: Schema, es: seq<Entry>, acc: seq<Entry>): seq<Entry>
    requires s.SMap? && MapTyped(s, es)
    decreases s, 0, |es|
  {
    if es == [] then acc
    else NormalMap(s, es[1..], Assign(acc, Normal(s.key, es[0].key), Normal(s.mapped, es[0].value)))
  }

  function NormalStringMap(s: Schema, es: seq<Named>, acc: seq<Named>): seq<Named>
    requires s.SStringMap? && StringMapTyped(s, es)
    decreases s, 0, |es|
  {
    if es == [] then acc
    else if IsEmpty(s.mapped, es[0].value) then NormalStringMap(s, es[1..], acc)
    else NormalStringMap(s, es[1..], AssignNamed(acc, es[0].name, Normal(s.mapped, es[0].value)))
  }

  function NormalMembers(ms: seq<Member>, fs: seq<Value>): (r: seq<Value>)
    requires MembersTyped(ms, fs)
    ensures |r| == |ms|
    decreases ms, 0, 0
  {
    if ms == [] then [] else [NormalMember(ms[0], fs[0])] + NormalMembers(ms[1..], fs[1..])
  }

  function NormalMember(m: Member, f: Value): Value
    requires MemberTyped(m, f)
    decreases m, 0, 0
  {
    match m
    case Typed(_, s) => Normal(s, f)
    case Custom(_, s, to, from) => from(Normal(s, to(f)))
    case Ancestor(base) => VStruct(NormalMembers(base, f.fields))
  }

  // ----- encoded elements

  lemma {:induction false} EmptyIffNoElement(s: Schema, v: Value)
    requires HasType(s, v) && EncodeElement(s, v).Some?
    ensures IsEmpty(s, v) <==> EncodeElement(s, v).value.None?
    ensures EncodeElement(s, v).value.Some? ==> EncodeElement(s, v).value.value != Null
    decreases s
  {
    if s.SOptional? && v.VSome? {
      EmptyIffNoElement(s.inner, v.v);
    }
  }

  lemma {:induction false} EnumRoundTrip(names: seq<(string, int)>, e: int)
    requires DistinctEnum(names) && NameOf(names, e).Some?
    ensures ValueOf(names, NameOf(names, e).value) == Some(e)
  {
    if names[0].1 != e {
      EnumRoundTrip(names[1..], e);
      assert (NameOf(names[1..], e).value, e) in names[1..];
    }
  }

  lemma LeafRoundTrip(s: Schema, v: Value, text: bool)
    requires IsLeaf(s) && Distinct(s) && HasType(s, v) && Encode(s, v).Some?
    ensures IsPrimitive(Seen(text, Encode(s, v).value))
    ensures Extract(s, Seen(text, Encode(s, v).value)) == Success(v)
  {
    if s.SEnum? {
      EnumRoundTrip(s.names, v.e);
    }
  }

  /** The object holds, under `name`, exactly what encoding `v` stores there. */
  ghost predicate Holds(obj: Json, name: string, s: Schema, v: Value, text: bool)
    requires HasType(s, v)
  {
    && obj.Object? && EncodeElement(s, v).Some?
    && match EncodeElement(s, v).value
       case None => name !in obj.members
       case Some(j) => name in obj.members && obj.members[name] == Seen(text, j)
  }

  ghost predicate MembersHeld(ms: seq<Member>, fs: seq<Value>, obj: Json, text: bool)
    requires MembersTyped(ms, fs)
    decreases ms, 0, 0
  {
    ms == [] || (MemberHeld(ms[0], fs[0], obj, text) && MembersHeld(ms[1..], fs[1..], obj, text))
  }

  ghost predicate MemberHeld(m: Member, f: Value, obj: Json, text: bool)
    requires MemberTyped(m, f)
    decreases m, 0, 0
  {
    match m
    case Typed(name, s) => Holds(obj, name, s, f, text)
    case Custom(name, s, to, _) => Holds(obj, name, s, to(f), text)
    case Ancestor(base) => MembersHeld(base, f.fields, obj, text)
  }

  /** Encoding members writes their names and nothing else. */
  lemma {:induction false} PutMembersFrame(ms: seq<Member>, fs: seq<Value>, obj: map<string, Json>)
    requires MembersTyped(ms, fs) && PutMembers(ms, fs, obj).Some?
    ensures var m := PutMembers(ms, fs, obj).value;
            forall n :: n !in NameSet(ms) ==> (n in m <==> n in obj) && (n in obj ==> m[n] == obj[n])
    decreases ms, 0, 0
  {
    if ms == [] {
    } else {
      PutMemberFrame(ms[0], fs[0], obj);
      PutMembersFrame(ms[1..], fs[1..], PutMember(ms[0], fs[0], obj).value);
    }
  }

  lemma {:induction false} PutMemberFrame(m: Member, f: Value, obj: map<string, Json>)
    requires MemberTyped(m, f) && PutMember(m, f, obj).Some?
    ensures var r := PutMember(m, f, obj).value;
            forall n :: n !in MemberNames(m) ==> (n in r <==> n in obj) && (n in obj ==> r[n] == obj[n])
    decreases m, 0, 0
  {
    if m.Ancestor? {
      PutMembersFrame(m.base, f.fields, obj);
    }
  }

  /** What is held does not depend on names outside the members. */
  lemma {:induction false} HeldCarries(ms: seq<Member>, fs: seq<Value>, a: Json, b: Json, text: bool)
    requires MembersTyped(ms, fs) && MembersHeld(ms, fs, a, text) && a.Object? && b.Object?
    requires forall n :: n in NameSet(ms) ==>
      (n in a.members <==> n in b.members) && (n in a.members ==> a.members[n] == b.members[n])
    ensures MembersHeld(ms, fs, b, text)
    decreases ms, 0, 0
  {
    if ms == [] {
    } else {
      MemberCarries(ms[0], fs[0], a, b, text);
      HeldCarries(ms[1..], fs[1..], a, b, text);
    }
  }

  lemma {:induction false} MemberCarries(m: Member, f: Value, a: Json, b: Json, text: bool)
    requires MemberTyped(m, f) && MemberHeld(m, f, a, text) && a.Object? && b.Object?
    requires forall n :: n in MemberNames(m) ==>
      (n in a.members <==> n in b.members) && (n in a.members ==> a.members[n] == b.members[n])
    ensures MemberHeld(m, f, b, text)
    decreases m, 0, 0
  {
    match m
    case Typed(name, _) => assert name in MemberNames(m);
    case Custom(name, _, _, _) => assert name in MemberNames(m);
    case Ancestor(base) => HeldCarries(base, f.fields, a, b, text);
  }

  /** With distinct names the object ends up holding every member. */
  lemma {:induction false} PutMembersHolds(ms: seq<Member>, fs: seq<Value>, obj: map<string, Json>, text: bool)
    requires MembersTyped(ms, fs) && DistinctMembers(ms) && PutMembers(ms, fs, obj).Some?
    requires NameSet(ms) !! obj.Keys
    ensures MembersHeld(ms, fs, Seen(text, Object(PutMembers(ms, fs, obj).value)), text)
    decreases ms, 0, 0
  {
    if ms == [] {
    } else {
      var m := PutMember(ms[0], fs[0], obj).value;
      PutMemberFrame(ms[0], fs[0], obj);
      PutMemberHolds(ms[0], fs[0], obj, text);
      PutMembersHolds(ms[1..], fs[1..], m, text);
      PutMembersFrame(ms[1..], fs[1..], m);
      MemberCarries(ms[0], fs[0], Seen(text, Object(m)), Seen(text, Object(PutMembers(ms, fs, obj).value)), text);
    }
  }

  lemma {:induction false} PutMemberHolds(m: Member, f: Value, obj: map<string, Json>, text: bool)
    requires MemberTyped(m, f) && DistinctMember(m) && PutMember(m, f, obj).Some?
    requires MemberNames(m) !! obj.Keys
    ensures MemberHeld(m, f, Seen(text, Object(PutMember(m, f, obj).value)), text)
    decreases m, 0, 0
  {
    match m
    case Typed(name, s) => assert name in MemberNames(m);
    case Custom(name, s, _, _) => assert name in MemberNames(m);
    case Ancestor(base) => PutMembersHolds(base, f.fields, obj, text);
  }

  // ----- the format, element by element

  lemma {:induction false} ListFormat(s: Schema, vs: seq<Value>, i: nat)
    requires s.SList? && ListTyped(s, vs) && EncodeList(s, vs).Some? && i < |vs|
    ensures var js := EncodeList(s, vs).value;
            |js| == |vs| && HasType(s.elem, vs[i]) && EncodeItem(s.elem, vs[i]) == Some(js[i])
    decreases |vs|
  {
    if i > 0 {
      ListFormat(s, vs[1..], i - 1);
    } else if |vs| > 1 {
      ListFormat(s, vs[1..], 0);
    }
  }

  /** A general map is an array of objects with the key and the value under their names and nothing else. */
  lemma {:induction false} MapFormat(s: Schema, es: seq<Entry>, i: nat)
    requires s.SMap? && MapTyped(s, es) && EncodeMap(s, es).Some? && i < |es|
    ensures var js := EncodeMap(s, es).value;
            && |js| == |es| && HasType(s.key, es[i].key) && HasType(s.mapped, es[i].value)
            && Holds(js[i], "__mapKey__", s.key, es[i].key, false)
            && Holds(js[i], "__mapValue__", s.mapped, es[i].value, false)
            && js[i].members.Keys <= {"__mapKey__", "__mapValue__"}
    decreases |es|
  {
    if i > 0 {
      MapFormat(s, es[1..], i - 1);
    } else {
      EntryHolds(s, es[0], false);
      if |es| > 1 {
        MapFormat(s, es[1..], 0);
      }
    }
  }

  /** A string-keyed map is an array of objects with the key as their only name. */
  lemma {:induction false} StringMapFormat(s: Schema, es: seq<Named>, i: nat)
    requires s.SStringMap? && StringMapTyped(s, es) && EncodeStringMap(s, es).Some? && i < |es|
    ensures var js := EncodeStringMap(s, es).value;
            && |js| == |es| && HasType(s.mapped, es[i].value)
            && Holds(js[i], es[i].name, s.mapped, es[i].value, false) && js[i].members.Keys <= {es[i].name}
    decreases |es|
  {
    if i > 0 {
      StringMapFormat(s, es[1..], i - 1);
    } else if |es| > 1 {
      StringMapFormat(s, es[1..], 0);
    }
  }

  // ----- the round trip

  lemma {:induction false} ElementRoundTrip(s: Schema, v: Value, obj: Json, name: string, text: bool)
    requires HasType(s, v) && Distinct(s) && Holds(obj, name, s, v, text)
    ensures DecodeElement(s, obj, name) == Success(Normal(s, v))
    decreases s, 3, 0
  {
    EmptyIffNoElement(s, v);
    if IsLeaf(s) {
      LeafRoundTrip(s, v, text);
    } else if s.SOptional? {
      if !IsEmpty(s, v) {
        ElementRoundTrip(s.inner, v.v, obj, name, text);
      }
    } else {
      ChildRoundTrip(s, v, text);
    }
  }

  lemma {:induction false} ChildRoundTrip(s: Schema, v: Value, text: bool)
    requires HasType(s, v) && Distinct(s) && !IsLeaf(s) && !s.SOptional? && Encode(s, v).Some?
    ensures DecodeChild(s, Seen(text, Encode(s, v).value)) == Success(Normal(s, v))
    decreases s, 2, 0
  {
    var child := Seen(text, Encode(s, v).value);
    match s
    case SList(_) => ListRoundTrip(s, v.items, child, 0, text);
    case STuple(es) => TupleRoundTrip(es, v.items, child, 0, text);
    case SMap(_, _) => MapRoundTrip(s, v.entries, child, 0, [], text);
    case SStringMap(_) => StringMapRoundTrip(s, v.named, child, 0, [], text);
    case SStruct(ms) =>
      PutMembersHolds(ms, v.fields, map[], text);
      MembersRoundTrip(ms, v.fields, child, text);
  }

  /** Every element decoder consumes exactly the slot its encoder produced. */
  lemma {:induction false} ItemRoundTrip(s: Schema, v: Value, arr: Json, i: nat, text: bool)
    requires HasType(s, v) && Distinct(s) && EncodeItem(s, v).Some?
    requires arr.Array? && i < |arr.items| && arr.items[i] == Seen(text, EncodeItem(s, v).value)
    ensures DecodeItem(s, arr, i) == (Success(Normal(s, v)), i + 1)
    decreases s, 3, 0
  {
    EmptyIffNoElement(s, v);
    if IsLeaf(s) {
      LeafRoundTrip(s, v, text);
    } else if s.SOptional? {
      if !IsEmpty(s, v) {
        ItemRoundTrip(s.inner, v.v, arr, i, text);
      }
    } else {
      ChildRoundTrip(s, v, text);
    }
  }

  /** From slot `i` on the array holds the encodings in `js`. */
  ghost predicate Rest(arr: Json, i: nat, js: seq<Json>, text: bool) {
    arr.Array? && |arr.items| == i + |js| && forall k :: 0 <= k < |js| ==> arr.items[i + k] == Seen(text, js[k])
  }

  lemma RestTail(arr: Json, i: nat, js: seq<Json>, text: bool)
    requires Rest(arr, i, js, text) && js != []
    ensures arr.items[i] == Seen(text, js[0]) && Rest(arr, i + 1, js[1..], text)
  {
    assert arr.items[i + 0] == Seen(text, js[0]);
    forall k | 0 <= k < |js| - 1
      ensures arr.items[i + 1 + k] == Seen(text, js[1..][k])
    {
      assert arr.items[i + (k + 1)] == Seen(text, js[k + 1]);
    }
  }

  lemma {:induction false} ListRoundTrip(s: Schema, vs: seq<Value>, arr: Json, i: nat, text: bool)
    requires s.SList? && ListTyped(s, vs) && Distinct(s) && EncodeList(s, vs).Some?
    requires Rest(arr, i, EncodeList(s, vs).value, text)
    ensures DecodeList(s, arr, i) == Success(NormalList(s, vs))
    decreases s, 0, |vs|
  {
    if vs == [] {
    } else {
      RestTail(arr, i, EncodeList(s, vs).value, text);
      ItemRoundTrip(s.elem, vs[0], arr, i, text);
      assert EncodeList(s, vs).value[1..] == EncodeList(s, vs[1..]).value;
      ListRoundTrip(s, vs[1..], arr, i + 1, text);
    }
  }

  lemma {:induction false} TupleRoundTrip(es: seq<Schema>, vs: seq<Value>, arr: Json, i: nat, text: bool)
    requires TupleTyped(es, vs) && AllDistinct(es) && EncodeTuple(es, vs).Some?
    requires Rest(arr, i, EncodeTuple(es, vs).value, text)
    ensures DecodeTuple(es, arr, i) == Success(NormalTuple(es, vs))
    decreases es, 0, 0
  {
    if es == [] {
    } else {
      RestTail(arr, i, EncodeTuple(es, vs).value, text);
      ItemRoundTrip(es[0], vs[0], arr, i, text);
      assert EncodeTuple(es, vs).value[1..] == EncodeTuple(es[1..], vs[1..]).value;
      TupleRoundTrip(es[1..], vs[1..], arr, i + 1, text);
    }
  }

  lemma {:induction false} MapRoundTrip(s: Schema, es: seq<Entry>, arr: Json, i: nat, acc: seq<Entry>, text: bool)
    requires s.SMap? && MapTyped(s, es) && Distinct(s) && EncodeMap(s, es).Some?
    requires Rest(arr, i, EncodeMap(s, es).value, text)
    ensures DecodeMap(s, arr, i, acc) == Success(NormalMap(s, es, acc))
    decreases s, 0, |es|
  {
    if es == [] {
    } else {
      EncodeMapSplits(s, es);
      RestTail(arr, i, EncodeMap(s, es).value, text);
      EntryHolds(s, es[0], text);
      ElementRoundTrip(s.key, es[0].key, arr.items[i], KEY_NAME, text);
      ElementRoundTrip(s.mapped, es[0].value, arr.items[i], VALUE_NAME, text);
      MapRoundTrip(s, es[1..], arr, i + 1, Assign(acc, Normal(s.key, es[0].key), Normal(s.mapped, es[0].value)), text);
    }
  }

  lemma EncodeMapSplits(s: Schema, es: seq<Entry>)
    requires s.SMap? && MapTyped(s, es) && EncodeMap(s, es).Some? && es != []
    ensures PutEntry(s, es[0]).Some? && EncodeMap(s, es[1..]).Some?
    ensures var js := EncodeMap(s, es).value;
            js != [] && js[0] == Object(PutEntry(s, es[0]).value) && js[1..] == EncodeMap(s, es[1..]).value
  {
  }

  /** The object of a map entry holds the key and the value. */
  lemma EntryHolds(s: Schema, e: Entry, text: bool)
    requires s.SMap? && HasType(s.key, e.key) && HasType(s.mapped, e.value) && PutEntry(s, e).Some?
    ensures var entry := Seen(text, Object(PutEntry(s, e).value));
            Holds(entry, KEY_NAME, s.key, e.key, text) && Holds(entry, VALUE_NAME, s.mapped, e.value, text)
  {
    assert |KEY_NAME| != |VALUE_NAME|;
    var m := Put(s.key, e.key, KEY_NAME, map[]).value;
    assert Holds(Object(m), KEY_NAME, s.key, e.key, false);
    var m' := PutEntry(s, e).value;
    assert KEY_NAME in m' <==> KEY_NAME in m;
  }

  lemma {:induction false} StringMapRoundTrip(s: Schema, es: seq<Named>, arr: Json, i: nat, acc: seq<Named>, text: bool)
    requires s.SStringMap? && StringMapTyped(s, es) && Distinct(s) && EncodeStringMap(s, es).Some?
    requires Rest(arr, i, EncodeStringMap(s, es).value, text)
    ensures DecodeStringMap(s, arr, i, acc) == Success(NormalStringMap(s, es, acc))
    decreases s, 0, |es|
  {
    if es == [] {
    } else {
      EncodeStringMapSplits(s, es);
      RestTail(arr, i, EncodeStringMap(s, es).value, text);
      NamedRoundTrip(s.mapped, es[0], acc, text);
      DecodeStringMapStep(s, arr, i, acc, NamedResult(s.mapped, es[0], acc));
      StringMapRoundTrip(s, es[1..], arr, i + 1, NamedResult(s.mapped, es[0], acc), text);
    }
  }

  lemma EncodeStringMapSplits(s: Schema, es: seq<Named>)
    requires s.SStringMap? && StringMapTyped(s, es) && EncodeStringMap(s, es).Some? && es != []
    ensures EncodeElement(s.mapped, es[0].value).Some? && EncodeStringMap(s, es[1..]).Some?
    ensures var js := EncodeStringMap(s, es).value;
            js != [] && js[0] == Object(Put(s.mapped, es[0].value, es[0].name, map[]).value)
              && js[1..] == EncodeStringMap(s, es[1..]).value
  {
  }

  lemma DecodeStringMapStep(s: Schema, arr: Json, i: nat, acc: seq<Named>, acc': seq<Named>)
    requires s.SStringMap? && arr.Array? && i < |arr.items|
    requires AvailableNames(arr.items[i]).Success?
    requires DecodeNames(s.mapped, arr.items[i], AvailableNames(arr.items[i]).value, acc) == Success(acc')
    ensures DecodeStringMap(s, arr, i, acc) == DecodeStringMap(s, arr, i + 1, acc')
  {
  }

  /** What reading back one string-keyed entry adds to the map. */
  ghost function NamedResult(s: Schema, e: Named, acc: seq<Named>): seq<Named>
    requires HasType(s, e.value)
  {
    if IsEmpty(s, e.value) then acc else AssignNamed(acc, e.name, Normal(s, e.value))
  }

  lemma {:induction false} NamedRoundTrip(s: Schema, e: Named, acc: seq<Named>, text: bool)
    requires HasType(s, e.value) && Distinct(s) && EncodeElement(s, e.value).Some?
    ensures var entry := Seen(text, Object(Put(s, e.value, e.name, map[]).value));
            && AvailableNames(entry).Success?
            && DecodeNames(s, entry, AvailableNames(entry).value, acc) == Success(NamedResult(s, e, acc))
    decreases s, 4, 0
  {
    var entry := Seen(text, Object(Put(s, e.value, e.name, map[]).value));
    EmptyIffNoElement(s, e.value);
    EntryNames(s, e.value, e.name, text);
    if !IsEmpty(s, e.value) {
      ElementRoundTrip(s, e.value, entry, e.name, text);
      OneNameDecoded(s, entry, e.name, acc, Normal(s, e.value));
    }
  }

  lemma OneNameDecoded(s: Schema, obj: Json, name: string, acc: seq<Named>, v: Value)
    requires DecodeElement(s, obj, name) == Success(v)
    ensures DecodeNames(s, obj, [name], acc) == Success(AssignNamed(acc, name, v))
  {
    assert [name][1..] == [];
  }

  /** The object of a string-keyed entry has the one name, or none. */
  lemma EntryNames(s: Schema, v: Value, name: string, text: bool)
    requires HasType(s, v) && EncodeElement(s, v).Some?
    ensures var entry := Seen(text, Object(Put(s, v, name, map[]).value));
            AvailableNames(entry) == Success(if IsEmpty(s, v) then [] else [name])
  {
    EmptyIffNoElement(s, v);
    var keys := Seen(text, Object(Put(s, v, name, map[]).value)).members.Keys;
    if IsEmpty(s, v) {
      assert keys == {};
    } else {
      assert keys == {name};
      OneName(name);
    }
  }

  lemma OneName(name: string)
    ensures SortedNames({name}) == [name]
  {
    var s := SortedNames({name});
    assert |s| == 1 && s[0] in s;
  }

  lemma {:induction false} MembersRoundTrip(ms: seq<Member>, fs: seq<Value>, obj: Json, text: bool)
    requires MembersTyped(ms, fs) && DistinctMembers(ms) && MembersHeld(ms, fs, obj, text)
    ensures DecodeMembers(ms, obj) == Success(NormalMembers(ms, fs))
    decreases ms, 0, 0
  {
    if ms == [] {
    } else {
      MemberRoundTrip(ms[0], fs[0], obj, text);
      MembersRoundTrip(ms[1..], fs[1..], obj, text);
    }
  }

  lemma {:induction false} MemberRoundTrip(m: Member, f: Value, obj: Json, text: bool)
    requires MemberTyped(m, f) && DistinctMember(m) && MemberHeld(m, f, obj, text)
    ensures DecodeMember(m, obj) == Success(NormalMember(m, f))
    decreases m, 0, 0
  {
    match m
    case Typed(name, s) => ElementRoundTrip(s, f, obj, name, text);
    case Custom(name, s, to, _) => ElementRoundTrip(s, to(f), obj, name, text);
    case Ancestor(base) => MembersRoundTrip(base, f.fields, obj, text);
  }

  // ----- when nothing is lost

  /**
   No optional directly holds an empty optional, no string-keyed entry is an
   empty optional, keys are distinct, and each `defineAs` conversion is undone
   by its inverse.
   */
  ghost predicate Plain(s: Schema, v: Value)
    requires HasType(s, v)
    decreases s, 1, 0
  {
    match s
    case SOptional(e) => v.VSome? ==> !(e.SOptional? && v.v.VNone?) && Plain(e, v.v)
    case SList(_) => PlainList(s, v.items)
    case STuple(es) => PlainTuple(es, v.items)
    case SMap(_, _) => PlainMap(s, v.entries) && forall i, j :: 0 <= i < j < |v.entries| ==>
      v.entries[i].key != v.entries[j].key
    case SStringMap(_) =>
      PlainStringMap(s, v.named) && forall i, j :: 0 <= i < j < |v.named| ==> v.named[i].name != v.named[j].name
    case SStruct(ms) => PlainMembers(ms, v.fields)
    case _ => true
  }

  ghost predicate PlainList(s: Schema, vs: seq<Value>)
    requires s.SList? && ListTyped(s, vs)
    decreases s, 0, |vs|
  {
    vs == [] || (Plain(s.elem, vs[0]) && PlainList(s, vs[1..]))
  }

  ghost predicate PlainTuple(es: seq<Schema>, vs: seq<Value>)
    requires TupleTyped(es, vs)
    decreases es, 0, 0
  {
    es == [] || (Plain(es[0], vs[0]) && PlainTuple(es[1..], vs[1..]))
  }

  ghost predicate PlainMap(s: Schema, es: seq<Entry>)
    requires s.SMap? && MapTyped(s, es)
    decreases s, 0, |es|
  {
    es == [] || (Plain(s.key, es[0].key) && Plain(s.mapped, es[0].value) && PlainMap(s, es[1..]))
  }

  ghost predicate PlainStringMap(s: Schema, es: seq<Named>)
    requires s.SStringMap? && StringMapTyped(s, es)
    decreases s, 0, |es|
  {
    es == [] || (!(s.mapped.SOptional? && es[0].value.VNone?) && Plain(s.mapped, es[0].value)
      && PlainStringMap(s, es[1..]))
  }

  ghost predicate PlainMembers(ms: seq<Member>, fs: seq<Value>)
    requires MembersTyped(ms, fs)
    decreases ms, 0, 0
  {
    ms == [] || (PlainMember(ms[0], fs[0]) && PlainMembers(ms[1..], fs[1..]))
  }

  ghost predicate PlainMember(m: Member, f: Value)
    requires MemberTyped(m, f)
    decreases m, 0, 0
  {
    match m
    case Typed(_, s) => Plain(s, f)
    case Custom(_, s, to, from) => Plain(s, to(f)) && from(to(f)) == f
    case Ancestor(base) => PlainMembers(base, f.fields)
  }

  lemma {:induction false} PlainIsNotEmpty(s: Schema, v: Value)
    requires HasType(s, v) && Plain(s, v) && IsEmpty(s, v)
    ensures v.VNone?
    decreases s
  {
    if v.VSome? {
      PlainIsNotEmpty(s.inner, v.v);
    }
  }

  lemma {:induction false} AssignAppends(es: seq<Entry>, k: Value, v: Value)
    requires forall i :: 0 <= i < |es| ==> es[i].key != k
    ensures Assign(es, k, v) == es + [Entry(k, v)]
  {
    if es == [] {
    } else {
      AssignAppends(es[1..], k, v);
      assert es == [es[0]] + es[1..];
    }
  }

  lemma {:induction false} AssignNamedAppends(es: seq<Named>, k: string, v: Value)
    requires forall i :: 0 <= i < |es| ==> es[i].name != k
    ensures AssignNamed(es, k, v) == es + [Named(k, v)]
  {
    if es == [] {
    } else {
      AssignNamedAppends(es[1..], k, v);
      assert es == [es[0]] + es[1..];
    }
  }

  /** Plain values are their own normal form. */
  lemma {:induction false} PlainIsNormal(s: Schema, v: Value)
    requires HasType(s, v) && Plain(s, v)
    ensures Normal(s, v) == v
    decreases s, 1, 0
  {
    match s
    case SOptional(e) =>
      if v.VSome? {
        PlainIsNormal(e, v.v);
        if IsEmpty(s, v) {
          PlainIsNotEmpty(s, v);
        }
      }
    case SList(_) => PlainListIsNormal(s, v.items);
    case STuple(es) => PlainTupleIsNormal(es, v.items);
    case SMap(_, _) => PlainMapIsNormal(s, v.entries, []);
    case SStringMap(_) => PlainStringMapIsNormal(s, v.named, []);
    case SStruct(ms) => PlainMembersAreNormal(ms, v.fields);
    case _ =>
  }

  lemma {:induction false} PlainListIsNormal(s: Schema, vs: seq<Value>)
    requires s.SList? && ListTyped(s, vs) && PlainList(s, vs)
    ensures NormalList(s, vs) == vs
    decreases s, 0, |vs|
  {
    if vs == [] {
    } else {
      PlainIsNormal(s.elem, vs[0]);
      PlainListIsNormal(s, vs[1..]);
    }
  }

  lemma {:induction false} PlainTupleIsNormal(es: seq<Schema>, vs: seq<Value>)
    requires TupleTyped(es, vs) && PlainTuple(es, vs)
    ensures NormalTuple(es, vs) == vs
    decreases es, 0, 0
  {
    if es == [] {
    } else {
      PlainIsNormal(es[0], vs[0]);
      PlainTupleIsNormal(es[1..], vs[1..]);
    }
  }

  lemma {:induction false} PlainMapIsNormal(s: Schema, es: seq<Entry>, acc: seq<Entry>)
    requires s.SMap? && MapTyped(s, es) && PlainMap(s, es)
    requires forall i, j :: 0 <= i < j < |acc + es| ==> (acc + es)[i].key != (acc + es)[j].key
    ensures NormalMap(s, es, acc) == acc + es
    decreases s, 0, |es|
  {
    if es == [] {
    } else {
      PlainIsNormal(s.key, es[0].key);
      PlainIsNormal(s.mapped, es[0].value);
      assert forall i :: 0 <= i < |acc| ==> acc[i] == (acc + es)[i] && es[0] == (acc + es)[|acc|];
      AssignAppends(acc, es[0].key, es[0].value);
      assert acc + [es[0]] + es[1..] == acc + es;
      PlainMapIsNormal(s, es[1..], acc + [es[0]]);
    }
  }

  lemma {:induction false} PlainStringMapIsNormal(s: Schema, es: seq<Named>, acc: seq<Named>)
    requires s.SStringMap? && StringMapTyped(s, es) && PlainStringMap(s, es)
    requires forall i, j :: 0 <= i < j < |acc + es| ==> (acc + es)[i].name != (acc + es)[j].name
    ensures NormalStringMap(s, es, acc) == acc + es
    decreases s, 0, |es|
  {
    if es == [] {
    } else {
      PlainIsNormal(s.mapped, es[0].value);
      if IsEmpty(s.mapped, es[0].value) {
        PlainIsNotEmpty(s.mapped, es[0].value);
      }
      assert forall i :: 0 <= i < |acc| ==> acc[i] == (acc + es)[i] && es[0] == (acc + es)[|acc|];
      AssignNamedAppends(acc, es[0].name, es[0].value);
      assert acc + [es[0]] + es[1..] == acc + es;
      PlainStringMapIsNormal(s, es[1..], acc + [es[0]]);
    }
  }

  lemma {:induction false} PlainMembersAreNormal(ms: seq<Member>, fs: seq<Value>)
    requires MembersTyped(ms, fs) && PlainMembers(ms, fs)
    ensures NormalMembers(ms, fs) == fs
    decreases ms, 0, 0
  {
    if ms == [] {
    } else {
      PlainMemberIsNormal(ms[0], fs[0]);
      PlainMembersAreNormal(ms[1..], fs[1..]);
    }
  }

  lemma {:induction false} PlainMemberIsNormal(m: Member, f: Value)
    requires MemberTyped(m, f) && PlainMember(m, f)
    ensures NormalMember(m, f) == f
    decreases m, 0, 0
  {
    match m
    case Typed(_, s) => PlainIsNormal(s, f);
    case Custom(_, s, to, _) => PlainIsNormal(s, to(f));
    case Ancestor(base) => PlainMembersAreNormal(base, f.fields);
  }
}
