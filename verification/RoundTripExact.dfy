/**
 Exactly when nothing is lost, and the round trip from the root serializers.
 */
module RoundTripExact {

  import opened Decoding
  import opened Results
  import opened RoundTrip
  import opened Schemas

  // ----- only plain values are their own normal form

  /** No `defineAs` member anywhere; its conversions could undo what encoding loses. */
  ghost predicate NoConversions(s: Schema)
    decreases s, 0
  {
    match s
    case SList(e) => NoConversions(e)
    case STuple(es) => NoneConverts(es)
    case SOptional(e) => NoConversions(e)
    case SMap(k, e) => NoConversions(k) && NoConversions(e)
    case SStringMap(e) => NoConversions(e)
    case SStruct(ms) => MembersDoNotConvert(ms)
    case _ => true
  }

  ghost predicate NoneConverts(es: seq<Schema>)
    decreases es, 0
  {
    es == [] || (NoConversions(es[0]) && NoneConverts(es[1..]))
  }

  ghost predicate MembersDoNotConvert(ms: seq<Member>)
    decreases ms, 0
  {
    ms == [] || (MemberDoesNotConvert(ms[0]) && MembersDoNotConvert(ms[1..]))
  }

  ghost predicate MemberDoesNotConvert(m: Member)
    decreases m, 0
  {
    match m
    case Typed(_, s) => NoConversions(s)
    case Custom(_, _, _, _) => false
    case Ancestor(base) => MembersDoNotConvert(base)
  }

  lemma {:induction false} NormalIsPlain(s: Schema, v: Value)
    requires HasType(s, v) && NoConversions(s) && Normal(s, v) == v
    ensures Plain(s, v)
    decreases s, 1, 0
  {
    match s
    case SOptional(e) => if v.VSome? { NormalIsPlain(e, v.v); }
    case SList(_) => NormalListIsPlain(s, v.items);
    case STuple(es) => NormalTupleIsPlain(es, v.items);
    case SMap(_, _) =>
      assert [] + v.entries == v.entries;
      NormalMapIsPlain(s, v.entries, []);
    case SStringMap(_) =>
      assert [] + v.named == v.named;
      NormalStringMapIsPlain(s, v.named, []);
    case SStruct(ms) => NormalMembersArePlain(ms, v.fields);
    case _ =>
  }

  lemma {:induction false} NormalListIsPlain(s: Schema, vs: seq<Value>)
    requires s.SList? && ListTyped(s, vs) && NoConversions(s) && NormalList(s, vs) == vs
    ensures PlainList(s, vs)
    decreases s, 0, |vs|
  {
    if vs == [] {
    } else {
      var n := NormalList(s, vs);
      assert n[0] == Normal(s.elem, vs[0]) && n[1..] == NormalList(s, vs[1..]);
      NormalIsPlain(s.elem, vs[0]);
      NormalListIsPlain(s, vs[1..]);
    }
  }

  lemma {:induction false} NormalTupleIsPlain(es: seq<Schema>, vs: seq<Value>)
    requires TupleTyped(es, vs) && NoneConverts(es) && NormalTuple(es, vs) == vs
    ensures PlainTuple(es, vs)
    decreases es, 0, 0
  {
    if es == [] {
    } else {
      var n := NormalTuple(es, vs);
      assert n[0] == Normal(es[0], vs[0]) && n[1..] == NormalTuple(es[1..], vs[1..]);
      NormalIsPlain(es[0], vs[0]);
      NormalTupleIsPlain(es[1..], vs[1..]);
    }
  }

  lemma {:induction false} NormalMembersArePlain(ms: seq<Member>, fs: seq<Value>)
    requires MembersTyped(ms, fs) && MembersDoNotConvert(ms) && NormalMembers(ms, fs) == fs
    ensures PlainMembers(ms, fs)
    decreases ms, 0, 0
  {
    if ms == [] {
    } else {
      var n := NormalMembers(ms, fs);
      assert n[0] == NormalMember(ms[0], fs[0]) && n[1..] == NormalMembers(ms[1..], fs[1..]);
      NormalMembersArePlain(ms[1..], fs[1..]);
      match ms[0]
      case Typed(_, s) => NormalIsPlain(s, fs[0]);
      case Ancestor(base) => NormalMembersArePlain(base, fs[0].fields);
    }
  }

  lemma {:induction false} AssignGrows(es: seq<Entry>, k: Value, v: Value)
    ensures |es| <= |Assign(es, k, v)| <= |es| + 1
    ensures |Assign(es, k, v)| == |es| + 1 ==> Assign(es, k, v) == es + [Entry(k, v)] && forall i :: 0 <= i < |es| ==>
      es[i].key != k
  {
    if es == [] {
    } else {
      AssignGrows(es[1..], k, v);
      assert es == [es[0]] + es[1..];
    }
  }

  lemma {:induction false} AssignNamedGrows(es: seq<Named>, k: string, v: Value)
    ensures |es| <= |AssignNamed(es, k, v)| <= |es| + 1
    ensures |AssignNamed(es, k, v)| == |es| + 1 ==>
      AssignNamed(es, k, v) == es + [Named(k, v)] && forall i :: 0 <= i < |es| ==> es[i].name != k
  {
    if es == [] {
    } else {
      AssignNamedGrows(es[1..], k, v);
      assert es == [es[0]] + es[1..];
    }
  }

  /** Merged entries cannot be made up for: a full-length result only appends. */
  lemma {:induction false} NormalMapGrows(s: Schema, es: seq<Entry>, acc: seq<Entry>)
    requires s.SMap? && MapTyped(s, es)
    ensures |NormalMap(s, es, acc)| <= |acc| + |es|
    ensures |NormalMap(s, es, acc)| == |acc| + |es| ==> acc <= NormalMap(s, es, acc)
    decreases |es|
  {
    if es == [] {
    } else {
      var k, v := Normal(s.key, es[0].key), Normal(s.mapped, es[0].value);
      AssignGrows(acc, k, v);
      NormalMapGrows(s, es[1..], Assign(acc, k, v));
    }
  }

  lemma {:induction false} NormalStringMapGrows(s: Schema, es: seq<Named>, acc: seq<Named>)
    requires s.SStringMap? && StringMapTyped(s, es)
    ensures |NormalStringMap(s, es, acc)| <= |acc| + |es|
    ensures |NormalStringMap(s, es, acc)| == |acc| + |es| ==> acc <= NormalStringMap(s, es, acc)
    decreases |es|
  {
    if es == [] {
    } else {
      if IsEmpty(s.mapped, es[0].value) {
        NormalStringMapGrows(s, es[1..], acc);
      } else {
        var v := Normal(s.mapped, es[0].value);
        AssignNamedGrows(acc, es[0].name, v);
        NormalStringMapGrows(s, es[1..], AssignNamed(acc, es[0].name, v));
      }
    }
  }

  ghost predicate DistinctKeys(es: seq<Entry>) {
    forall i, j :: 0 <= i < j < |es| ==> es[i].key != es[j].key
  }

  ghost predicate DistinctNames(es: seq<Named>) {
    forall i, j :: 0 <= i < j < |es| ==> es[i].name != es[j].name
  }

  lemma {:induction false} NormalMapIsPlain(s: Schema, es: seq<Entry>, acc: seq<Entry>)
    requires s.SMap? && MapTyped(s, es) && NoConversions(s)
    requires NormalMap(s, es, acc) == acc + es && DistinctKeys(acc)
    ensures PlainMap(s, es) && DistinctKeys(acc + es)
    decreases s, 0, |es|
  {
    if es == [] {
      assert acc + es == acc;
    } else {
      var e := Entry(Normal(s.key, es[0].key), Normal(s.mapped, es[0].value));
      var acc' := Assign(acc, e.key, e.value);
      AssignGrows(acc, e.key, e.value);
      NormalMapGrows(s, es[1..], acc');
      assert acc' == acc + [e];
      assert e == NormalMap(s, es, acc)[|acc|] == es[0];
      assert acc' + es[1..] == acc + es;
      NormalIsPlain(s.key, es[0].key);
      NormalIsPlain(s.mapped, es[0].value);
      NormalMapIsPlain(s, es[1..], acc');
    }
  }

  lemma {:induction false} NormalStringMapIsPlain(s: Schema, es: seq<Named>, acc: seq<Named>)
    requires s.SStringMap? && StringMapTyped(s, es) && NoConversions(s)
    requires NormalStringMap(s, es, acc) == acc + es && DistinctNames(acc)
    ensures PlainStringMap(s, es) && DistinctNames(acc + es)
    decreases s, 0, |es|
  {
    if es == [] {
      assert acc + es == acc;
    } else {
      NormalStringMapGrows(s, es[1..], acc);
      var e := Named(es[0].name, Normal(s.mapped, es[0].value));
      var acc' := AssignNamed(acc, e.name, e.value);
      AssignNamedGrows(acc, e.name, e.value);
      NormalStringMapGrows(s, es[1..], acc');
      assert acc' == acc + [e];
      assert e == NormalStringMap(s, es, acc)[|acc|] == es[0];
      assert acc' + es[1..] == acc + es;
      NormalIsPlain(s.mapped, es[0].value);
      NormalStringMapIsPlain(s, es[1..], acc');
    }
  }

  /**
   An array item decodes to the value that was encoded if and only if the value
   is plain; in every case the cursor moves by one slot.
   */
  lemma RoundTripIffPlain(s: Schema, v: Value, arr: Json, i: nat, text: bool)
    requires HasType(s, v) && Distinct(s) && EncodeItem(s, v).Some?
    requires arr.Array? && i < |arr.items| && arr.items[i] == Seen(text, EncodeItem(s, v).value)
    ensures DecodeItem(s, arr, i).1 == i + 1
    ensures Plain(s, v) ==> DecodeItem(s, arr, i).0 == Success(v)
    ensures NoConversions(s) ==> (DecodeItem(s, arr, i).0 == Success(v) <==> Plain(s, v))
  {
    ItemRoundTrip(s, v, arr, i, text);
    if Plain(s, v) {
      PlainIsNormal(s, v);
    } else if NoConversions(s) && Normal(s, v) == v {
      NormalIsPlain(s, v);
    }
  }

  // ----- root serializers

  /** A struct written by the root struct serializer is read back by the root struct deserializer. */
  lemma RootStructRoundTrip(ms: seq<Member>, fs: seq<Value>, text: bool)
    requires MembersTyped(ms, fs) && DistinctMembers(ms) && PutMembers(ms, fs, map[]).Some?
    ensures var root := Seen(text, Object(PutMembers(ms, fs, map[]).value));
            DecodeMembers(ms, root) == Success(NormalMembers(ms, fs))
    ensures PlainMembers(ms, fs) ==> NormalMembers(ms, fs) == fs
    ensures MembersDoNotConvert(ms) && NormalMembers(ms, fs) == fs ==> PlainMembers(ms, fs)
  {
    PutMembersHolds(ms, fs, map[], text);
    MembersRoundTrip(ms, fs, Seen(text, Object(PutMembers(ms, fs, map[]).value)), text);
    if PlainMembers(ms, fs) {
      PlainMembersAreNormal(ms, fs);
    }
    if MembersDoNotConvert(ms) && NormalMembers(ms, fs) == fs {
      NormalMembersArePlain(ms, fs);
    }
  }

  predicate IsArrayLike(s: Schema) {
    s.SList? || s.STuple? || s.SMap? || s.SStringMap?
  }

  /** The root array serializer hands out the root itself for a nested array. */
  function EncodeRoot(s: Schema, v: Value): Option<Json>
    requires HasType(s, v)
    decreases s
  {
    if s.SOptional? then
      if v.VNone? then Some(Array([Null])) else EncodeRoot(s.inner, v.v)
    else if IsArrayLike(s) then Encode(s, v)
    else
      match Encode(s, v)
      case None => None
      case Some(j) => Some(Array([j]))
  }

  /** The root array deserializer likewise, without moving its own cursor. */
  function DecodeRoot(s: Schema, root: Json, i: nat): (r: (Result<Value, Failed>, nat))
    requires i <= Size(root)
    ensures i <= r.1 <= Size(root)
    decreases s
  {
    if IsArrayLike(s) then (DecodeChild(s, root), i)
    else if s.SOptional? then
      match NextExists(root, i)
      case Failure(e) => (Failure(e), i)
      case Success(exists') =>
        if exists' then
          var (r, i') := DecodeRoot(s.inner, root, i);
          if r == Failure(Throws) then SkipValue(root, i') else (OrNone(r), i')
        else SkipValue(root, i)
    else DecodeItem(s, root, i)
  }

  /** The root tree is an array that is empty or starts with null. */
  ghost predicate StartsBlank(root: Json) {
    root.Array? && (root.items == [] || root.items[0] == Null)
  }

  /** At the root an optional array is also lost when it is empty or its first item is. */
  ghost function NormalRoot(s: Schema, v: Value): Value
    requires HasType(s, v) && EncodeRoot(s, v).Some?
    decreases s
  {
    if !s.SOptional? then Normal(s, v)
    else if v.VNone? || StartsBlank(EncodeRoot(s, v).value) then VNone
    else VSome(NormalRoot(s.inner, v.v))
  }

  /** A plain value, and a filled optional writes an array that neither is empty nor starts with null. */
  ghost predicate RootPlain(s: Schema, v: Value)
    requires HasType(s, v) && EncodeRoot(s, v).Some?
  {
    Plain(s, v) && (s.SOptional? && v.VSome? ==> !StartsBlank(EncodeRoot(s, v).value))
  }

  lemma {:induction false} RootPlainIsNormal(s: Schema, v: Value)
    requires HasType(s, v) && EncodeRoot(s, v).Some? && RootPlain(s, v)
    ensures NormalRoot(s, v) == v
    decreases s
  {
    if !s.SOptional? {
      PlainIsNormal(s, v);
    } else if v.VSome? {
      RootPlainIsNormal(s.inner, v.v);
    }
  }

  lemma {:induction false} RootNormalIsPlain(s: Schema, v: Value)
    requires HasType(s, v) && EncodeRoot(s, v).Some? && NoConversions(s) && NormalRoot(s, v) == v
    ensures RootPlain(s, v)
    decreases s
  {
    if !s.SOptional? {
      NormalIsPlain(s, v);
    } else if v.VSome? {
      RootNormalIsPlain(s.inner, v.v);
    }
  }

  /**
   A value written by the root array serializer is read back in normal form,
   which without conversions is the value itself if and only if it is plain and
   no filled optional writes an array that looks empty.
   */
  lemma RootArrayRoundTrip(s: Schema, v: Value, text: bool)
    requires HasType(s, v) && Distinct(s) && EncodeRoot(s, v).Some?
    ensures var r := DecodeRoot(s, Seen(text, EncodeRoot(s, v).value), 0).0;
            && r == Success(NormalRoot(s, v))
            && (RootPlain(s, v) ==> r == Success(v))
            && (NoConversions(s) ==> (r == Success(v) <==> RootPlain(s, v)))
  {
    RootIsNormal(s, v, text);
    if RootPlain(s, v) {
      RootPlainIsNormal(s, v);
    } else if NoConversions(s) && NormalRoot(s, v) == v {
      RootNormalIsPlain(s, v);
    }
  }

  lemma {:induction false} RootIsNormal(s: Schema, v: Value, text: bool)
    requires HasType(s, v) && Distinct(s) && EncodeRoot(s, v).Some?
    ensures DecodeRoot(s, Seen(text, EncodeRoot(s, v).value), 0).0 == Success(NormalRoot(s, v))
    decreases s
  {
    var root := Seen(text, EncodeRoot(s, v).value);
    RootIsArray(s, v);
    if IsArrayLike(s) {
      ChildRoundTrip(s, v, text);
    } else if s.SOptional? {
      assert NextExists(root, 0) == Success(!StartsBlank(EncodeRoot(s, v).value));
      if !v.VNone? && !StartsBlank(EncodeRoot(s, v).value) {
        RootIsNormal(s.inner, v.v, text);
      }
    } else {
      ItemRoundTrip(s, v, root, 0, text);
    }
  }

  lemma {:induction false} RootIsArray(s: Schema, v: Value)
    requires HasType(s, v) && EncodeRoot(s, v).Some?
    ensures EncodeRoot(s, v).value.Array?
    decreases s
  {
    if s.SOptional? && v.VSome? {
      RootIsArray(s.inner, v.v);
    }
  }

  // ----- what the library does not check or preserve

  /**
   The last thing a struct stores under a name, through ancestors; None when no
   member of that name stores anything.
   */
  function LastWritten(ms: seq<Member>, fs: seq<Value>, n: string): Option<Json>
    requires MembersTyped(ms, fs)
    decreases ms, 0
  {
    if ms == [] then None
    else
      var later := LastWritten(ms[1..], fs[1..], n);
      if later.Some? then later else WrittenBy(ms[0], fs[0], n)
  }

  function WrittenBy(m: Member, f: Value, n: string): Option<Json>
    requires MemberTyped(m, f)
    decreases m, 0
  {
    match m
    case Typed(name, s) => if name == n then Stored(s, f) else None
    case Custom(name, s, to, _) => if name == n then Stored(s, to(f)) else None
    case Ancestor(base) => LastWritten(base, f.fields, n)
  }

  function Stored(s: Schema, v: Value): Option<Json>
    requires HasType(s, v)
  {
    match EncodeElement(s, v)
    case None => None
    case Some(j) => j
  }

  lemma {:induction false} PutMembersStoresLast(ms: seq<Member>, fs: seq<Value>, obj: map<string, Json>, n: string)
    requires MembersTyped(ms, fs) && PutMembers(ms, fs, obj).Some?
    ensures var m, last := PutMembers(ms, fs, obj).value, LastWritten(ms, fs, n);
            if last.Some? then n in m && m[n] == last.value else (n in m <==> n in obj) && (n in m ==> m[n] == obj[n])
    decreases ms, 0
  {
    if ms == [] {
    } else {
      PutMemberStoresLast(ms[0], fs[0], obj, n);
      PutMembersStoresLast(ms[1..], fs[1..], PutMember(ms[0], fs[0], obj).value, n);
    }
  }

  lemma {:induction false} PutMemberStoresLast(m: Member, f: Value, obj: map<string, Json>, n: string)
    requires MemberTyped(m, f) && PutMember(m, f, obj).Some?
    ensures var r, last := PutMember(m, f, obj).value, WrittenBy(m, f, n);
            if last.Some? then n in r && r[n] == last.value else (n in r <==> n in obj) && (n in r ==> r[n] == obj[n])
    decreases m, 0
  {
    if m.Ancestor? {
      PutMembersStoresLast(m.base, f.fields, obj, n);
    }
  }

  /** A member is decoded from what is stored under its name and nothing else. */
  lemma {:induction false} DecodeIsLocal(s: Schema, a: map<string, Json>, b: map<string, Json>, name: string)
    requires name in a <==> name in b
    requires name in a ==> a[name] == b[name]
    ensures DecodeElement(s, Object(a), name) == DecodeElement(s, Object(b), name)
    decreases s
  {
    if s.SOptional? {
      DecodeIsLocal(s.inner, a, b, name);
    }
  }

  /** Every member of a name, whatever its schema and wherever it is declared, decodes what the last of them stored. */
  lemma LastWriterIsRead(ms: seq<Member>, fs: seq<Value>, n: string, s: Schema, text: bool)
    requires MembersTyped(ms, fs) && PutMembers(ms, fs, map[]).Some?
    ensures var last := LastWritten(ms, fs, n);
            var alone: map<string, Json> := if last.Some? then map[n := last.value] else map[];
            DecodeElement(s, Seen(text, Object(PutMembers(ms, fs, map[]).value)), n)
              == DecodeElement(s, Seen(text, Object(alone)), n)
  {
    var m, last := PutMembers(ms, fs, map[]).value, LastWritten(ms, fs, n);
    var alone: map<string, Json> := if last.Some? then map[n := last.value] else map[];
    PutMembersStoresLast(ms, fs, map[], n);
    DecodeIsLocal(s, Seen(text, Object(m)).members, Seen(text, Object(alone)).members, n);
  }

  /**
   Two members of one name and schema, the later the last of that name: if it
   stores anything, both come back as its value, so the earlier one survives if
   and only if the two have the same normal form.
   */
  lemma SameNameReadsLater(ms: seq<Member>, fs: seq<Value>, p: nat, q: nat, text: bool)
    requires MembersTyped(ms, fs) && PutMembers(ms, fs, map[]).Some?
    requires p < q < |ms| && ms[p].Typed? && ms[p] == ms[q] && Distinct(ms[q].schema)
    requires MemberTyped(ms[p], fs[p]) && MemberTyped(ms[q], fs[q])
    requires Stored(ms[q].schema, fs[q]).Some? && ms[q].name !in NameSet(ms[q + 1..])
    ensures var obj := Seen(text, Object(PutMembers(ms, fs, map[]).value));
            && DecodeMember(ms[p], obj) == DecodeMember(ms[q], obj) == Success(NormalMember(ms[q], fs[q]))
            && (DecodeMember(ms[p], obj) == Success(NormalMember(ms[p], fs[p])) <==>
              NormalMember(ms[p], fs[p]) == NormalMember(ms[q], fs[q]))
  {
    var n, s := ms[q].name, ms[q].schema;
    var obj := Seen(text, Object(PutMembers(ms, fs, map[]).value));
    LastIsAt(ms, fs, q);
    PutMembersStoresLast(ms, fs, map[], n);
    assert Holds(obj, n, s, fs[q], text);
    ElementRoundTrip(s, fs[q], obj, n, text);
  }

  lemma {:induction false} NotWritten(ms: seq<Member>, fs: seq<Value>, n: string)
    requires MembersTyped(ms, fs) && n !in NameSet(ms)
    ensures LastWritten(ms, fs, n) == None
    decreases ms, 0
  {
    if ms == [] {
    } else {
      NotWritten(ms[1..], fs[1..], n);
      if ms[0].Ancestor? {
        NotWritten(ms[0].base, fs[0].fields, n);
      }
    }
  }

  lemma {:induction false} LastIsAt(ms: seq<Member>, fs: seq<Value>, q: nat)
    requires MembersTyped(ms, fs) && q < |ms| && ms[q].Typed? && MemberTyped(ms[q], fs[q])
    requires Stored(ms[q].schema, fs[q]).Some? && ms[q].name !in NameSet(ms[q + 1..])
    ensures LastWritten(ms, fs, ms[q].name) == Stored(ms[q].schema, fs[q])
  {
    if q == 0 {
      NotWritten(ms[1..], fs[1..], ms[0].name);
    } else {
      assert ms[1..][q..] == ms[q + 1..];
      LastIsAt(ms[1..], fs[1..], q - 1);
    }
  }

  /** A full optional inside a full optional survives, an empty one does not. */
  lemma NestedOptionalLosesLevel()
    ensures var s := SOptional(SOptional(SBool));
            var v := VSome(VNone);
            HasType(s, v) && EncodeItem(s, v) == Some(Null) && DecodeItem(s, Array([Null]), 0) == (Success(VNone), 1)
  {
  }

  /** Narrowing accepts a 64-bit number exactly when the target type can hold it. */
  lemma NarrowingIsExact(any: Json, w: IntType, i: int)
    requires (any == Signed(i) && Int64.Min() <= i <= Int64.Max()) || (any == Unsigned(i) && 0 <= i <= UInt64.Max())
    ensures ExtractInt(any, w) == (if w.Min() <= i <= w.Max() then Success(i) else Failure(Throws))
  {
  }
}
