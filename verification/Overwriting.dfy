/**
 Decoding into an object that already has content. Structs and tuples decode
 their parts in place and a general map is not cleared, so its old entries
 survive; everything else, and everything inside a container or a conversion, is
 overwritten by a fresh value.
 */
module Overwriting {

  import opened Decoder
  import opened Decoding
  import opened Results
  import opened RoundTrip
  import opened Schemas

  // ----- the old content; an absent or foreign one counts as fresh

  function Items(v: Value): seq<Value> {
    if v.VTuple? then v.items else []
  }

  function Fields(v: Value): seq<Value> {
    if v.VStruct? then v.fields else []
  }

  function Entries(v: Value): seq<Entry> {
    if v.VMap? then v.entries else []
  }

  function First(vs: seq<Value>): Value {
    if vs == [] then VNone else vs[0]
  }

  function Others(vs: seq<Value>): seq<Value> {
    if vs == [] then [] else vs[1..]
  }

  predicate DecodesInPlace(s: Schema) {
    s.STuple? || s.SMap? || s.SStruct?
  }

  // ----- decoders

  function DecodeElementOver(s: Schema, obj: Json, name: string, was: Value): Result<Value, Failed>
    decreases s, 3
  {
    if !DecodesInPlace(s) then DecodeElement(s, obj, name)
    else
      match Find(obj, name)
      case None => Failure(Aborts)
      case Some(child) => DecodeChildOver(s, child, was)
  }

  function DecodeItemOver(s: Schema, arr: Json, i: nat, was: Value): (r: (Result<Value, Failed>, nat))
    requires i <= Size(arr)
    ensures i <= r.1 <= Size(arr)
    decreases s, 3
  {
    if !DecodesInPlace(s) then DecodeItem(s, arr, i)
    else
      var (child, i') := TakeChild(arr, i);
      (match child
       case Failure(e) => Failure(e)
       case Success(None) => Failure(Aborts)
       case Success(Some(j)) => DecodeChildOver(s, j, was), i')
  }

  function DecodeChildOver(s: Schema, child: Json, was: Value): Result<Value, Failed>
    requires DecodesInPlace(s)
    decreases s, 2
  {
    match s
    case STuple(es) => var vs :- DecodeTupleOver(es, child, 0, Items(was)); Success(VTuple(vs))
    case SMap(_, _) => var es :- DecodeMap(s, child, 0, Entries(was)); Success(VMap(es))
    case SStruct(ms) => var fs :- DecodeMembersOver(ms, child, Fields(was)); Success(VStruct(fs))
  }

  function DecodeTupleOver(es: seq<Schema>, arr: Json, i: nat, was: seq<Value>): Result<seq<Value>, Failed>
    requires i <= Size(arr)
    decreases es, 0
  {
    if es == [] then Success([])
    else
      var (r, i') := DecodeItemOver(es[0], arr, i, First(was));
      var v :- r;
      var rest :- DecodeTupleOver(es[1..], arr, i', Others(was));
      Success([v] + rest)
  }

  function DecodeMembersOver(ms: seq<Member>, obj: Json, was: seq<Value>): (r: Result<seq<Value>, Failed>)
    ensures r.Success? ==> |r.value| == |ms|
    decreases ms, 0
  {
    if ms == [] then Success([])
    else
      var f :- DecodeMemberOver(ms[0], obj, First(was));
      var fs :- DecodeMembersOver(ms[1..], obj, Others(was));
      Success([f] + fs)
  }

  function DecodeMemberOver(m: Member, obj: Json, was: Value): Result<Value, Failed>
    decreases m, 0
  {
    match m
    case Typed(name, s) => DecodeElementOver(s, obj, name, was)
    case Custom(_, _, _, _) => DecodeMember(m, obj)
    case Ancestor(base) => var fs :- DecodeMembersOver(base, obj, Fields(was)); Success(VStruct(fs))
  }

  /** Over nothing the decoders are those that fill fresh objects. */
  lemma {:induction false} OverNothing(s: Schema, obj: Json, name: string)
    ensures DecodeElementOver(s, obj, name, VNone) == DecodeElement(s, obj, name)
    decreases s, 3
  {
    if DecodesInPlace(s) && Find(obj, name).Some? {
      ChildOverNothing(s, Find(obj, name).value);
    }
  }

  lemma {:induction false} ItemOverNothing(s: Schema, arr: Json, i: nat)
    requires i <= Size(arr)
    ensures DecodeItemOver(s, arr, i, VNone) == DecodeItem(s, arr, i)
    decreases s, 3
  {
    var child := TakeChild(arr, i).0;
    if DecodesInPlace(s) && child.Success? && child.value.Some? {
      ChildOverNothing(s, child.value.value);
    }
  }

  lemma {:induction false} ChildOverNothing(s: Schema, child: Json)
    requires DecodesInPlace(s)
    ensures DecodeChildOver(s, child, VNone) == DecodeChild(s, child)
    decreases s, 2
  {
    match s
    case STuple(es) => TupleOverNothing(es, child, 0);
    case SMap(_, _) =>
    case SStruct(ms) => MembersOverNothing(ms, child);
  }

  lemma {:induction false} TupleOverNothing(es: seq<Schema>, arr: Json, i: nat)
    requires i <= Size(arr)
    ensures DecodeTupleOver(es, arr, i, []) == DecodeTuple(es, arr, i)
    decreases es, 0
  {
    if es == [] {
    } else {
      ItemOverNothing(es[0], arr, i);
      TupleOverNothing(es[1..], arr, DecodeItem(es[0], arr, i).1);
    }
  }

  lemma {:induction false} MembersOverNothing(ms: seq<Member>, obj: Json)
    ensures DecodeMembersOver(ms, obj, []) == DecodeMembers(ms, obj)
    decreases ms, 0
  {
    if ms == [] {
    } else {
      MemberOverNothing(ms[0], obj);
      MembersOverNothing(ms[1..], obj);
    }
  }

  lemma {:induction false} MemberOverNothing(m: Member, obj: Json)
    ensures DecodeMemberOver(m, obj, VNone) == DecodeMember(m, obj)
    decreases m, 0
  {
    match m
    case Typed(name, s) => OverNothing(s, obj, name);
    case Custom(_, _, _, _) =>
    case Ancestor(base) => MembersOverNothing(base, obj);
  }

  // ----- what comes of the old and the stored value

  /** The normal form of the stored value, its in-place maps added to the old ones. */
  function Merge(s: Schema, v: Value, was: Value): Value
    requires HasType(s, v)
    decreases s, 1
  {
    match s
    case STuple(es) => VTuple(MergeTuple(es, v.items, Items(was)))
    case SMap(_, _) => VMap(NormalMap(s, v.entries, Entries(was)))
    case SStruct(ms) => VStruct(MergeMembers(ms, v.fields, Fields(was)))
    case _ => Normal(s, v)
  }

  function MergeTuple(es: seq<Schema>, vs: seq<Value>, was: seq<Value>): seq<Value>
    requires TupleTyped(es, vs)
    decreases es, 0
  {
    if es == [] then [] else [Merge(es[0], vs[0], First(was))] + MergeTuple(es[1..], vs[1..], Others(was))
  }

  function MergeMembers(ms: seq<Member>, fs: seq<Value>, was: seq<Value>): seq<Value>
    requires MembersTyped(ms, fs)
    decreases ms, 0
  {
    if ms == [] then [] else [MergeMember(ms[0], fs[0], First(was))] + MergeMembers(ms[1..], fs[1..], Others(was))
  }

  function MergeMember(m: Member, f: Value, was: Value): Value
    requires MemberTyped(m, f)
    decreases m, 0
  {
    match m
    case Typed(_, s) => Merge(s, f, was)
    case Custom(_, _, _, _) => NormalMember(m, f)
    case Ancestor(base) => VStruct(MergeMembers(base, f.fields, Fields(was)))
  }

  // ----- the round trip into an object with content

  lemma {:induction false} ElementRoundTripOver(s: Schema, v: Value, obj: Json, name: string, was: Value, text: bool)
    requires HasType(s, v) && Distinct(s) && Holds(obj, name, s, v, text)
    ensures DecodeElementOver(s, obj, name, was) == Success(Merge(s, v, was))
    decreases s, 3
  {
    if DecodesInPlace(s) {
      EmptyIffNoElement(s, v);
      ChildRoundTripOver(s, v, was, text);
    } else {
      ElementRoundTrip(s, v, obj, name, text);
    }
  }

  lemma {:induction false} ItemRoundTripOver(s: Schema, v: Value, arr: Json, i: nat, was: Value, text: bool)
    requires HasType(s, v) && Distinct(s) && EncodeItem(s, v).Some?
    requires arr.Array? && i < |arr.items| && arr.items[i] == Seen(text, EncodeItem(s, v).value)
    ensures DecodeItemOver(s, arr, i, was) == (Success(Merge(s, v, was)), i + 1)
    decreases s, 3
  {
    if DecodesInPlace(s) {
      ChildRoundTripOver(s, v, was, text);
    } else {
      ItemRoundTrip(s, v, arr, i, text);
    }
  }

  lemma {:induction false} ChildRoundTripOver(s: Schema, v: Value, was: Value, text: bool)
    requires HasType(s, v) && Distinct(s) && DecodesInPlace(s) && Encode(s, v).Some?
    ensures DecodeChildOver(s, Seen(text, Encode(s, v).value), was) == Success(Merge(s, v, was))
    decreases s, 2
  {
    var child := Seen(text, Encode(s, v).value);
    match s
    case STuple(es) => TupleRoundTripOver(es, v.items, child, 0, Items(was), text);
    case SMap(_, _) => MapRoundTrip(s, v.entries, child, 0, Entries(was), text);
    case SStruct(ms) =>
      PutMembersHolds(ms, v.fields, map[], text);
      MembersRoundTripOver(ms, v.fields, child, Fields(was), text);
  }

  lemma {:induction false} TupleRoundTripOver(es: seq<Schema>, vs: seq<Value>, arr: Json, i: nat, was: seq<Value>,
      text: bool)
    requires TupleTyped(es, vs) && AllDistinct(es) && EncodeTuple(es, vs).Some?
    requires Rest(arr, i, EncodeTuple(es, vs).value, text)
    ensures DecodeTupleOver(es, arr, i, was) == Success(MergeTuple(es, vs, was))
    decreases es, 0
  {
    if es == [] {
    } else {
      RestTail(arr, i, EncodeTuple(es, vs).value, text);
      ItemRoundTripOver(es[0], vs[0], arr, i, First(was), text);
      assert EncodeTuple(es, vs).value[1..] == EncodeTuple(es[1..], vs[1..]).value;
      TupleRoundTripOver(es[1..], vs[1..], arr, i + 1, Others(was), text);
    }
  }

  lemma {:induction false} MembersRoundTripOver(ms: seq<Member>, fs: seq<Value>, obj: Json, was: seq<Value>, text: bool)
    requires MembersTyped(ms, fs) && DistinctMembers(ms) && MembersHeld(ms, fs, obj, text)
    ensures DecodeMembersOver(ms, obj, was) == Success(MergeMembers(ms, fs, was))
    decreases ms, 0
  {
    if ms == [] {
    } else {
      MemberRoundTripOver(ms[0], fs[0], obj, First(was), text);
      MembersRoundTripOver(ms[1..], fs[1..], obj, Others(was), text);
    }
  }

  lemma {:induction false} MemberRoundTripOver(m: Member, f: Value, obj: Json, was: Value, text: bool)
    requires MemberTyped(m, f) && DistinctMember(m) && MemberHeld(m, f, obj, text)
    ensures DecodeMemberOver(m, obj, was) == Success(MergeMember(m, f, was))
    decreases m, 0
  {
    match m
    case Typed(name, s) => ElementRoundTripOver(s, f, obj, name, was, text);
    case Custom(_, _, _, _) => MemberRoundTrip(m, f, obj, text);
    case Ancestor(base) => MembersRoundTripOver(base, f.fields, obj, Fields(was), text);
  }

  // ----- lookup

  function Lookup(es: seq<Entry>, k: Value): Option<Value> {
    if es == [] then None else if es[0].key == k then Some(es[0].value) else Lookup(es[1..], k)
  }

  lemma {:induction false} AssignLooksUp(es: seq<Entry>, k: Value, v: Value, x: Value)
    ensures Lookup(Assign(es, k, v), x) == if x == k then Some(v) else Lookup(es, x)
  {
    if es != [] && es[0].key != k {
      AssignLooksUp(es[1..], k, v, x);
      assert Assign(es, k, v)[1..] == Assign(es[1..], k, v);
    } else if es != [] {
      assert Assign(es, k, v)[1..] == es[1..];
    }
  }

  function OrElse(a: Option<Value>, b: Option<Value>): Option<Value> {
    if a.Some? then a else b
  }

  /** A key has its stored value where the stored map has the key, and its old one elsewhere. */
  lemma {:induction false} MergedMapLooksUp(s: Schema, es: seq<Entry>, acc: seq<Entry>, k: Value)
    requires s.SMap? && MapTyped(s, es)
    ensures Lookup(NormalMap(s, es, acc), k) == OrElse(Lookup(NormalMap(s, es, []), k), Lookup(acc, k))
    decreases |es|
  {
    if es == [] {
    } else {
      var key, value := Normal(s.key, es[0].key), Normal(s.mapped, es[0].value);
      MergedMapLooksUp(s, es[1..], Assign(acc, key, value), k);
      MergedMapLooksUp(s, es[1..], Assign([], key, value), k);
      AssignLooksUp(acc, key, value, k);
      AssignLooksUp([], key, value, k);
    }
  }

  // ----- equality of values whose maps have no order

  ghost predicate SameEntries(a: seq<Entry>, b: seq<Entry>) {
    forall k :: Lookup(a, k) == Lookup(b, k)
  }

  /** Equal but for the order of entries in maps decoded in place. */
  ghost predicate Same(s: Schema, a: Value, b: Value)
    decreases s, 1
  {
    match s
    case STuple(es) => a.VTuple? && b.VTuple? && SameItems(es, a.items, b.items)
    case SMap(_, _) => a.VMap? && b.VMap? && SameEntries(a.entries, b.entries)
    case SStruct(ms) => a.VStruct? && b.VStruct? && SameFields(ms, a.fields, b.fields)
    case _ => a == b
  }

  ghost predicate SameItems(es: seq<Schema>, a: seq<Value>, b: seq<Value>)
    decreases es, 0
  {
    |a| == |es| && |b| == |es| && (es == [] || (Same(es[0], a[0], b[0]) && SameItems(es[1..], a[1..], b[1..])))
  }

  ghost predicate SameFields(ms: seq<Member>, a: seq<Value>, b: seq<Value>)
    decreases ms, 0
  {
    |a| == |ms| && |b| == |ms| && (ms == [] || (SameField(ms[0], a[0], b[0]) && SameFields(ms[1..], a[1..], b[1..])))
  }

  ghost predicate SameField(m: Member, a: Value, b: Value)
    decreases m, 0
  {
    match m
    case Typed(_, s) => Same(s, a, b)
    case Custom(_, _, _, _) => a == b
    case Ancestor(base) => a.VStruct? && b.VStruct? && SameFields(base, a.fields, b.fields)
  }

  // ----- when the stored value is restored

  /** Every key of an old map that is decoded in place is a key of the stored map. */
  ghost predicate Covered(s: Schema, v: Value, was: Value)
    requires HasType(s, v)
    decreases s, 1
  {
    match s
    case STuple(es) => TupleCovered(es, v.items, Items(was))
    case SMap(_, _) => forall k :: Lookup(Entries(was), k).Some? ==> Lookup(NormalMap(s, v.entries, []), k).Some?
    case SStruct(ms) => MembersCovered(ms, v.fields, Fields(was))
    case _ => true
  }

  ghost predicate TupleCovered(es: seq<Schema>, vs: seq<Value>, was: seq<Value>)
    requires TupleTyped(es, vs)
    decreases es, 0
  {
    es == [] || (Covered(es[0], vs[0], First(was)) && TupleCovered(es[1..], vs[1..], Others(was)))
  }

  ghost predicate MembersCovered(ms: seq<Member>, fs: seq<Value>, was: seq<Value>)
    requires MembersTyped(ms, fs)
    decreases ms, 0
  {
    ms == [] || (MemberCovered(ms[0], fs[0], First(was)) && MembersCovered(ms[1..], fs[1..], Others(was)))
  }

  ghost predicate MemberCovered(m: Member, f: Value, was: Value)
    requires MemberTyped(m, f)
    decreases m, 0
  {
    match m
    case Typed(_, s) => Covered(s, f, was)
    case Custom(_, _, _, _) => true
    case Ancestor(base) => MembersCovered(base, f.fields, Fields(was))
  }

  /** Decoding over an old value gives the stored one if and only if the old maps have no keys of their own. */
  lemma {:induction false} RestoredIffCovered(s: Schema, v: Value, was: Value)
    requires HasType(s, v)
    ensures Same(s, Merge(s, v, was), Normal(s, v)) <==> Covered(s, v, was)
    decreases s, 1
  {
    match s
    case STuple(es) => TupleRestoredIffCovered(es, v.items, Items(was));
    case SMap(_, _) =>
      forall k
        ensures Lookup(NormalMap(s, v.entries, Entries(was)), k)
             == OrElse(Lookup(NormalMap(s, v.entries, []), k), Lookup(Entries(was), k))
      {
        MergedMapLooksUp(s, v.entries, Entries(was), k);
      }
    case SStruct(ms) => MembersRestoredIffCovered(ms, v.fields, Fields(was));
    case _ =>
  }

  lemma {:induction false} TupleRestoredIffCovered(es: seq<Schema>, vs: seq<Value>, was: seq<Value>)
    requires TupleTyped(es, vs)
    ensures SameItems(es, MergeTuple(es, vs, was), NormalTuple(es, vs)) <==> TupleCovered(es, vs, was)
    ensures |MergeTuple(es, vs, was)| == |NormalTuple(es, vs)| == |es|
    decreases es, 0
  {
    if es == [] {
    } else {
      RestoredIffCovered(es[0], vs[0], First(was));
      TupleRestoredIffCovered(es[1..], vs[1..], Others(was));
    }
  }

  lemma {:induction false} MembersRestoredIffCovered(ms: seq<Member>, fs: seq<Value>, was: seq<Value>)
    requires MembersTyped(ms, fs)
    ensures SameFields(ms, MergeMembers(ms, fs, was), NormalMembers(ms, fs)) <==> MembersCovered(ms, fs, was)
    ensures |MergeMembers(ms, fs, was)| == |ms|
    decreases ms, 0
  {
    if ms == [] {
    } else {
      MemberRestoredIffCovered(ms[0], fs[0], First(was));
      MembersRestoredIffCovered(ms[1..], fs[1..], Others(was));
    }
  }

  lemma {:induction false} MemberRestoredIffCovered(m: Member, f: Value, was: Value)
    requires MemberTyped(m, f)
    ensures SameField(m, MergeMember(m, f, was), NormalMember(m, f)) <==> MemberCovered(m, f, was)
    decreases m, 0
  {
    match m
    case Typed(_, s) => RestoredIffCovered(s, f, was);
    case Custom(_, _, _, _) =>
    case Ancestor(base) => MembersRestoredIffCovered(base, f.fields, Fields(was));
  }

  /**
   A struct written out and read into an object with content: each field becomes
   the merge of what it held and what was written, which is what was written if
   and only if the old maps have no keys of their own.
   */
  lemma StructRoundTripOver(ms: seq<Member>, fs: seq<Value>, was: seq<Value>, text: bool)
    requires MembersTyped(ms, fs) && DistinctMembers(ms) && PutMembers(ms, fs, map[]).Some?
    ensures var r := DecodeMembersOver(ms, Seen(text, Object(PutMembers(ms, fs, map[]).value)), was);
            && r == Success(MergeMembers(ms, fs, was))
            && (SameFields(ms, r.value, NormalMembers(ms, fs)) <==> MembersCovered(ms, fs, was))
  {
    PutMembersHolds(ms, fs, map[], text);
    MembersRoundTripOver(ms, fs, Seen(text, Object(PutMembers(ms, fs, map[]).value)), was, text);
    MembersRestoredIffCovered(ms, fs, was);
  }

  // ----- the relation

  lemma {:induction false} SameShared(s: Schema, a: Value, b: Value, c: Value)
    requires Same(s, a, b)
    ensures Same(s, a, c) <==> Same(s, b, c)
    decreases s, 1
  {
    match s
    case STuple(es) => if c.VTuple? { SameItemsShared(es, a.items, b.items, c.items); }
    case SStruct(ms) => if c.VStruct? { SameFieldsShared(ms, a.fields, b.fields, c.fields); }
    case _ =>
  }

  lemma {:induction false} SameItemsShared(es: seq<Schema>, a: seq<Value>, b: seq<Value>, c: seq<Value>)
    requires SameItems(es, a, b)
    ensures SameItems(es, a, c) <==> SameItems(es, b, c)
    decreases es, 0
  {
    if es != [] && |c| == |es| {
      SameShared(es[0], a[0], b[0], c[0]);
      SameItemsShared(es[1..], a[1..], b[1..], c[1..]);
    }
  }

  lemma {:induction false} SameFieldsShared(ms: seq<Member>, a: seq<Value>, b: seq<Value>, c: seq<Value>)
    requires SameFields(ms, a, b)
    ensures SameFields(ms, a, c) <==> SameFields(ms, b, c)
    decreases ms, 0
  {
    if ms != [] && |c| == |ms| {
      SameFieldShared(ms[0], a[0], b[0], c[0]);
      SameFieldsShared(ms[1..], a[1..], b[1..], c[1..]);
    }
  }

  lemma {:induction false} SameFieldShared(m: Member, a: Value, b: Value, c: Value)
    requires SameField(m, a, b)
    ensures SameField(m, a, c) <==> SameField(m, b, c)
    decreases m, 0
  {
    match m
    case Typed(_, s) => SameShared(s, a, b, c);
    case Custom(_, _, _, _) =>
    case Ancestor(base) => if c.VStruct? { SameFieldsShared(base, a.fields, b.fields, c.fields); }
  }

  /** Decoding the same thing twice changes nothing more. */
  lemma {:induction false} MergeTwice(s: Schema, v: Value, was: Value)
    requires HasType(s, v)
    ensures Same(s, Merge(s, v, was), Merge(s, v, was))
    ensures Same(s, Merge(s, v, Merge(s, v, was)), Merge(s, v, was))
    decreases s, 1
  {
    match s
    case STuple(es) => MergeTupleTwice(es, v.items, Items(was));
    case SMap(_, _) =>
      var once := NormalMap(s, v.entries, Entries(was));
      forall k
        ensures Lookup(NormalMap(s, v.entries, once), k) == Lookup(once, k)
      {
        MergedMapLooksUp(s, v.entries, Entries(was), k);
        MergedMapLooksUp(s, v.entries, once, k);
      }
    case SStruct(ms) => MergeMembersTwice(ms, v.fields, Fields(was));
    case _ =>
  }

  lemma {:induction false} MergeTupleTwice(es: seq<Schema>, vs: seq<Value>, was: seq<Value>)
    requires TupleTyped(es, vs)
    ensures var once := MergeTuple(es, vs, was);
            |once| == |es| && SameItems(es, once, once) && SameItems(es, MergeTuple(es, vs, once), once)
    decreases es, 0
  {
    if es == [] {
    } else {
      MergeTwice(es[0], vs[0], First(was));
      MergeTupleTwice(es[1..], vs[1..], Others(was));
      assert MergeTuple(es, vs, was)[1..] == MergeTuple(es[1..], vs[1..], Others(was));
    }
  }

  lemma {:induction false} MergeMembersTwice(ms: seq<Member>, fs: seq<Value>, was: seq<Value>)
    requires MembersTyped(ms, fs)
    ensures var once := MergeMembers(ms, fs, was);
            |once| == |ms| && SameFields(ms, once, once) && SameFields(ms, MergeMembers(ms, fs, once), once)
    decreases ms, 0
  {
    if ms == [] {
    } else {
      MergeMemberTwice(ms[0], fs[0], First(was));
      MergeMembersTwice(ms[1..], fs[1..], Others(was));
      assert MergeMembers(ms, fs, was)[1..] == MergeMembers(ms[1..], fs[1..], Others(was));
    }
  }

  lemma {:induction false} MergeMemberTwice(m: Member, f: Value, was: Value)
    requires MemberTyped(m, f)
    ensures SameField(m, MergeMember(m, f, was), MergeMember(m, f, was))
    ensures SameField(m, MergeMember(m, f, MergeMember(m, f, was)), MergeMember(m, f, was))
    decreases m, 0
  {
    match m
    case Typed(_, s) => MergeTwice(s, f, was);
    case Custom(_, _, _, _) =>
    case Ancestor(base) => MergeMembersTwice(base, f.fields, Fields(was));
  }

  /** A map field keeps the entries it had: `{5: false}` read over by `{1: true}` holds both. */
  lemma MapKeepsOldEntries()
    ensures var s := SMap(SInt(Int32), SBool);
            var was := VMap([Entry(VInt(5), VBool(false))]);
            var v := VMap([Entry(VInt(1), VBool(true))]);
            && HasType(s, v)
            && Merge(s, v, was) == VMap([Entry(VInt(5), VBool(false)), Entry(VInt(1), VBool(true))])
            && Normal(s, v) == v && !Covered(s, v, was)
  {
    var s := SMap(SInt(Int32), SBool);
    var five, one := Entry(VInt(5), VBool(false)), Entry(VInt(1), VBool(true));
    assert MapTyped(s, [one]) by {
      assert HasType(s.key, one.key) && HasType(s.mapped, one.value) && [one][1..] == [] && MapTyped(s, []);
    }
    assert Normal(s.key, one.key) == one.key && Normal(s.mapped, one.value) == one.value;
    assert [one][1..] == [] && [five][1..] == [];
    assert Assign([], one.key, one.value) == [one];
    assert Assign([five], one.key, one.value) == [five] + Assign([], one.key, one.value);
    assert NormalMap(s, [one], []) == NormalMap(s, [], [one]) == [one];
    assert NormalMap(s, [one], [five]) == NormalMap(s, [], [five, one]) == [five, one];
    assert Lookup([five], five.key) == Some(five.value) && Lookup([one], five.key) == None;
  }

  // ----- the decoders as written

  method DecodeElementOverFrom(obj: Json, name: string, s: Schema, was: Value) returns (r: Result<Value, Failed>)
    requires DecodeElementOver(s, obj, name, was) != Failure(Hangs)
    ensures r == DecodeElementOver(s, obj, name, was)
    decreases s, 3
  {
    if !DecodesInPlace(s) {
      r := DecodeElementFrom(obj, name, s);
      return;
    }
    var child := Find(obj, name);
    if child.None? {
      return Failure(Aborts);
    }
    r := DecodeNodeOver(s, child.value, was);
  }

  method DecodeItemOverFrom(reader: ArrayReader, s: Schema, was: Value) returns (r: Result<Value, Failed>)
    requires reader.index <= Size(reader.json)
    requires DecodeItemOver(s, reader.json, reader.index, was).0 != Failure(Hangs)
    modifies reader
    ensures (r, reader.index) == DecodeItemOver(s, reader.json, old(reader.index), was)
    decreases s, 3
  {
    if !DecodesInPlace(s) {
      r := DecodeItemFrom(reader, s);
      return;
    }
    var child := reader.Deserialize();
    if child.Failure? {
      return Failure(child.error);
    }
    if child.value.None? {
      return Failure(Aborts);
    }
    r := DecodeNodeOver(s, child.value.value, was);
  }

  /** A nested node, through a reader of its own, over the parts of the old value. */
  method DecodeNodeOver(s: Schema, child: Json, was: Value) returns (r: Result<Value, Failed>)
    requires DecodesInPlace(s) && DecodeChildOver(s, child, was) != Failure(Hangs)
    ensures r == DecodeChildOver(s, child, was)
    decreases s, 2
  {
    match s
    case STuple(es) =>
      var reader := new ArrayReader(child);
      var vs := DecodeTupleOverFrom(reader, es, Items(was));
      return if vs.Success? then Success(VTuple(vs.value)) else Failure(vs.error);
    case SMap(_, _) =>
      var reader := new ArrayReader(child);
      var es := DecodeMapFrom(reader, s, Entries(was));
      return if es.Success? then Success(VMap(es.value)) else Failure(es.error);
    case SStruct(ms) =>
      var fs := DecodeMembersOverFrom(child, ms, Fields(was));
      return if fs.Success? then Success(VStruct(fs.value)) else Failure(fs.error);
  }

  method DecodeTupleOverFrom(reader: ArrayReader, es: seq<Schema>, was: seq<Value>)
      returns (r: Result<seq<Value>, Failed>)
    requires reader.index <= Size(reader.json)
    requires DecodeTupleOver(es, reader.json, reader.index, was) != Failure(Hangs)
    modifies reader
    ensures r == DecodeTupleOver(es, reader.json, old(reader.index), was)
    decreases es, 0
  {
    if es == [] {
      return Success([]);
    }
    var item := DecodeItemOverFrom(reader, es[0], First(was));
    if item.Failure? {
      return Failure(item.error);
    }
    var rest := DecodeTupleOverFrom(reader, es[1..], Others(was));
    return if rest.Success? then Success([item.value] + rest.value) else Failure(rest.error);
  }

  /** The member loop, each member over the old content of its field. */
  method DecodeMembersOverFrom(obj: Json, ms: seq<Member>, was: seq<Value>) returns (r: Result<seq<Value>, Failed>)
    requires DecodeMembersOver(ms, obj, was) != Failure(Hangs)
    ensures r == DecodeMembersOver(ms, obj, was)
    decreases ms, 0
  {
    var fields, later := [], was;
    assert ms[0..] == ms;
    PrependEnds(fields, DecodeMembersOver(ms, obj, was));
    for i := 0 to |ms|
      invariant DecodeMembersOver(ms, obj, was) == Prepend(fields, DecodeMembersOver(ms[i..], obj, later))
    {
      assert ms[i..][0] == ms[i] && ms[i..][1..] == ms[i + 1..];
      var f := DecodeMemberOverFrom(obj, ms[i], First(later));
      if f.Failure? {
        return Failure(f.error);
      }
      PrependStep(fields, f.value, DecodeMembersOver(ms[i + 1..], obj, Others(later)));
      fields, later := fields + [f.value], Others(later);
    }
    PrependEnds(fields, Success([]));
    return Success(fields);
  }

  method DecodeMemberOverFrom(obj: Json, m: Member, was: Value) returns (r: Result<Value, Failed>)
    requires DecodeMemberOver(m, obj, was) != Failure(Hangs)
    ensures r == DecodeMemberOver(m, obj, was)
    decreases m, 0
  {
    match m
    case Typed(name, s) => r := DecodeElementOverFrom(obj, name, s, was);
    case Custom(_, _, _, _) => r := DecodeMemberFrom(obj, m);
    case Ancestor(base) =>
      var fs := DecodeMembersOverFrom(obj, base, Fields(was));
      return if fs.Success? then Success(VStruct(fs.value)) else Failure(fs.error);
  }

  /** Decoding some members and then more is decoding all of them. */
  lemma {:induction false} DecodeMembersSplit(a: seq<Member>, b: seq<Member>, obj: Json, was: seq<Value>,
      was': seq<Value>)
    requires |a| == |was|
    ensures DecodeMembersOver(a + b, obj, was + was')
            == match DecodeMembersOver(a, obj, was)
               case Failure(e) => Failure(e)
               case Success(fs) => Prepend(fs, DecodeMembersOver(b, obj, was'))
  {
    if a == [] {
      assert a + b == b && was + was' == was';
      PrependEnds([], DecodeMembersOver(b, obj, was'));
    } else {
      assert (a + b)[0] == a[0] && (a + b)[1..] == a[1..] + b;
      assert (was + was')[0] == was[0] && (was + was')[1..] == was[1..] + was';
      DecodeMembersSplit(a[1..], b, obj, was[1..], was');
      var f, fs := DecodeMemberOver(a[0], obj, was[0]), DecodeMembersOver(a[1..], obj, was[1..]);
      if f.Success? && fs.Success? && DecodeMembersOver(b, obj, was').Success? {
        assert [f.value] + (fs.value + DecodeMembersOver(b, obj, was').value)
          == [f.value] + fs.value + DecodeMembersOver(b, obj, was').value;
      }
    }
  }
}
