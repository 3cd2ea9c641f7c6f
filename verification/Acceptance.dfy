/**
 What the decoders accept, on every tree: which JSON value is read as which
 value, and with which failure everything else ends.
 */
module Acceptance {

  import opened Decoding
  import opened ListProgress
  import opened Overwriting
  import opened Results
  import opened RoundTripExact
  import opened Schemas

  // ----- leaves

  /** The JSON values read as `v` by a leaf type. */
  ghost predicate Reads(s: Schema, j: Json, v: Value) {
    match s
    case SBool => v.VBool? && j == Bool(v.b)
    case SInt(w) => v.VInt? && w.Min() <= v.i <= w.Max() && (j == Signed(v.i) || j == Unsigned(v.i))
    case SFloat =>
      v.VFloat? && (j == Float(v.r) || (j.Signed? && j.i as real == v.r) || (j.Unsigned? && j.n as real == v.r))
    case SString => v.VString? && j == Text(v.s)
    case SEnum(names) => v.VEnum? && j.Text? && (j.s, v.e) in names
    case _ => false
  }

  /** Unsigned numbers are not negative. */
  ghost predicate IsNumeral(j: Json) {
    j.Unsigned? ==> j.n >= 0
  }

  /** A leaf is read from exactly these, and everything else throws. */
  lemma ExtractsIff(s: Schema, j: Json, v: Value)
    requires IsLeaf(s) && IsNumeral(j) && (s.SEnum? ==> DistinctEnum(s.names))
    ensures Extract(s, j) == Success(v) <==> Reads(s, j, v)
    ensures Extract(s, j).Failure? ==> Extract(s, j) == Failure(Throws)
  {
    if s.SEnum? && j.Text? && v.VEnum? && (j.s, v.e) in s.names {
      var r := ValueOf(s.names, j.s);
      var a :| 0 <= a < |s.names| && s.names[a] == (j.s, v.e);
      if r.Some? {
        var b :| 0 <= b < |s.names| && s.names[b] == (j.s, r.value);
      }
    }
  }

  /** A leaf member is read from what is stored under its name; absent, null, nested or foreign values throw. */
  lemma LeafMemberIff(s: Schema, obj: Json, name: string, v: Value)
    requires IsLeaf(s) && (s.SEnum? ==> DistinctEnum(s.names))
    requires obj.Object? && name in obj.members ==> IsNumeral(obj.members[name])
    ensures DecodeElement(s, obj, name) == Success(v)
            <==> obj.Object? && name in obj.members && Reads(s, obj.members[name], v)
    ensures DecodeElement(s, obj, name).Failure? ==> DecodeElement(s, obj, name) == Failure(Throws)
  {
    var any := ReadValue(obj, name);
    if any.Success? {
      ExtractsIff(s, any.value, v);
    }
  }

  // ----- members

  /**
   Without a value other than null under its name: an optional is empty, a leaf or
   a list throws, the rest asserts.
   */
  lemma AbsentMember(s: Schema, obj: Json, name: string)
    requires !obj.Object? || name !in obj.members || obj.members[name] == Null
    ensures DecodeElement(s, obj, name) ==
      if s.SOptional? then Success(VNone) else if IsLeaf(s) || s.SList? then Failure(Throws) else Failure(Aborts)
  {
  }

  /**
   An optional member never throws. It is empty exactly where nothing but null is
   stored under its name or reading that throws; otherwise it holds what is read.
   */
  lemma OptionalMember(e: Schema, obj: Json, name: string)
    ensures var r := DecodeElement(SOptional(e), obj, name);
            && r != Failure(Throws)
            && (r == Success(VNone)
                <==> !obj.Object? || name !in obj.members || obj.members[name] == Null
                     || DecodeElement(e, obj, name) == Failure(Throws))
            && (obj.Object? && name in obj.members && obj.members[name] != Null ==>
                 match DecodeElement(e, obj, name)
                 case Success(v) => r == Success(VSome(v))
                 case Failure(f) => r == if f == Throws then Success(VNone) else Failure(f))
  {
  }

  /** An instance: the text is not a number, and the optional is left empty. */
  lemma OptionalSwallowsText()
    ensures DecodeElement(SOptional(SInt(Int32)), Object(map["x" := Text("abc")]), "x") == Success(VNone)
  {
  }

  // ----- items

  /** An optional item never throws in an array: null or content that throws leave it empty. */
  lemma OptionalItem(e: Schema, arr: Json, i: nat)
    requires arr.Array? && i < |arr.items|
    ensures var r := DecodeItem(SOptional(e), arr, i).0;
            if arr.items[i] == Null then r == Success(VNone)
            else
              match DecodeItem(e, arr, i).0
              case Success(v) => r == Success(VSome(v))
              case Failure(f) => r == if f == Throws then Success(VNone) else Failure(f)
  {
    OptionalMoves(SOptional(e), arr, i);
  }

  /** At the end of its array an optional is empty, a leaf throws and the rest asserts; the cursor stays. */
  lemma ItemAtEnd(s: Schema, arr: Json)
    ensures DecodeItem(s, arr, Size(arr)) ==
      (if s.SOptional? then Success(VNone) else if IsLeaf(s) then Failure(Throws) else Failure(Aborts), Size(arr))
  {
  }

  /** Every item of something that is no array throws; only a nested one moves the cursor first. */
  lemma ItemOfNoArray(s: Schema, j: Json, i: nat)
    requires !j.Array? && i < Size(j)
    ensures DecodeItem(s, j, i) == (Failure(Throws), if IsLeaf(s) || s.SOptional? then i else i + 1)
  {
  }

  /** A leaf item is read like a member, from a value that is neither array nor object. */
  lemma LeafItemIff(s: Schema, arr: Json, i: nat, v: Value)
    requires IsLeaf(s) && (s.SEnum? ==> DistinctEnum(s.names))
    requires arr.Array? && i < |arr.items| && IsNumeral(arr.items[i])
    ensures DecodeItem(s, arr, i).0 == Success(v) <==> Reads(s, arr.items[i], v)
    ensures DecodeItem(s, arr, i).0.Failure? ==> DecodeItem(s, arr, i).0 == Failure(Throws)
  {
    if IsPrimitive(arr.items[i]) {
      ExtractsIff(s, arr.items[i], v);
    }
  }

  // ----- containers

  /** What reads as an empty list: an empty array, an empty object, and the null that only an array can hand on. */
  lemma EmptyListIff(s: Schema, j: Json)
    requires s.SList?
    ensures DecodeChild(s, j) == Success(VList([])) <==> j == Array([]) || j == Object(map[]) || j == Null
  {
    if j.Object? && |j.members| == 0 {
      assert j.members == map[];
    }
    if j.Array? && |j.items| == 0 {
      assert j.items == [];
    }
  }

  /** Null and an empty object are read as an empty list or map; all else that is no array throws. */
  lemma ContainerOfNoArray(s: Schema, j: Json)
    requires (s.SList? || s.SMap? || s.SStringMap?) && !j.Array?
    ensures DecodeChild(s, j) ==
      if j == Null || j == Object(map[])
      then Success(if s.SList? then VList([]) else if s.SMap? then VMap([]) else VStringMap([]))
      else Failure(Throws)
  {
    if s.SList? && Size(j) > 0 {
      ItemOfNoArray(s.elem, j, 0);
    }
    if j.Object? && |j.members| == 0 {
      assert j.members == map[];
    }
  }

  // ----- the root

  /**
   The root array is read as a list, tuple or map itself, and as anything else
   from its first item; an optional is empty where that item is absent or null or
   cannot be read.
   */
  lemma RootReads(s: Schema, root: Json)
    requires root.Array?
    ensures var r := DecodeRoot(s, root, 0).0;
            if s.SList? || s.STuple? || s.SMap? || s.SStringMap? then r == DecodeChild(s, root)
            else if !s.SOptional? then r == DecodeItem(s, root, 0).0
            else if root.items == [] || root.items[0] == Null then r == Success(VNone)
            else
              match DecodeRoot(s.inner, root, 0).0
              case Success(v) => r == Success(VSome(v))
              case Failure(f) => r == if f == Throws then Success(VNone) else Failure(f)
  {
  }

  /** A root that is no array: only null and an empty object can be read, as containers or as an empty optional. */
  lemma RootOfNoArray(s: Schema, root: Json)
    requires !root.Array?
    ensures s.SList? || s.SMap? || s.SStringMap? ==> DecodeRoot(s, root, 0).0 == DecodeChild(s, root)
    ensures s.SOptional? ==>
      DecodeRoot(s, root, 0).0 == if root == Null || root == Object(map[]) then Success(VNone) else Failure(Throws)
    ensures IsLeaf(s) || (s.SStruct? && Size(root) > 0) ==> DecodeRoot(s, root, 0).0 == Failure(Throws)
    ensures s.SStruct? && Size(root) == 0 ==> DecodeRoot(s, root, 0).0 == Failure(Aborts)
  {
    if root.Object? && |root.members| == 0 {
      assert root.members == map[];
    }
  }

  // ----- lists and tuples

  /** What is read from each slot of an array; outside there is nothing to read. */
  ghost function Slots(s: Schema, arr: Json): int -> Result<Value, Failed> {
    i => if 0 <= i < Size(arr) then DecodeItem(s, arr, i).0 else Failure(Throws)
  }

  /** The k-th value is read from slot `i + k`. */
  ghost predicate ReadFrom(slots: int -> Result<Value, Failed>, i: int, vs: seq<Value>) {
    forall k :: i <= k < i + |vs| ==> slots(k) == Success(vs[k - i])
  }

  lemma ReadFromStep(slots: int -> Result<Value, Failed>, i: int, vs: seq<Value>)
    requires vs != []
    ensures ReadFrom(slots, i, vs) <==> slots(i) == Success(vs[0]) && ReadFrom(slots, i + 1, vs[1..])
  {
  }

  /** A list without optional elements is read if and only if each of its items is, slot by slot. */
  lemma {:induction false} ListReadsIff(s: Schema, arr: Json, i: nat, vs: seq<Value>)
    requires s.SList? && !s.elem.SOptional? && arr.Array? && i <= |arr.items|
    ensures DecodeList(s, arr, i) == Success(vs)
            <==> |vs| == |arr.items| - i && ReadFrom(Slots(s.elem, arr), i, vs)
    decreases |arr.items| - i
  {
    if i < |arr.items| {
      ListReadsStep(s, arr, i, vs);
      if vs != [] {
        ListReadsIff(s, arr, i + 1, vs[1..]);
        ReadFromStep(Slots(s.elem, arr), i, vs);
      }
    }
  }

  lemma ListReadsStep(s: Schema, arr: Json, i: nat, vs: seq<Value>)
    requires s.SList? && !s.elem.SOptional? && arr.Array? && i < |arr.items|
    ensures DecodeList(s, arr, i) == Success(vs)
            <==> vs != [] && Slots(s.elem, arr)(i) == Success(vs[0]) && DecodeList(s, arr, i + 1) == Success(vs[1..])
  {
    CoreMoves(s.elem, arr, i);
    assert vs != [] ==> vs == [vs[0]] + vs[1..];
  }

  /**
   A tuple without optional elements takes each of its elements from its own slot;
   what the array has beyond them is ignored.
   */
  lemma {:induction false} TuplePosition(es: seq<Schema>, arr: Json, i: nat, k: nat)
    requires arr.Array? && i <= |arr.items| && k < |es| && forall j :: 0 <= j < |es| ==> !es[j].SOptional?
    requires DecodeTuple(es, arr, i).Success?
    ensures var vs := DecodeTuple(es, arr, i).value;
            |vs| == |es| && i + k < |arr.items| && DecodeItem(es[k], arr, i + k).0 == Success(vs[k])
    decreases |es|
  {
    TupleStep(es, arr, i);
    if k > 0 {
      TuplePosition(es[1..], arr, i + 1, k - 1);
    } else if |es| > 1 {
      TuplePosition(es[1..], arr, i + 1, 0);
    }
  }

  /** It fails as the first element that cannot be read does. */
  lemma {:induction false} TupleFailure(es: seq<Schema>, arr: Json, i: nat) returns (k: nat)
    requires arr.Array? && i <= |arr.items| && forall j :: 0 <= j < |es| ==> !es[j].SOptional?
    requires DecodeTuple(es, arr, i).Failure?
    ensures k < |es| && i + k <= |arr.items|
    ensures DecodeItem(es[k], arr, i + k).0 == Failure(DecodeTuple(es, arr, i).error)
    decreases |es|
  {
    TupleStep(es, arr, i);
    if DecodeItem(es[0], arr, i).0.Failure? {
      k := 0;
    } else {
      var m := TupleFailure(es[1..], arr, i + 1);
      k := m + 1;
    }
  }

  lemma TupleStep(es: seq<Schema>, arr: Json, i: nat)
    requires es != [] && !es[0].SOptional? && arr.Array? && i <= |arr.items|
    ensures var item := DecodeItem(es[0], arr, i).0;
            match item
            case Failure(e) => DecodeTuple(es, arr, i) == Failure(e)
            case Success(v) =>
              && i < |arr.items|
              && match DecodeTuple(es[1..], arr, i + 1)
                 case Failure(e) => DecodeTuple(es, arr, i) == Failure(e)
                 case Success(vs) => DecodeTuple(es, arr, i) == Success([v] + vs)
  {
    if i < |arr.items| {
      CoreMoves(es[0], arr, i);
    } else {
      ItemAtEnd(es[0], arr);
    }
  }

  // ----- maps

  /** Slot `i` holds an entry with key `k` and value `v`. */
  ghost predicate EntryReads(s: Schema, arr: Json, i: nat, k: Value, v: Value)
    requires s.SMap? && arr.Array?
  {
    && i < |arr.items|
    && DecodeElement(s.key, arr.items[i], "__mapKey__") == Success(k)
    && DecodeElement(s.mapped, arr.items[i], "__mapValue__") == Success(v)
  }

  /** Slot `i` holds an entry for `k`. */
  ghost predicate HasKey(s: Schema, arr: Json, i: nat, k: Value)
    requires s.SMap? && arr.Array?
  {
    exists v :: EntryReads(s, arr, i, k, v)
  }

  ghost predicate IsEntry(s: Schema, arr: Json, i: nat)
    requires s.SMap? && arr.Array?
  {
    exists k, v :: EntryReads(s, arr, i, k, v)
  }

  ghost predicate AllEntries(s: Schema, arr: Json, i: nat)
    requires s.SMap? && arr.Array?
  {
    forall j :: i <= j < |arr.items| ==> IsEntry(s, arr, j)
  }

  lemma AllEntriesStep(s: Schema, arr: Json, i: nat)
    requires s.SMap? && arr.Array? && i < |arr.items|
    ensures AllEntries(s, arr, i) <==> IsEntry(s, arr, i) && AllEntries(s, arr, i + 1)
  {
  }

  lemma MapReadsStep(s: Schema, arr: Json, i: nat, acc: seq<Entry>)
    requires s.SMap? && arr.Array? && i < |arr.items|
    ensures !IsEntry(s, arr, i) ==> DecodeMap(s, arr, i, acc).Failure?
    ensures forall k, v :: EntryReads(s, arr, i, k, v) ==>
      DecodeMap(s, arr, i, acc) == DecodeMap(s, arr, i + 1, Assign(acc, k, v))
  {
    var key, value := DecodeElement(s.key, arr.items[i], KEY_NAME), DecodeElement(s.mapped, arr.items[i], VALUE_NAME);
    if key.Success? && value.Success? {
      assert EntryReads(s, arr, i, key.value, value.value);
    }
  }

  /** A general map is read if and only if each slot from the cursor on holds an entry. */
  lemma {:induction false} MapReadsIff(s: Schema, arr: Json, i: nat, acc: seq<Entry>)
    requires s.SMap? && arr.Array? && i <= |arr.items|
    ensures DecodeMap(s, arr, i, acc).Success? <==> AllEntries(s, arr, i)
    decreases |arr.items| - i
  {
    if i < |arr.items| {
      AllEntriesStep(s, arr, i);
      MapReadsStep(s, arr, i, acc);
      if IsEntry(s, arr, i) {
        var k, v :| EntryReads(s, arr, i, k, v);
        MapReadsIff(s, arr, i + 1, Assign(acc, k, v));
      }
    }
  }

  /** A key that no further slot holds keeps what it had. */
  lemma {:induction false} OtherKeysStay(s: Schema, arr: Json, i: nat, acc: seq<Entry>, k: Value)
    requires s.SMap? && arr.Array? && i <= |arr.items| && DecodeMap(s, arr, i, acc).Success?
    requires forall j :: i <= j < |arr.items| ==> !HasKey(s, arr, j, k)
    ensures Lookup(DecodeMap(s, arr, i, acc).value, k) == Lookup(acc, k)
    decreases |arr.items| - i
  {
    if i < |arr.items| {
      MapReadsStep(s, arr, i, acc);
      var key, value :| EntryReads(s, arr, i, key, value);
      AssignLooksUp(acc, key, value, k);
      assert HasKey(s, arr, i, key);
      OtherKeysStay(s, arr, i + 1, Assign(acc, key, value), k);
    }
  }

  /** A key has the value of the last slot that holds it. */
  lemma {:induction false} LastEntryWins(s: Schema, arr: Json, i: nat, acc: seq<Entry>, j: nat, k: Value, v: Value)
    requires s.SMap? && arr.Array? && i <= j < |arr.items| && DecodeMap(s, arr, i, acc).Success?
    requires EntryReads(s, arr, j, k, v) && forall m :: j < m < |arr.items| ==> !HasKey(s, arr, m, k)
    ensures Lookup(DecodeMap(s, arr, i, acc).value, k) == Some(v)
    decreases j - i
  {
    MapReadsStep(s, arr, i, acc);
    var key, value :| EntryReads(s, arr, i, key, value);
    if i < j {
      LastEntryWins(s, arr, i + 1, Assign(acc, key, value), j, k, v);
    } else {
      AssignLooksUp(acc, k, v, k);
      OtherKeysStay(s, arr, i + 1, Assign(acc, k, v), k);
    }
  }

  /** A struct is read if and only if each member is; otherwise the first that is not decides the failure. */
  lemma {:induction false} MembersReadIff(ms: seq<Member>, obj: Json, fs: seq<Value>)
    ensures DecodeMembers(ms, obj) == Success(fs)
            <==> |fs| == |ms| && forall p :: 0 <= p < |ms| ==> DecodeMember(ms[p], obj) == Success(fs[p])
    ensures DecodeMembers(ms, obj).Failure? ==>
      exists p :: 0 <= p < |ms| && FailsFirst(ms, obj, p, DecodeMembers(ms, obj).error)
  {
    if ms != [] {
      var rest := if fs == [] then [] else fs[1..];
      MembersReadIff(ms[1..], obj, rest);
      var f, more := DecodeMember(ms[0], obj), DecodeMembers(ms[1..], obj);
      if f.Failure? {
        assert FailsFirst(ms, obj, 0, f.error);
      } else {
        assert fs != [] && fs[0] == f.value ==> fs == [f.value] + fs[1..];
        if more.Failure? {
          var p :| 0 <= p < |ms[1..]| && FailsFirst(ms[1..], obj, p, more.error);
          assert FailsFirst(ms, obj, p + 1, more.error);
        }
      }
    }
  }

  ghost predicate FailsFirst(ms: seq<Member>, obj: Json, p: nat, e: Failed)
    requires p < |ms|
  {
    DecodeMember(ms[p], obj) == Failure(e) && forall q :: 0 <= q < p ==> DecodeMember(ms[q], obj).Success?
  }

  // ----- names

  /** The names of an object are listed in ascending order. */
  lemma {:induction false} NamesAscend(names: set<string>)
    ensures var s := SortedNames(names);
            forall i, j :: 0 <= i < j < |s| ==> s[i] != s[j] && Precedes(s[i], s[j])
    decreases |names|
  {
    if names != {} {
      var s := SortedNames(names);
      assert s[0] in names && s == [s[0]] + SortedNames(names - {s[0]});
      NamesAscend(names - {s[0]});
      forall i, j | 0 <= i < j < |s|
        ensures s[i] != s[j] && Precedes(s[i], s[j])
      {
        assert s[j] in SortedNames(names - {s[0]});
      }
    }
  }

  /** A name precedes another if it is a prefix of it or has the smaller character where they first differ. */
  lemma PrecedesMeans(a: string, b: string)
    ensures Precedes(a, b) <==> a <= b || exists k :: SmallerAt(a, b, k)
  {
    if Precedes(a, b) && !(a <= b) {
      var k := SmallerWhere(a, b);
    }
    if a <= b {
      PrefixPrecedes(a, b);
    }
    if k :| SmallerAt(a, b, k) {
      SmallerPrecedes(a, b, k);
    }
  }

  ghost predicate SmallerAt(a: string, b: string, k: nat) {
    k < |a| && k < |b| && a[..k] == b[..k] && a[k] < b[k]
  }

  lemma {:induction false} SmallerWhere(a: string, b: string) returns (k: nat)
    requires Precedes(a, b) && !(a <= b)
    ensures SmallerAt(a, b, k)
  {
    k := 0;
    if a[0] == b[0] {
      assert a == [a[0]] + a[1..] && b == [b[0]] + b[1..];
      var j := SmallerWhere(a[1..], b[1..]);
      k := j + 1;
      assert a[..k] == [a[0]] + a[1..][..j] && b[..k] == [b[0]] + b[1..][..j];
    }
  }

  lemma {:induction false} PrefixPrecedes(a: string, b: string)
    requires a <= b
    ensures Precedes(a, b)
  {
    if a != [] {
      PrefixPrecedes(a[1..], b[1..]);
    }
  }

  lemma {:induction false} SmallerPrecedes(a: string, b: string, k: nat)
    requires SmallerAt(a, b, k)
    ensures Precedes(a, b)
  {
    if k > 0 {
      assert a[0] == a[..k][0] == b[..k][0] == b[0];
      assert a[1..][..k - 1] == a[..k][1..] == b[..k][1..] == b[1..][..k - 1];
      SmallerPrecedes(a[1..], b[1..], k - 1);
    }
  }

  function LookupName(es: seq<Named>, k: string): Option<Value> {
    if es == [] then None else if es[0].name == k then Some(es[0].value) else LookupName(es[1..], k)
  }

  lemma {:induction false} AssignNameLooksUp(es: seq<Named>, k: string, v: Value, x: string)
    ensures LookupName(AssignNamed(es, k, v), x) == if x == k then Some(v) else LookupName(es, x)
  {
    if es != [] && es[0].name != k {
      AssignNameLooksUp(es[1..], k, v, x);
      assert AssignNamed(es, k, v)[1..] == AssignNamed(es[1..], k, v);
    } else if es != [] {
      assert AssignNamed(es, k, v)[1..] == es[1..];
    }
  }

  /** The names of one entry of a string-keyed map are read if and only if each is. */
  lemma {:induction false} NamesReadIff(e: Schema, obj: Json, names: seq<string>, acc: seq<Named>)
    ensures DecodeNames(e, obj, names, acc).Success? <==> forall n :: n in names ==> DecodeElement(e, obj, n).Success?
    decreases |names|
  {
    if names != [] {
      assert names == [names[0]] + names[1..];
      assert names[0] in names;
      if DecodeElement(e, obj, names[0]).Success? {
        NamesReadIff(e, obj, names[1..], AssignNamed(acc, names[0], DecodeElement(e, obj, names[0]).value));
      }
    }
  }

  /** Each of them has what is read under it; other names keep what they had. */
  lemma {:induction false} NamesLookUp(e: Schema, obj: Json, names: seq<string>, acc: seq<Named>, x: string)
    requires DecodeNames(e, obj, names, acc).Success?
    ensures var r := LookupName(DecodeNames(e, obj, names, acc).value, x);
            if x in names then DecodeElement(e, obj, x).Success? && r == Some(DecodeElement(e, obj, x).value)
            else r == LookupName(acc, x)
    decreases |names|
  {
    if names != [] {
      var v := DecodeElement(e, obj, names[0]).value;
      NamesLookUp(e, obj, names[1..], AssignNamed(acc, names[0], v), x);
      AssignNameLooksUp(acc, names[0], v, x);
      assert names == [names[0]] + names[1..];
    }
  }

  /** An entry of a string-keyed map: an object whose members can all be read, or nothing at all. */
  ghost predicate IsNamedEntry(e: Schema, j: Json) {
    if j.Object? then forall n :: n in j.members ==> DecodeElement(e, j, n).Success? else j == Null || j == Array([])
  }

  ghost predicate AllNamedEntries(e: Schema, arr: Json, i: nat)
    requires arr.Array?
  {
    forall k :: i <= k < |arr.items| ==> IsNamedEntry(e, arr.items[k])
  }

  lemma AllNamedEntriesStep(e: Schema, arr: Json, i: nat)
    requires arr.Array? && i < |arr.items|
    ensures AllNamedEntries(e, arr, i) <==> IsNamedEntry(e, arr.items[i]) && AllNamedEntries(e, arr, i + 1)
  {
  }

  lemma NamedEntryStep(s: Schema, arr: Json, i: nat, acc: seq<Named>)
    requires s.SStringMap? && arr.Array? && i < |arr.items|
    ensures var j := arr.items[i];
            if IsNamedEntry(s.mapped, j) then
              && AvailableNames(j).Success? && DecodeNames(s.mapped, j, AvailableNames(j).value, acc).Success?
              && DecodeStringMap(s, arr, i, acc)
                 == DecodeStringMap(s, arr, i + 1, DecodeNames(s.mapped, j, AvailableNames(j).value, acc).value)
            else
              DecodeStringMap(s, arr, i, acc).Failure?
                && (!j.Object? ==> DecodeStringMap(s, arr, i, acc) == Failure(Throws))
  {
    var j := arr.items[i];
    var names := AvailableNames(j);
    if names.Success? {
      NamesReadIff(s.mapped, j, names.value, acc);
      assert j.Array? ==> j.items == [];
    }
  }

  /** A string-keyed map is read if and only if each slot from the cursor on holds such an entry. */
  lemma {:induction false} StringMapReadsIff(s: Schema, arr: Json, i: nat, acc: seq<Named>)
    requires s.SStringMap? && arr.Array? && i <= |arr.items|
    ensures DecodeStringMap(s, arr, i, acc).Success? <==> AllNamedEntries(s.mapped, arr, i)
    decreases |arr.items| - i
  {
    if i < |arr.items| {
      AllNamedEntriesStep(s.mapped, arr, i);
      NamedEntryStep(s, arr, i, acc);
      if IsNamedEntry(s.mapped, arr.items[i]) {
        var j := arr.items[i];
        StringMapReadsIff(s, arr, i + 1, DecodeNames(s.mapped, j, AvailableNames(j).value, acc).value);
      }
    }
  }

  ghost predicate Names(j: Json, n: string) {
    j.Object? && n in j.members
  }

  /** A name that no further slot has keeps what it had. */
  lemma {:induction false} OtherNamesStay(s: Schema, arr: Json, i: nat, acc: seq<Named>, x: string)
    requires s.SStringMap? && arr.Array? && i <= |arr.items| && DecodeStringMap(s, arr, i, acc).Success?
    requires forall j :: i <= j < |arr.items| ==> !Names(arr.items[j], x)
    ensures LookupName(DecodeStringMap(s, arr, i, acc).value, x) == LookupName(acc, x)
    decreases |arr.items| - i
  {
    if i < |arr.items| {
      NamedEntryStep(s, arr, i, acc);
      var j := arr.items[i];
      var names := AvailableNames(j).value;
      NamesLookUp(s.mapped, j, names, acc, x);
      assert !Names(j, x);
      OtherNamesStay(s, arr, i + 1, DecodeNames(s.mapped, j, names, acc).value, x);
    }
  }

  /** A name has what is read from the last slot with that name. */
  lemma {:induction false} LastNameWins(s: Schema, arr: Json, i: nat, acc: seq<Named>, j: nat, x: string)
    requires s.SStringMap? && arr.Array? && i <= j < |arr.items| && DecodeStringMap(s, arr, i, acc).Success?
    requires Names(arr.items[j], x) && forall m :: j < m < |arr.items| ==> !Names(arr.items[m], x)
    ensures var r := LookupName(DecodeStringMap(s, arr, i, acc).value, x);
            r.Some? && DecodeElement(s.mapped, arr.items[j], x) == Success(r.value)
    decreases j - i
  {
    NamedEntryStep(s, arr, i, acc);
    var names := AvailableNames(arr.items[i]).value;
    var acc' := DecodeNames(s.mapped, arr.items[i], names, acc).value;
    if i < j {
      LastNameWins(s, arr, i + 1, acc', j, x);
    } else {
      NamesLookUp(s.mapped, arr.items[i], names, acc, x);
      OtherNamesStay(s, arr, i + 1, acc', x);
    }
  }
}
