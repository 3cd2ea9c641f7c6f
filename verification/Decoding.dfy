/**
 What the JSON readers and the decoders of ObjectAssembler compute, as functions
 of a tree and a cursor position, for every tree, well-formed or not.
 */
module Decoding {

  import opened Results
  import opened Schemas

  /** An exception, a failed assertion, or a loop that makes no progress and never ends. */
  datatype Failed = Throws | Aborts | Hangs

  // ----- names in the order of std::map

  predicate Precedes(a: string, b: string) {
    a == [] || (b != [] && (a[0] < b[0] || (a[0] == b[0] && Precedes(a[1..], b[1..]))))
  }

  lemma {:induction false} PrecedesIsOrder(a: string, b: string, c: string)
    ensures Precedes(a, b) || Precedes(b, a)
    ensures Precedes(a, b) && Precedes(b, a) ==> a == b
    ensures Precedes(a, b) && Precedes(b, c) ==> Precedes(a, c)
    decreases |a|
  {
    if a == [] {
    } else {
      PrecedesIsOrder(a[1..], if b == [] then [] else b[1..], if c == [] then [] else c[1..]);
      if b != [] {
        assert a == [a[0]] + a[1..] && b == [b[0]] + b[1..];
      }
    }
  }

  lemma {:induction false} LeastExists(names: set<string>) returns (k: string)
    requires names != {}
    ensures k in names && forall x :: x in names ==> Precedes(k, x)
  {
    var first :| first in names;
    PrecedesIsOrder(first, first, first);
    k := first;
    var rest := names - {first};
    if rest != {} {
      var least := LeastExists(rest);
      PrecedesIsOrder(first, least, least);
      if Precedes(least, first) {
        k := least;
      }
      forall x | x in names
        ensures Precedes(k, x)
      {
        PrecedesIsOrder(first, least, x);
        assert x == first || x in rest;
      }
    } else {
      assert forall x :: x in names && x != first ==> x in rest;
    }
  }

  lemma LeastIsUnique(names: set<string>)
    requires names != {}
    ensures exists k :: k in names && forall x :: x in names ==> Precedes(k, x)
    ensures forall k, l :: k in names && l in names && Precedes(k, l) && Precedes(l, k) ==> k == l
  {
    var least := LeastExists(names);
    forall k, l | k in names && l in names && Precedes(k, l) && Precedes(l, k)
      ensures k == l
    {
      PrecedesIsOrder(k, l, l);
    }
  }

  function SortedNames(names: set<string>): (s: seq<string>)
    ensures forall x :: x in s <==> x in names
    ensures |s| == |names|
  {
    if names == {} then []
    else
      LeastIsUnique(names);
      var k: string :| k in names && forall x :: x in names ==> Precedes(k, x);
      [k] + SortedNames(names - {k})
  }

  // ----- primitive reads

  predicate IsPrimitive(j: Json) {
    !j.Array? && !j.Object?
  }

  /** The number of items a reader constructed on `j` believes to have. */
  function Size(j: Json): nat {
    match j
    case Array(items) => |items|
    case Object(members) => |members|
    case Null => 0
    case _ => 1
  }

  /** A non-null member of an object; anything but an object has none. */
  function Find(obj: Json, name: string): Option<Json> {
    if obj.Object? && name in obj.members && obj.members[name] != Null then Some(obj.members[name]) else None
  }

  /** `value(name)`: Null stands for the empty result. */
  function ReadValue(obj: Json, name: string): Result<Json, Failed> {
    if obj.Object? then
      var j := if name in obj.members then obj.members[name] else Null;
      Success(if IsPrimitive(j) then j else Null)
    else if obj.Null? then Success(Null)
    else Failure(Throws)
  }

  function AvailableNames(obj: Json): Result<seq<string>, Failed> {
    if obj.Object? then Success(SortedNames(obj.members.Keys))
    else if Size(obj) == 0 then Success([])
    else Failure(Throws)
  }

  /** `value()`: the cursor moves only when a primitive was returned. */
  function TakeValue(arr: Json, i: nat): (r: (Result<Json, Failed>, nat))
    requires i <= Size(arr)
    ensures i <= r.1 <= Size(arr)
  {
    if i == Size(arr) then (Success(Null), i)
    else if !arr.Array? then (Failure(Throws), i)
    else if IsPrimitive(arr.items[i]) then (Success(arr.items[i]), i + 1)
    else (Success(Null), i)
  }

  /** `deserializeStruct()` and `deserializeArray()`: the item, or None for a null pointer at the end. */
  function TakeChild(arr: Json, i: nat): (r: (Result<Option<Json>, Failed>, nat))
    requires i <= Size(arr)
    ensures i <= r.1 <= Size(arr)
  {
    if i == Size(arr) then (Success(None), i)
    else if !arr.Array? then (Failure(Throws), i + 1)
    else (Success(Some(arr.items[i])), i + 1)
  }

  function NextExists(arr: Json, i: nat): Result<bool, Failed>
    requires i <= Size(arr)
  {
    if i == Size(arr) then Success(false)
    else if !arr.Array? then Failure(Throws)
    else Success(arr.items[i] != Null)
  }

  /** `extractCorrectValueOfType` for integers. */
  function ExtractInt(any: Json, w: IntType): Result<int, Failed> {
    match any
    case Signed(v) =>
      if w.IsUnsigned() then
        if v < 0 || v > w.Max() then Failure(Throws) else Success(v)
      else
        if v < w.Min() || v > w.Max() then Failure(Throws) else Success(v)
    case Unsigned(v) => if v > w.Max() then Failure(Throws) else Success(v)
    case _ => Failure(Throws)
  }

  /** A primitive read as a value of a primitive type. */
  function Extract(s: Schema, any: Json): Result<Value, Failed>
    requires s.SBool? || s.SInt? || s.SFloat? || s.SString? || s.SEnum?
  {
    match s
    case SBool => if any.Bool? then Success(VBool(any.b)) else Failure(Throws)
    case SInt(w) =>
      (match ExtractInt(any, w)
       case Failure(e) => Failure(e)
       case Success(i) => Success(VInt(i)))
    case SFloat =>
      if any.Float? then Success(VFloat(any.r))
      else if any.Unsigned? then Success(VFloat(any.n as real))
      else if any.Signed? then Success(VFloat(any.i as real))
      else Failure(Throws)
    case SString => if any.Text? then Success(VString(any.s)) else Failure(Throws)
    case SEnum(names) =>
      if !any.Text? then Failure(Throws)
      else
        match ValueOf(names, any.s)
        case None => Failure(Throws)
        case Some(e) => Success(VEnum(e))
  }

  predicate IsLeaf(s: Schema) {
    s.SBool? || s.SInt? || s.SFloat? || s.SString? || s.SEnum?
  }

  // ----- associative containers

  /** `node[key] = value`. */
  function Assign(es: seq<Entry>, k: Value, v: Value): seq<Entry> {
    if es == [] then [Entry(k, v)]
    else if es[0].key == k then [Entry(k, v)] + es[1..]
    else [es[0]] + Assign(es[1..], k, v)
  }

  function AssignNamed(es: seq<Named>, k: string, v: Value): seq<Named> {
    if es == [] then [Named(k, v)]
    else if es[0].name == k then [Named(k, v)] + es[1..]
    else [es[0]] + AssignNamed(es[1..], k, v)
  }

  // ----- decoders

  /** `deserializeElement`: the member of an object. */
  function DecodeElement(s: Schema, obj: Json, name: string): Result<Value, Failed>
    decreases s, 3, 0
  {
    if IsLeaf(s) then
      var any :- ReadValue(obj, name);
      Extract(s, any)
    else if s.SOptional? then
      if Find(obj, name).None? then Success(VNone)
      else OrNone(DecodeElement(s.inner, obj, name))
    else
      match Find(obj, name)
      case None => Failure(if s.SList? then Throws else Aborts)
      case Some(child) => DecodeChild(s, child)
  }

  /** A decoded optional swallows every exception. */
  function OrNone(r: Result<Value, Failed>): Result<Value, Failed> {
    match r
    case Success(v) => Success(VSome(v))
    case Failure(Throws) => Success(VNone)
    case Failure(e) => Failure(e)
  }

  /** The contents of a nested array or object. */
  function DecodeChild(s: Schema, child: Json): Result<Value, Failed>
    requires !IsLeaf(s) && !s.SOptional?
    decreases s, 2, 0
  {
    match s
    case SList(_) => var vs :- DecodeList(s, child, 0); Success(VList(vs))
    case STuple(es) => var vs :- DecodeTuple(es, child, 0); Success(VTuple(vs))
    case SMap(_, _) => var es :- DecodeMap(s, child, 0, []); Success(VMap(es))
    case SStringMap(_) => var es :- DecodeStringMap(s, child, 0, []); Success(VStringMap(es))
    case SStruct(ms) => var fs :- DecodeMembers(ms, child); Success(VStruct(fs))
  }

  /** `deserialize`: the item of an array at the cursor, and the cursor afterwards. */
  function DecodeItem(s: Schema, arr: Json, i: nat): (r: (Result<Value, Failed>, nat))
    requires i <= Size(arr)
    ensures i <= r.1 <= Size(arr)
    decreases s, 3, 0
  {
    if IsLeaf(s) then
      var (any, i') := TakeValue(arr, i);
      (match any
       case Failure(e) => Failure(e)
       case Success(j) => Extract(s, j), i')
    else if s.SOptional? then
      match NextExists(arr, i)
      case Failure(e) => (Failure(e), i)
      case Success(exists') =>
        if exists' then
          var (r, i') := DecodeItem(s.inner, arr, i);
          if r == Failure(Throws) then SkipValue(arr, i') else (OrNone(r), i')
        else SkipValue(arr, i)
    else
      var (child, i') := TakeChild(arr, i);
      (match child
       case Failure(e) => Failure(e)
       case Success(None) => Failure(Aborts)
       case Success(Some(j)) => DecodeChild(s, j), i')
  }

  /** `deserializer.value(); node = Optional<T>();` */
  function SkipValue(arr: Json, i: nat): (r: (Result<Value, Failed>, nat))
    requires i <= Size(arr)
    ensures i <= r.1 <= Size(arr)
  {
    var (any, i') := TakeValue(arr, i);
    (match any
     case Failure(e) => Failure(e)
     case Success(_) => Success(VNone), i')
  }

  /** The loop of `deserializeArray`; an item decoded without moving the cursor repeats for ever. */
  function DecodeList(s: Schema, arr: Json, i: nat): Result<seq<Value>, Failed>
    requires s.SList? && i <= Size(arr)
    decreases s, 0, Size(arr) - i
  {
    if i == Size(arr) then Success([])
    else
      var (r, i') := DecodeItem(s.elem, arr, i);
      var v :- r;
      if i' == i then Failure(Hangs)
      else
        var rest :- DecodeList(s, arr, i');
        Success([v] + rest)
  }

  function DecodeTuple(es: seq<Schema>, arr: Json, i: nat): Result<seq<Value>, Failed>
    requires i <= Size(arr)
    decreases es, 0, 0
  {
    if es == [] then Success([])
    else
      var (r, i') := DecodeItem(es[0], arr, i);
      var v :- r;
      var rest :- DecodeTuple(es[1..], arr, i');
      Success([v] + rest)
  }

  function DecodeMap(s: Schema, arr: Json, i: nat, acc: seq<Entry>): Result<seq<Entry>, Failed>
    requires s.SMap? && i <= Size(arr)
    decreases s, 0, Size(arr) - i
  {
    if i == Size(arr) then Success(acc)
    else
      var (child, i') := TakeChild(arr, i);
      match child
      case Failure(e) => Failure(e)
      case Success(None) => Failure(Aborts)
      case Success(Some(j)) =>
        var k :- DecodeElement(s.key, j, KEY_NAME);
        var v :- DecodeElement(s.mapped, j, VALUE_NAME);
        DecodeMap(s, arr, i', Assign(acc, k, v))
  }

  function DecodeStringMap(s: Schema, arr: Json, i: nat, acc: seq<Named>): Result<seq<Named>, Failed>
    requires s.SStringMap? && i <= Size(arr)
    decreases s, 0, Size(arr) - i
  {
    if i == Size(arr) then Success(acc)
    else
      var (child, i') := TakeChild(arr, i);
      match child
      case Failure(e) => Failure(e)
      case Success(None) => Failure(Aborts)
      case Success(Some(j)) =>
        var names :- AvailableNames(j);
        var acc' :- DecodeNames(s.mapped, j, names, acc);
        DecodeStringMap(s, arr, i', acc')
  }

  function DecodeNames(e: Schema, obj: Json, names: seq<string>, acc: seq<Named>): Result<seq<Named>, Failed>
    decreases e, 4, |names|
  {
    if names == [] then Success(acc)
    else
      var v :- DecodeElement(e, obj, names[0]);
      DecodeNames(e, obj, names[1..], AssignNamed(acc, names[0], v))
  }

  /** The members of a struct in order of definition, into a fresh object. */
  function DecodeMembers(ms: seq<Member>, obj: Json): (r: Result<seq<Value>, Failed>)
    ensures r.Success? ==> |r.value| == |ms|
    decreases ms, 0, 0
  {
    if ms == [] then Success([])
    else
      var f :- DecodeMember(ms[0], obj);
      var fs :- DecodeMembers(ms[1..], obj);
      Success([f] + fs)
  }

  function DecodeMember(m: Member, obj: Json): Result<Value, Failed>
    decreases m, 0, 0
  {
    match m
    case Typed(name, s) => DecodeElement(s, obj, name)
    case Custom(name, s, _, from) => var v :- DecodeElement(s, obj, name); Success(from(v))
    case Ancestor(base) => var fs :- DecodeMembers(base, obj); Success(VStruct(fs))
  }
}
