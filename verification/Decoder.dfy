/**
 The readers and decoders as the source writes them: a cursor that moves, loops
 that run until it is complete, and a `try` around every optional. They compute
 the functions of module Decoding wherever those do not say that a loop hangs.
 */
module Decoder {

  import opened Decoding
  import opened Results
  import opened Schemas

  /** JsonArrayDeserializer. */
  class ArrayReader {
    const json: Json
    var index: nat

    constructor (json: Json)
      ensures this.json == json && index == 0
    {
      this.json := json;
      index := 0;
    }

    method Value() returns (r: Result<Json, Failed>)
      requires index <= Size(json)
      modifies this
      ensures (r, index) == TakeValue(json, old(index))
    {
      if index < Size(json) {
        if !json.Array? {
          return Failure(Throws);
        }
        var element := json.items[index];
        if IsPrimitive(element) {
          index := index + 1;
          return Success(element);
        }
      }
      return Success(Null);
    }

    /** `deserializeStruct` and `deserializeArray`, which differ in the reader they build. */
    method Deserialize() returns (r: Result<Option<Json>, Failed>)
      requires index <= Size(json)
      modifies this
      ensures (r, index) == TakeChild(json, old(index))
    {
      if index < Size(json) {
        index := index + 1;
        if !json.Array? {
          return Failure(Throws);
        }
        return Success(Some(json.items[index - 1]));
      }
      return Success(None);
    }

    predicate IsComplete()
      reads this
    {
      index == Size(json)
    }
  }

  ghost function Prepend<T>(done: seq<T>, rest: Result<seq<T>, Failed>): Result<seq<T>, Failed> {
    match rest
    case Failure(e) => Failure(e)
    case Success(vs) => Success(done + vs)
  }

  lemma PrependStep<T>(done: seq<T>, v: T, rest: Result<seq<T>, Failed>)
    ensures Prepend(done, Prepend([v], rest)) == Prepend(done + [v], rest)
  {
    if rest.Success? {
      assert done + ([v] + rest.value) == done + [v] + rest.value;
    }
  }

  lemma PrependEnds<T>(done: seq<T>, rest: Result<seq<T>, Failed>)
    ensures Prepend([], rest) == rest && Prepend(done, Success([])) == Success(done)
  {
    assert done + [] == done;
    if rest.Success? {
      assert [] + rest.value == rest.value;
    }
  }

  /** `deserializeElement` on a struct deserializer. */
  method DecodeElementFrom(obj: Json, name: string, s: Schema) returns (r: Result<Value, Failed>)
    requires DecodeElement(s, obj, name) != Failure(Hangs)
    ensures r == DecodeElement(s, obj, name)
    decreases s, 3, 0
  {
    if IsLeaf(s) {
      var any := ReadValue(obj, name);
      if any.Failure? {
        return Failure(any.error);
      }
      return Extract(s, any.value);
    }
    var child := Find(obj, name);
    if s.SOptional? {
      if child.None? {
        return Success(VNone);
      }
      var inner := DecodeElementFrom(obj, name, s.inner);
      return OrNone(inner);
    }
    if child.None? {
      return Failure(if s.SList? then Throws else Aborts);
    }
    r := DecodeNode(s, child.value);
  }

  /** `deserialize` on an array deserializer. */
  method DecodeItemFrom(reader: ArrayReader, s: Schema) returns (r: Result<Value, Failed>)
    requires reader.index <= Size(reader.json)
    requires DecodeItem(s, reader.json, reader.index).0 != Failure(Hangs)
    modifies reader
    ensures (r, reader.index) == DecodeItem(s, reader.json, old(reader.index))
    decreases s, 3, 0
  {
    if IsLeaf(s) {
      var any := reader.Value();
      if any.Failure? {
        return Failure(any.error);
      }
      return Extract(s, any.value);
    }
    if s.SOptional? {
      var more := NextExists(reader.json, reader.index);
      if more.Failure? {
        return Failure(more.error);
      }
      if more.value {
        r := DecodeItemFrom(reader, s.inner);
        if r != Failure(Throws) {
          return OrNone(r);
        }
      }
      var skipped := reader.Value();
      if skipped.Failure? {
        return Failure(skipped.error);
      }
      return Success(VNone);
    }
    var child := reader.Deserialize();
    if child.Failure? {
      return Failure(child.error);
    }
    if child.value.None? {
      return Failure(Aborts);
    }
    r := DecodeNode(s, child.value.value);
  }

  /** A nested array or object, through a reader of its own. */
  method DecodeNode(s: Schema, child: Json) returns (r: Result<Value, Failed>)
    requires !IsLeaf(s) && !s.SOptional? && DecodeChild(s, child) != Failure(Hangs)
    ensures r == DecodeChild(s, child)
    decreases s, 2, 0
  {
    var reader := new ArrayReader(child);
    match s
    case SList(_) =>
      var vs := DecodeListFrom(reader, s);
      return if vs.Success? then Success(VList(vs.value)) else Failure(vs.error);
    case STuple(es) =>
      var vs := DecodeTupleFrom(reader, es);
      return if vs.Success? then Success(VTuple(vs.value)) else Failure(vs.error);
    case SMap(_, _) =>
      var es := DecodeMapFrom(reader, s, []);
      return if es.Success? then Success(VMap(es.value)) else Failure(es.error);
    case SStringMap(_) =>
      var es := DecodeStringMapFrom(reader, s);
      return if es.Success? then Success(VStringMap(es.value)) else Failure(es.error);
    case SStruct(ms) =>
      var fs := DecodeMembersFrom(child, ms);
      return if fs.Success? then Success(VStruct(fs.value)) else Failure(fs.error);
  }

  method DecodeListFrom(reader: ArrayReader, s: Schema) returns (r: Result<seq<Value>, Failed>)
    requires s.SList? && reader.index == 0 && DecodeList(s, reader.json, 0) != Failure(Hangs)
    modifies reader
    ensures r == DecodeList(s, reader.json, 0)
    decreases s, 1, 0
  {
    var node: seq<Value> := [];
    PrependEnds(node, DecodeList(s, reader.json, 0));
    while !reader.IsComplete()
      invariant reader.index <= Size(reader.json)
      invariant DecodeList(s, reader.json, 0) == Prepend(node, DecodeList(s, reader.json, reader.index))
      decreases Size(reader.json) - reader.index
    {
      ghost var i := reader.index;
      var item := DecodeItemFrom(reader, s.elem);
      if item.Failure? {
        return Failure(item.error);
      }
      PrependStep(node, item.value, DecodeList(s, reader.json, reader.index));
      assert DecodeList(s, reader.json, i) ==
        if reader.index == i then Failure(Hangs)
        else Prepend([item.value], DecodeList(s, reader.json, reader.index));
      node := node + [item.value];
    }
    PrependEnds(node, Success([]));
    return Success(node);
  }

  method DecodeTupleFrom(reader: ArrayReader, es: seq<Schema>) returns (r: Result<seq<Value>, Failed>)
    requires reader.index <= Size(reader.json)
    requires DecodeTuple(es, reader.json, reader.index) != Failure(Hangs)
    modifies reader
    ensures r == DecodeTuple(es, reader.json, old(reader.index))
    decreases es, 0, 0
  {
    if es == [] {
      return Success([]);
    }
    var item := DecodeItemFrom(reader, es[0]);
    if item.Failure? {
      return Failure(item.error);
    }
    var rest := DecodeTupleFrom(reader, es[1..]);
    return if rest.Success? then Success([item.value] + rest.value) else Failure(rest.error);
  }

  /** The map is not cleared: `entries` is what it holds already. */
  method DecodeMapFrom(reader: ArrayReader, s: Schema, entries: seq<Entry>) returns (r: Result<seq<Entry>, Failed>)
    requires s.SMap? && reader.index == 0 && DecodeMap(s, reader.json, 0, entries) != Failure(Hangs)
    modifies reader
    ensures r == DecodeMap(s, reader.json, 0, entries)
    decreases s, 1, 0
  {
    var node := entries;
    while !reader.IsComplete()
      invariant reader.index <= Size(reader.json)
      invariant DecodeMap(s, reader.json, 0, entries) == DecodeMap(s, reader.json, reader.index, node)
      decreases Size(reader.json) - reader.index
    {
      var child := reader.Deserialize();
      if child.Failure? {
        return Failure(child.error);
      }
      var k := DecodeElementFrom(child.value.value, KEY_NAME, s.key);
      if k.Failure? {
        return Failure(k.error);
      }
      var v := DecodeElementFrom(child.value.value, VALUE_NAME, s.mapped);
      if v.Failure? {
        return Failure(v.error);
      }
      node := Assign(node, k.value, v.value);
    }
    return Success(node);
  }

  method DecodeStringMapFrom(reader: ArrayReader, s: Schema) returns (r: Result<seq<Named>, Failed>)
    requires s.SStringMap? && reader.index == 0 && DecodeStringMap(s, reader.json, 0, []) != Failure(Hangs)
    modifies reader
    ensures r == DecodeStringMap(s, reader.json, 0, [])
    decreases s, 1, 0
  {
    var node: seq<Named> := [];
    while !reader.IsComplete()
      invariant reader.index <= Size(reader.json)
      invariant DecodeStringMap(s, reader.json, 0, []) == DecodeStringMap(s, reader.json, reader.index, node)
      decreases Size(reader.json) - reader.index
    {
      var child := reader.Deserialize();
      if child.Failure? {
        return Failure(child.error);
      }
      var names := AvailableNames(child.value.value);
      if names.Failure? {
        return Failure(names.error);
      }
      var stored := DecodeNamesFrom(child.value.value, s.mapped, names.value, node);
      if stored.Failure? {
        return Failure(stored.error);
      }
      node := stored.value;
    }
    return Success(node);
  }

  /** `std::for_each` over the stored keys. */
  method DecodeNamesFrom(obj: Json, e: Schema, names: seq<string>, acc: seq<Named>)
      returns (r: Result<seq<Named>, Failed>)
    requires DecodeNames(e, obj, names, acc) != Failure(Hangs)
    ensures r == DecodeNames(e, obj, names, acc)
    decreases e, 4, 0
  {
    var node := acc;
    assert names[0..] == names;
    for i := 0 to |names|
      invariant DecodeNames(e, obj, names, acc) == DecodeNames(e, obj, names[i..], node)
    {
      assert names[i..][0] == names[i] && names[i..][1..] == names[i + 1..];
      var v := DecodeElementFrom(obj, names[i], e);
      if v.Failure? {
        return Failure(v.error);
      }
      node := AssignNamed(node, names[i], v.value);
    }
    return Success(node);
  }

  /** The member loop of `deserialize`, into a fresh object. */
  method DecodeMembersFrom(obj: Json, ms: seq<Member>) returns (r: Result<seq<Value>, Failed>)
    requires DecodeMembers(ms, obj) != Failure(Hangs)
    ensures r == DecodeMembers(ms, obj)
    decreases ms, 0, 0
  {
    var fields: seq<Value> := [];
    assert ms[0..] == ms;
    PrependEnds(fields, DecodeMembers(ms, obj));
    for i := 0 to |ms|
      invariant DecodeMembers(ms, obj) == Prepend(fields, DecodeMembers(ms[i..], obj))
    {
      assert ms[i..][0] == ms[i] && ms[i..][1..] == ms[i + 1..];
      var f := DecodeMemberFrom(obj, ms[i]);
      if f.Failure? {
        return Failure(f.error);
      }
      PrependStep(fields, f.value, DecodeMembers(ms[i + 1..], obj));
      fields := fields + [f.value];
    }
    PrependEnds(fields, Success([]));
    return Success(fields);
  }

  method DecodeMemberFrom(obj: Json, m: Member) returns (r: Result<Value, Failed>)
    requires DecodeMember(m, obj) != Failure(Hangs)
    ensures r == DecodeMember(m, obj)
    decreases m, 0, 0
  {
    match m
    case Typed(name, s) => r := DecodeElementFrom(obj, name, s);
    case Custom(name, s, _, from) =>
      var v := DecodeElementFrom(obj, name, s);
      return if v.Success? then Success(from(v.value)) else v;
    case Ancestor(base) =>
      var fs := DecodeMembersFrom(obj, base);
      return if fs.Success? then Success(VStruct(fs.value)) else Failure(fs.error);
  }
}
