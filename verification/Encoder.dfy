/**
 The encoders of ObjectAssembler, which write into the tree through handles.
 Every write is through a current handle, and the tree ends up with exactly the
 encoding of the value at the handle and nothing else changed. The result tells
 whether encoding threw on an enumeration value without a name.
 */
module Encoder {

  import opened Decoding
  import opened JsonTree
  import opened Results
  import opened Schemas

  /** Items already in the array, followed by the rest. */
  ghost function Join(js: seq<Json>, rest: Option<seq<Json>>): Option<seq<Json>> {
    match rest
    case None => None
    case Some(ks) => Some(js + ks)
  }

  /** `serializeElement` on a struct serializer. */
  method EncodeElementInto(tree: Tree, h: Handle, name: string, s: Schema, v: Value) returns (ok: bool)
    requires Current(tree.root, h) && At(tree.root, h).Object? && HasType(s, v)
    modifies tree
    ensures ok == Put(s, v, name, At(old(tree.root), h).members).Some?
    ensures ok ==> tree.root == Replace(old(tree.root), h, Object(Put(s, v, name, At(old(tree.root), h).members).value))
    decreases s, 3, 0
  {
    ghost var root := tree.root;
    ghost var members := At(root, h).members;
    if s.SOptional? {
      if v.VNone? {
        ReplaceSame(root, h);
        return true;
      }
      ok := EncodeElementInto(tree, h, name, s.inner, v.v);
    } else if IsLeaf(s) {
      var j := Encode(s, v);
      if j.None? {
        return false;
      }
      tree.SetMember(h, name, j.value);
      return true;
    } else {
      var empty := if s.SStruct? then Object(map[]) else Array([]);
      var child := tree.OpenMember(h, name, empty);
      ok := FillNode(tree, child, s, v);
      if ok {
        var j := Encode(s, v).value;
        FillChild(root, h, Object(members[name := empty]), Key(name), j);
        assert members[name := empty][name := j] == members[name := j];
      }
    }
  }

  /** `serialize` on an array serializer. */
  method EncodeItemInto(tree: Tree, h: Handle, s: Schema, v: Value) returns (ok: bool)
    requires Current(tree.root, h) && At(tree.root, h).Array? && HasType(s, v)
    modifies tree
    ensures ok == EncodeItem(s, v).Some?
    ensures ok ==>
      tree.root == Replace(old(tree.root), h, Array(At(old(tree.root), h).items + [EncodeItem(s, v).value]))
    decreases s, 3, 0
  {
    ghost var root := tree.root;
    ghost var items := At(root, h).items;
    if s.SOptional? {
      if v.VNone? {
        tree.PushBack(h, Null);
        return true;
      }
      ok := EncodeItemInto(tree, h, s.inner, v.v);
    } else if IsLeaf(s) {
      var j := Encode(s, v);
      if j.None? {
        return false;
      }
      tree.PushBack(h, j.value);
      return true;
    } else {
      var empty := if s.SStruct? then Object(map[]) else Array([]);
      var child := tree.OpenItem(h, empty);
      ok := FillNode(tree, child, s, v);
      if ok {
        var j := Encode(s, v).value;
        FillChild(root, h, Array(items + [empty]), Index(|items|), j);
        assert (items + [empty])[|items| := j] == items + [j];
      }
    }
  }

  /** The contents of a freshly open array or object. */
  method FillNode(tree: Tree, h: Handle, s: Schema, v: Value) returns (ok: bool)
    requires HasType(s, v) && !IsLeaf(s) && !s.SOptional?
    requires Current(tree.root, h) && At(tree.root, h) == if s.SStruct? then Object(map[]) else Array([])
    modifies tree
    ensures ok == Encode(s, v).Some?
    ensures ok ==> tree.root == Replace(old(tree.root), h, Encode(s, v).value)
    decreases s, 2, 0
  {
    match s
    case SList(_) => ok := EncodeListInto(tree, h, s, v.items);
    case STuple(es) =>
      ok := EncodeTupleInto(tree, h, es, v.items);
      if ok {
        assert [] + EncodeTuple(es, v.items).value == EncodeTuple(es, v.items).value;
      }
    case SMap(_, _) => ok := EncodeMapInto(tree, h, s, v.entries);
    case SStringMap(_) => ok := EncodeStringMapInto(tree, h, s, v.named);
    case SStruct(ms) => ok := EncodeMembersInto(tree, h, ms, v.fields);
  }

  method EncodeListInto(tree: Tree, h: Handle, s: Schema, vs: seq<Value>) returns (ok: bool)
    requires s.SList? && ListTyped(s, vs)
    requires Current(tree.root, h) && At(tree.root, h) == Array([])
    modifies tree
    ensures ok == EncodeList(s, vs).Some?
    ensures ok ==> tree.root == Replace(old(tree.root), h, Array(EncodeList(s, vs).value))
    decreases s, 1, 0
  {
    ghost var root := tree.root;
    ghost var js: seq<Json> := [];
    ReplaceSame(root, h);
    assert vs[0..] == vs;
    JoinEnds([], EncodeList(s, vs));
    for i := 0 to |vs|
      invariant ListTyped(s, vs[i..]) && EncodeList(s, vs) == Join(js, EncodeList(s, vs[i..]))
      invariant tree.root == Replace(root, h, Array(js))
    {
      ReplaceKeepsCurrent(root, h, Array(js));
      assert vs[i..][0] == vs[i] && vs[i..][1..] == vs[i + 1..];
      ok := EncodeItemInto(tree, h, s.elem, vs[i]);
      if !ok {
        return;
      }
      ghost var j := EncodeItem(s.elem, vs[i]).value;
      ReplaceTwice(root, h, Array(js), Array(js + [j]));
      JoinStep(js, j, EncodeList(s, vs[i + 1..]));
      js := js + [j];
    }
    JoinEnds(js, Some([]));
    return true;
  }

  lemma JoinEnds(js: seq<Json>, rest: Option<seq<Json>>)
    ensures Join([], rest) == rest && Join(js, Some([])) == Some(js)
  {
    assert js + [] == js;
    if rest.Some? {
      assert [] + rest.value == rest.value;
    }
  }

  lemma JoinStep(js: seq<Json>, j: Json, rest: Option<seq<Json>>)
    ensures Join(js, Cons(Some(j), rest)) == Join(js + [j], rest)
  {
    if rest.Some? {
      assert js + ([j] + rest.value) == js + [j] + rest.value;
    }
  }

  /** Recursion over the element index. */
  method EncodeTupleInto(tree: Tree, h: Handle, es: seq<Schema>, vs: seq<Value>) returns (ok: bool)
    requires TupleTyped(es, vs)
    requires Current(tree.root, h) && At(tree.root, h).Array?
    modifies tree
    ensures ok == EncodeTuple(es, vs).Some?
    ensures ok ==>
      tree.root == Replace(old(tree.root), h, Array(At(old(tree.root), h).items + EncodeTuple(es, vs).value))
    decreases es, 0, 0
  {
    ghost var root := tree.root;
    ghost var items := At(root, h).items;
    if es == [] {
      ReplaceSame(root, h);
      assert items + [] == items;
      return true;
    }
    ok := EncodeItemInto(tree, h, es[0], vs[0]);
    if ok {
      ghost var j := EncodeItem(es[0], vs[0]).value;
      ReplaceKeepsCurrent(root, h, Array(items + [j]));
      ok := EncodeTupleInto(tree, h, es[1..], vs[1..]);
      if ok {
        ghost var rest := EncodeTuple(es[1..], vs[1..]).value;
        ReplaceTwice(root, h, Array(items + [j]), Array(items + [j] + rest));
        assert items + ([j] + rest) == items + [j] + rest;
      }
    }
  }

  method EncodeMapInto(tree: Tree, h: Handle, s: Schema, es: seq<Entry>) returns (ok: bool)
    requires s.SMap? && MapTyped(s, es)
    requires Current(tree.root, h) && At(tree.root, h) == Array([])
    modifies tree
    ensures ok == EncodeMap(s, es).Some?
    ensures ok ==> tree.root == Replace(old(tree.root), h, Array(EncodeMap(s, es).value))
    decreases s, 1, 0
  {
    ghost var root := tree.root;
    ghost var js: seq<Json> := [];
    ReplaceSame(root, h);
    assert es[0..] == es;
    JoinEnds([], EncodeMap(s, es));
    for i := 0 to |es|
      invariant MapTyped(s, es[i..]) && EncodeMap(s, es) == Join(js, EncodeMap(s, es[i..]))
      invariant tree.root == Replace(root, h, Array(js))
    {
      ReplaceKeepsCurrent(root, h, Array(js));
      assert es[i..][0] == es[i] && es[i..][1..] == es[i + 1..];
      ok := EncodeEntryInto(tree, h, s, es[i]);
      if !ok {
        return;
      }
      ghost var j := Object(PutEntry(s, es[i]).value);
      ReplaceTwice(root, h, Array(js), Array(js + [j]));
      JoinStep(js, j, EncodeMap(s, es[i + 1..]));
      js := js + [j];
    }
    JoinEnds(js, Some([]));
    return true;
  }

  method EncodeEntryInto(tree: Tree, h: Handle, s: Schema, e: Entry) returns (ok: bool)
    requires s.SMap? && HasType(s.key, e.key) && HasType(s.mapped, e.value)
    requires Current(tree.root, h) && At(tree.root, h).Array?
    modifies tree
    ensures ok == PutEntry(s, e).Some?
    ensures ok ==>
      tree.root == Replace(old(tree.root), h, Array(At(old(tree.root), h).items + [Object(PutEntry(s, e).value)]))
    decreases s, 0, 0
  {
    ghost var root := tree.root;
    ghost var items := At(root, h).items;
    var child := tree.OpenItem(h, Object(map[]));
    ghost var open := tree.root;
    ok := EncodeElementInto(tree, child, KEY_NAME, s.key, e.key);
    if ok {
      ghost var m := Put(s.key, e.key, KEY_NAME, map[]).value;
      ReplaceKeepsCurrent(open, child, Object(m));
      ok := EncodeElementInto(tree, child, VALUE_NAME, s.mapped, e.value);
      if ok {
        ghost var j := Object(PutEntry(s, e).value);
        ReplaceTwice(open, child, Object(m), j);
        FillChild(root, h, Array(items + [Object(map[])]), Index(|items|), j);
        assert (items + [Object(map[])])[|items| := j] == items + [j];
      }
    }
  }

  method EncodeStringMapInto(tree: Tree, h: Handle, s: Schema, es: seq<Named>) returns (ok: bool)
    requires s.SStringMap? && StringMapTyped(s, es)
    requires Current(tree.root, h) && At(tree.root, h) == Array([])
    modifies tree
    ensures ok == EncodeStringMap(s, es).Some?
    ensures ok ==> tree.root == Replace(old(tree.root), h, Array(EncodeStringMap(s, es).value))
    decreases s, 1, 0
  {
    ghost var root := tree.root;
    ghost var js: seq<Json> := [];
    ReplaceSame(root, h);
    assert es[0..] == es;
    JoinEnds([], EncodeStringMap(s, es));
    for i := 0 to |es|
      invariant StringMapTyped(s, es[i..]) && EncodeStringMap(s, es) == Join(js, EncodeStringMap(s, es[i..]))
      invariant tree.root == Replace(root, h, Array(js))
    {
      ReplaceKeepsCurrent(root, h, Array(js));
      assert es[i..][0] == es[i] && es[i..][1..] == es[i + 1..];
      var child := tree.OpenItem(h, Object(map[]));
      ok := EncodeElementInto(tree, child, es[i].name, s.mapped, es[i].value);
      if !ok {
        return;
      }
      ghost var j := Object(Put(s.mapped, es[i].value, es[i].name, map[]).value);
      FillChild(Replace(root, h, Array(js)), h, Array(js + [Object(map[])]), Index(|js|), j);
      assert (js + [Object(map[])])[|js| := j] == js + [j];
      ReplaceTwice(root, h, Array(js), Array(js + [j]));
      JoinStep(js, j, EncodeStringMap(s, es[i + 1..]));
      js := js + [j];
    }
    JoinEnds(js, Some([]));
    return true;
  }

  /** The member loop; an ancestor writes into the same object. */
  method EncodeMembersInto(tree: Tree, h: Handle, ms: seq<Member>, fs: seq<Value>) returns (ok: bool)
    requires MembersTyped(ms, fs)
    requires Current(tree.root, h) && At(tree.root, h).Object?
    modifies tree
    ensures ok == PutMembers(ms, fs, At(old(tree.root), h).members).Some?
    ensures ok ==>
      tree.root == Replace(old(tree.root), h, Object(PutMembers(ms, fs, At(old(tree.root), h).members).value))
    decreases ms, 0, 0
  {
    ghost var root := tree.root;
    ghost var m := At(root, h).members;
    ReplaceSame(root, h);
    for i := 0 to |ms|
      invariant |fs| == |ms| && MembersTyped(ms[i..], fs[i..])
      invariant PutMembers(ms, fs, At(root, h).members) == PutMembers(ms[i..], fs[i..], m)
      invariant tree.root == Replace(root, h, Object(m))
    {
      ReplaceKeepsCurrent(root, h, Object(m));
      assert ms[i..][0] == ms[i] && ms[i..][1..] == ms[i + 1..] && fs[i..][0] == fs[i] && fs[i..][1..] == fs[i + 1..];
      ok := EncodeMemberInto(tree, h, ms[i], fs[i]);
      if !ok {
        return;
      }
      ghost var m' := PutMember(ms[i], fs[i], m).value;
      ReplaceTwice(root, h, Object(m), Object(m'));
      m := m';
    }
    return true;
  }

  method EncodeMemberInto(tree: Tree, h: Handle, m: Member, f: Value) returns (ok: bool)
    requires MemberTyped(m, f)
    requires Current(tree.root, h) && At(tree.root, h).Object?
    modifies tree
    ensures ok == PutMember(m, f, At(old(tree.root), h).members).Some?
    ensures ok ==> tree.root == Replace(old(tree.root), h, Object(PutMember(m, f, At(old(tree.root), h).members).value))
    decreases m, 0, 0
  {
    match m
    case Typed(name, s) => ok := EncodeElementInto(tree, h, name, s, f);
    case Custom(name, s, to, _) => ok := EncodeElementInto(tree, h, name, s, to(f));
    case Ancestor(base) => ok := EncodeMembersInto(tree, h, base, f.fields);
  }
}
