/**
 The tree the JSON serializers write into. A serializer holds a reference to a
 node; here the reference is the path to the node. A reference to an array item
 is the result of `back()` and is current only while the item is the last one.
 */
module JsonTree {

  import opened Schemas

  datatype Step = Key(name: string) | Index(i: nat)

  type Handle = seq<Step>

  predicate HasChild(node: Json, st: Step) {
    match st
    case Key(name) => node.Object? && name in node.members
    case Index(i) => node.Array? && i + 1 == |node.items|
  }

  function Child(node: Json, st: Step): Json
    requires HasChild(node, st)
  {
    match st
    case Key(name) => node.members[name]
    case Index(i) => node.items[i]
  }

  function SetChild(node: Json, st: Step, j: Json): Json
    requires HasChild(node, st)
  {
    match st
    case Key(name) => Object(node.members[name := j])
    case Index(i) => Array(node.items[i := j])
  }

  /** The handle may be written through: every array on its path is followed into its last item. */
  predicate Current(root: Json, h: Handle) {
    h == [] || (HasChild(root, h[0]) && Current(Child(root, h[0]), h[1..]))
  }

  function At(root: Json, h: Handle): Json
    requires Current(root, h)
  {
    if h == [] then root else At(Child(root, h[0]), h[1..])
  }

  function Replace(root: Json, h: Handle, j: Json): Json
    requires Current(root, h)
  {
    if h == [] then j else SetChild(root, h[0], Replace(Child(root, h[0]), h[1..], j))
  }

  lemma {:induction false} ReplaceKeepsCurrent(root: Json, h: Handle, j: Json)
    requires Current(root, h)
    ensures Current(Replace(root, h, j), h) && At(Replace(root, h, j), h) == j
  {
    if h == [] {
    } else {
      ReplaceKeepsCurrent(Child(root, h[0]), h[1..], j);
    }
  }

  lemma {:induction false} ReplaceTwice(root: Json, h: Handle, j: Json, k: Json)
    requires Current(root, h) && Current(Replace(root, h, j), h)
    ensures Replace(Replace(root, h, j), h, k) == Replace(root, h, k)
  {
    if h == [] {
    } else {
      ReplaceKeepsCurrent(Child(root, h[0]), h[1..], j);
      ReplaceTwice(Child(root, h[0]), h[1..], j, k);
      var c := Replace(Child(root, h[0]), h[1..], j);
      var d := Replace(Child(root, h[0]), h[1..], k);
      assert SetChild(SetChild(root, h[0], c), h[0], d) == SetChild(root, h[0], d);
    }
  }

  /** Writing through the handle of a child is writing the parent with the child replaced. */
  lemma {:induction false} ReplaceChild(root: Json, h: Handle, st: Step, j: Json)
    requires Current(root, h) && HasChild(At(root, h), st)
    ensures Current(root, h + [st]) && At(root, h + [st]) == Child(At(root, h), st)
    ensures Replace(root, h + [st], j) == Replace(root, h, SetChild(At(root, h), st, j))
  {
    if h == [] {
      assert (h + [st])[1..] == [];
      assert Current(Child(root, st), []);
    } else {
      ReplaceChild(Child(root, h[0]), h[1..], st, j);
      assert (h + [st])[1..] == h[1..] + [st];
    }
  }

  lemma {:induction false} ReplaceSame(root: Json, h: Handle)
    requires Current(root, h)
    ensures Replace(root, h, At(root, h)) == root
  {
    if h == [] {
    } else {
      ReplaceSame(Child(root, h[0]), h[1..]);
    }
  }

  /** Opening a child in a node and then filling it is writing the filled child. */
  lemma FillChild(root: Json, h: Handle, node: Json, st: Step, filled: Json)
    requires Current(root, h) && HasChild(node, st)
    ensures var open := Replace(root, h, node);
            && Current(open, h + [st]) && At(open, h + [st]) == Child(node, st)
            && Replace(open, h + [st], filled) == Replace(root, h, SetChild(node, st, filled))
  {
    ReplaceKeepsCurrent(root, h, node);
    ReplaceChild(Replace(root, h, node), h, st, filled);
    ReplaceTwice(root, h, node, SetChild(node, st, filled));
  }

  /**
   The operations of the struct and array serializers. Each demands that the
   handle it writes through is current.
   */
  class Tree {
    var root: Json

    constructor (root: Json)
      ensures this.root == root
    {
      this.root := root;
    }

    /** `object[name] = j`. */
    method SetMember(h: Handle, name: string, j: Json)
      requires Current(root, h) && At(root, h).Object?
      modifies this
      ensures root == Replace(old(root), h, Object(At(old(root), h).members[name := j]))
    {
      root := Replace(root, h, Object(At(root, h).members[name := j]));
    }

    /**
     `array.push_back(j)`: the reference to the array stays current, the one to
     the new item is, and those to the items before are stale.
     */
    method PushBack(h: Handle, j: Json)
      requires Current(root, h) && At(root, h).Array?
      modifies this
      ensures root == Replace(old(root), h, Array(At(old(root), h).items + [j]))
      ensures Current(root, h) && At(root, h) == Array(At(old(root), h).items + [j])
      ensures forall i: nat :: i <= |At(old(root), h).items| ==>
                (Current(root, h + [Index(i)]) <==> i == |At(old(root), h).items|)
    {
      var items := At(root, h).items;
      ReplaceKeepsCurrent(root, h, Array(items + [j]));
      FillChild(root, h, Array(items + [j]), Index(|items|), j);
      forall i: nat | i < |items|
        ensures !Current(Replace(root, h, Array(items + [j])), h + [Index(i)])
      {
        PushMakesStale(root, h, i, j);
      }
      root := Replace(root, h, Array(items + [j]));
    }

    /** `serializeStruct(name)` and `serializeArray(name)`: an empty node and a reference to it. */
    method OpenMember(h: Handle, name: string, empty: Json) returns (child: Handle)
      requires Current(root, h) && At(root, h).Object?
      modifies this
      ensures root == Replace(old(root), h, Object(At(old(root), h).members[name := empty]))
      ensures child == h + [Key(name)] && Current(root, child) && At(root, child) == empty
    {
      FillChild(root, h, Object(At(root, h).members[name := empty]), Key(name), empty);
      SetMember(h, name, empty);
      child := h + [Key(name)];
    }

    /** `serializeStruct()` and `serializeArray()`: a pushed empty node and a reference to `back()`. */
    method OpenItem(h: Handle, empty: Json) returns (child: Handle)
      requires Current(root, h) && At(root, h).Array?
      modifies this
      ensures root == Replace(old(root), h, Array(At(old(root), h).items + [empty]))
      ensures child == h + [Index(|At(old(root), h).items|)] && Current(root, child) && At(root, child) == empty
    {
      var last := |At(root, h).items|;
      FillChild(root, h, Array(At(root, h).items + [empty]), Index(last), empty);
      PushBack(h, empty);
      child := h + [Index(last)];
    }
  }

  /** A reference taken from an array is stale as soon as the array receives another item. */
  lemma PushMakesStale(root: Json, h: Handle, i: nat, j: Json)
    requires Current(root, h) && At(root, h).Array? && i < |At(root, h).items|
    ensures !Current(Replace(root, h, Array(At(root, h).items + [j])), h + [Index(i)])
  {
    var root' := Replace(root, h, Array(At(root, h).items + [j]));
    ReplaceKeepsCurrent(root, h, Array(At(root, h).items + [j]));
    StaleBelow(root', h, Index(i));
  }

  lemma {:induction false} StaleBelow(root: Json, h: Handle, st: Step)
    requires Current(root, h) && !HasChild(At(root, h), st)
    ensures !Current(root, h + [st])
  {
    if h == [] {
    } else {
      StaleBelow(Child(root, h[0]), h[1..], st);
      assert (h + [st])[1..] == h[1..] + [st];
    }
  }
}
