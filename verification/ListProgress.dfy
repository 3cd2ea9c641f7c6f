/**
 How far the array cursor moves: which items leave it where it is, so that the
 list loop never ends, and which take a second slot with them.
 */
module ListProgress {

  import opened Decoding
  import opened Results
  import opened Schemas

  /** The schema inside all optionals. */
  function Core(s: Schema): (c: Schema)
    ensures !c.SOptional?
  {
    if s.SOptional? then Core(s.inner) else s
  }

  /** One or more optionals around a number, boolean, string or enumeration. */
  predicate OptionalLeaf(s: Schema) {
    s.SOptional? && IsLeaf(Core(s))
  }

  /** Inside its optionals an item moves the cursor by one slot, except a leaf that meets an array or object. */
  lemma CoreMoves(s: Schema, arr: Json, i: nat)
    requires !s.SOptional? && arr.Array? && i < |arr.items|
    ensures DecodeItem(s, arr, i).1 == if IsLeaf(s) && !IsPrimitive(arr.items[i]) then i else i + 1
    ensures IsLeaf(s) && !IsPrimitive(arr.items[i]) ==> DecodeItem(s, arr, i).0 == Failure(Throws)
  {
  }

  /** Where the cursor is after an optional: an exception inside makes the reader skip the next primitive as well. */
  lemma {:induction false} OptionalMoves(s: Schema, arr: Json, i: nat)
    requires s.SOptional? && arr.Array? && i < |arr.items|
    ensures var (core, j) := DecodeItem(Core(s), arr, i);
            && DecodeItem(s, arr, i).1
               == (if arr.items[i] == Null then i + 1
                   else if core == Failure(Throws) && j < |arr.items| && IsPrimitive(arr.items[j]) then j + 1
                   else j)
            && (DecodeItem(s, arr, i).0.Success? <==> arr.items[i] == Null || core.Success? || core == Failure(Throws))
            && DecodeItem(s, arr, i).0 != Failure(Throws)
    decreases s
  {
    if s.inner.SOptional? {
      OptionalMoves(s.inner, arr, i);
    }
  }

  /**
   An optional item of any schema takes two slots if and only if its content
   throws after the cursor moved and a primitive follows, which is then lost.
   */
  lemma SkipsSecondIff(s: Schema, arr: Json, i: nat)
    requires s.SOptional? && arr.Array? && i < |arr.items|
    ensures i <= DecodeItem(s, arr, i).1 <= i + 2
    ensures DecodeItem(s, arr, i).1 == i + 2 <==>
              && arr.items[i] != Null && DecodeItem(Core(s), arr, i).0 == Failure(Throws)
              && (IsLeaf(Core(s)) ==> IsPrimitive(arr.items[i]))
              && i + 1 < |arr.items| && IsPrimitive(arr.items[i + 1])
  {
    OptionalMoves(s, arr, i);
    CoreMoves(Core(s), arr, i);
  }

  /** An item is decoded without moving the cursor if and only if it is an optional leaf on an array or object. */
  lemma SticksIff(s: Schema, arr: Json, i: nat)
    requires arr.Array? && i < |arr.items|
    ensures DecodeItem(s, arr, i).0.Success? && DecodeItem(s, arr, i).1 == i
            <==> OptionalLeaf(s) && !IsPrimitive(arr.items[i])
  {
    CoreMoves(Core(s), arr, i);
    if s.SOptional? {
      OptionalMoves(s, arr, i);
    }
  }

  /** From slot `i` on there is a nested array or object. */
  ghost predicate NestedFrom(arr: Json, i: nat)
    requires arr.Array?
  {
    exists k :: i <= k < |arr.items| && !IsPrimitive(arr.items[k])
  }

  /** A list of optional leaves never ends if and only if a nested array or object lies ahead; otherwise it is read. */
  lemma {:induction false} OptionalListHangsIff(s: Schema, arr: Json, i: nat)
    requires s.SList? && OptionalLeaf(s.elem) && arr.Array? && i <= |arr.items|
    ensures DecodeList(s, arr, i) == Failure(Hangs) <==> NestedFrom(arr, i)
    ensures DecodeList(s, arr, i).Success? <==> !NestedFrom(arr, i)
    decreases |arr.items| - i
  {
    if i < |arr.items| {
      SticksIff(s.elem, arr, i);
      OptionalMoves(s.elem, arr, i);
      CoreMoves(Core(s.elem), arr, i);
      LeafFailsByThrowing(Core(s.elem), arr, i);
      if IsPrimitive(arr.items[i]) {
        var j := DecodeItem(s.elem, arr, i).1;
        assert NestedFrom(arr, i) <==> NestedFrom(arr, j);
        OptionalListHangsIff(s, arr, j);
      }
    }
  }

  lemma LeafFailsByThrowing(s: Schema, arr: Json, i: nat)
    requires IsLeaf(s) && arr.Array? && i < |arr.items|
    ensures DecodeItem(s, arr, i).0.Success? || DecodeItem(s, arr, i).0 == Failure(Throws)
  {
  }

  /** No other list stops moving by itself: it hangs only inside one of its items. */
  lemma {:induction false} OnlyOptionalLeavesStick(s: Schema, arr: Json, i: nat)
    requires s.SList? && !OptionalLeaf(s.elem) && arr.Array? && i <= |arr.items|
    requires DecodeList(s, arr, i) == Failure(Hangs)
    ensures exists k: nat :: i <= k < |arr.items| && DecodeItem(s.elem, arr, k).0 == Failure(Hangs)
    decreases |arr.items| - i
  {
    SticksIff(s.elem, arr, i);
    if DecodeItem(s.elem, arr, i).0.Success? {
      OnlyOptionalLeavesStick(s, arr, DecodeItem(s.elem, arr, i).1);
    }
  }

  /** An optional number meets a nested array. */
  lemma OptionalListCanHang()
    ensures DecodeList(SList(SOptional(SInt(Int32))), Array([Array([])]), 0) == Failure(Hangs)
  {
    var arr := Array([Array([])]);
    assert !IsPrimitive(arr.items[0]);
    OptionalListHangsIff(SList(SOptional(SInt(Int32))), arr, 0);
  }

  /** The text is not a number; the number after it is lost with it. */
  lemma OptionalListCanSkip()
    ensures DecodeList(SList(SOptional(SInt(Int32))), Array([Text("x"), Unsigned(7)]), 0) == Success([VNone])
  {
    var s, arr := SList(SOptional(SInt(Int32))), Array([Text("x"), Unsigned(7)]);
    assert DecodeItem(SInt(Int32), arr, 0) == (Failure(Throws), 1);
    assert DecodeItem(s.elem, arr, 0) == (Success(VNone), 2);
    assert DecodeList(s, arr, 2) == Success([]);
    assert [VNone] + [] == [VNone];
  }
}
