/**
 Serializing and deserializing a chosen set of members. A member pointer is the
 position of its field; pointers into an ancestor are not found.
 */
module PartialMembers {

  import opened Decoder
  import opened Decoding
  import opened Encoder
  import opened Format
  import opened JsonTree
  import opened Overwriting
  import opened Results
  import opened RoundTrip
  import opened Schemas

  predicate Found(ms: seq<Member>, p: nat) {
    p < |ms| && !ms[p].Ancestor?
  }

  /** Pointers to members that `define` or `defineAs` declared are known, those into an ancestor are not. */
  lemma FoundIff(ms: seq<Member>, p: nat)
    ensures Found(ms, p) <==> p < |ms| && (ms[p].Typed? || ms[p].Custom?)
  {
  }

  function NameAt(ms: seq<Member>, p: nat): string
    requires Found(ms, p)
  {
    ms[p].name
  }

  lemma {:induction false} MembersTypedAt(ms: seq<Member>, fs: seq<Value>, p: nat)
    requires MembersTyped(ms, fs) && p < |ms|
    ensures MemberTyped(ms[p], fs[p])
  {
    if p == 0 {
    } else {
      MembersTypedAt(ms[1..], fs[1..], p - 1);
    }
  }

  lemma {:induction false} NameInSet(ms: seq<Member>, p: nat)
    requires p < |ms|
    ensures MemberNames(ms[p]) <= NameSet(ms)
  {
    if p == 0 {
    } else {
      NameInSet(ms[1..], p - 1);
    }
  }

  lemma {:induction false} DistinctAt(ms: seq<Member>, p: nat, q: nat)
    requires DistinctMembers(ms) && p < |ms| && q < |ms|
    ensures DistinctMember(ms[p]) && (p != q ==> MemberNames(ms[p]) !! MemberNames(ms[q]))
  {
    if p > 0 && q > 0 {
      DistinctAt(ms[1..], p - 1, q - 1);
    } else if p > 0 {
      DistinctAt(ms[1..], p - 1, p - 1);
      NameInSet(ms[1..], p - 1);
    } else if q > 0 {
      NameInSet(ms[1..], q - 1);
    }
  }

  /** `partialSerialize`: an unknown pointer throws after the members before it were written. */
  function PutChosen(ms: seq<Member>, fs: seq<Value>, chosen: seq<nat>, obj: map<string, Json>)
    : Option<map<string, Json>>
    requires MembersTyped(ms, fs)
    decreases |chosen|
  {
    if chosen == [] then Some(obj)
    else if !Found(ms, chosen[0]) then None
    else
      MembersTypedAt(ms, fs, chosen[0]);
      match PutMember(ms[chosen[0]], fs[chosen[0]], obj)
      case None => None
      case Some(m) => PutChosen(ms, fs, chosen[1..], m)
  }

  /** `partialDeserialize`: each chosen member is decoded over what its field holds. */
  function DecodeChosen(ms: seq<Member>, fields: seq<Value>, chosen: seq<nat>, obj: Json)
    : (r: Result<seq<Value>, Failed>)
    requires |fields| == |ms|
    ensures r.Success? ==> |r.value| == |ms|
    decreases |chosen|
  {
    if chosen == [] then Success(fields)
    else if !Found(ms, chosen[0]) then Failure(Throws)
    else
      var f :- DecodeMemberOver(ms[chosen[0]], obj, fields[chosen[0]]);
      DecodeChosen(ms, fields[chosen[0] := f], chosen[1..], obj)
  }

  /**
   Chosen members are written if and only if every pointer is known and every
   enumeration value in their fields has a name.
   */
  lemma {:induction false} ChosenEncodeIff(ms: seq<Member>, fs: seq<Value>, chosen: seq<nat>, obj: map<string, Json>)
    requires MembersTyped(ms, fs)
    ensures PutChosen(ms, fs, chosen, obj).Some? <==> forall i :: 0 <= i < |chosen| ==> CanWrite(ms, fs, chosen[i])
    decreases |chosen|
  {
    if chosen != [] {
      assert chosen == [chosen[0]] + chosen[1..];
      if Found(ms, chosen[0]) {
        MembersTypedAt(ms, fs, chosen[0]);
        MemberEncodesIff(ms[chosen[0]], fs[chosen[0]], obj);
        var m := PutMember(ms[chosen[0]], fs[chosen[0]], obj);
        if m.Some? {
          ChosenEncodeIff(ms, fs, chosen[1..], m.value);
          CanWriteAll(ms, fs, chosen);
        } else {
          assert !CanWrite(ms, fs, chosen[0]);
        }
      } else {
        assert !CanWrite(ms, fs, chosen[0]);
      }
    }
  }

  ghost predicate CanWrite(ms: seq<Member>, fs: seq<Value>, p: nat) {
    p < |ms| == |fs| && !ms[p].Ancestor? && MemberTyped(ms[p], fs[p]) && MemberNameable(ms[p], fs[p])
  }

  lemma CanWriteAll(ms: seq<Member>, fs: seq<Value>, chosen: seq<nat>)
    requires chosen != [] && CanWrite(ms, fs, chosen[0])
    ensures (forall i :: 0 <= i < |chosen| ==> CanWrite(ms, fs, chosen[i]))
            <==> forall i :: 0 <= i < |chosen[1..]| ==> CanWrite(ms, fs, chosen[1..][i])
  {
    if forall i :: 0 <= i < |chosen[1..]| ==> CanWrite(ms, fs, chosen[1..][i]) {
      forall i | 0 <= i < |chosen|
        ensures CanWrite(ms, fs, chosen[i])
      {
        assert i > 0 ==> chosen[i] == chosen[1..][i - 1];
      }
    }
  }

  /** Reading chosen members throws at the first unknown pointer, if those before it can be read. */
  lemma {:induction false} UnknownPointerThrows(ms: seq<Member>, fields: seq<Value>, chosen: seq<nat>, obj: Json,
      n: nat)
    requires |fields| == |ms| && n < |chosen|
    requires DecodeChosen(ms, fields, chosen[..n], obj).Success?
    requires chosen[n] >= |ms| || ms[chosen[n]].Ancestor?
    ensures DecodeChosen(ms, fields, chosen, obj) == Failure(Throws)
    decreases n
  {
    if n > 0 {
      assert chosen[..n][0] == chosen[0] && chosen[..n][1..] == chosen[1..][..n - 1];
      var f := DecodeMemberOver(ms[chosen[0]], obj, fields[chosen[0]]).value;
      UnknownPointerThrows(ms, fields[chosen[0] := f], chosen[1..], obj, n - 1);
    }
  }

  ghost predicate AllFound(ms: seq<Member>, chosen: seq<nat>) {
    forall i :: 0 <= i < |chosen| ==> Found(ms, chosen[i])
  }

  // ----- frames

  /** The object keeps every name that was not chosen. */
  lemma {:induction false} PutChosenFrame(ms: seq<Member>, fs: seq<Value>, chosen: seq<nat>, obj: map<string, Json>,
      n: string)
    requires MembersTyped(ms, fs) && PutChosen(ms, fs, chosen, obj).Some?
    ensures AllFound(ms, chosen)
    ensures var m := PutChosen(ms, fs, chosen, obj).value;
            (forall i :: 0 <= i < |chosen| ==> NameAt(ms, chosen[i]) != n) ==>
              (n in m <==> n in obj) && (n in obj ==> m[n] == obj[n])
    decreases |chosen|
  {
    if chosen == [] {
    } else {
      MembersTypedAt(ms, fs, chosen[0]);
      PutMemberFrame(ms[chosen[0]], fs[chosen[0]], obj);
      PutChosenFrame(ms, fs, chosen[1..], PutMember(ms[chosen[0]], fs[chosen[0]], obj).value, n);
      assert forall i :: 0 <= i < |chosen| ==> chosen[i] == if i == 0 then chosen[0] else chosen[1..][i - 1];
      assert forall i :: 0 <= i < |chosen[1..]| ==> chosen[1..][i] == chosen[i + 1];
    }
  }

  /** Every member in `done` is held. */
  ghost predicate AllHeld(ms: seq<Member>, fs: seq<Value>, done: set<nat>, obj: map<string, Json>, text: bool)
    requires MembersTyped(ms, fs)
  {
    forall p :: p in done ==>
      Found(ms, p) && MemberTyped(ms[p], fs[p]) && MemberHeld(ms[p], fs[p], Seen(text, Object(obj)), text)
  }

  /** The object has no names but those of members in `done`. */
  ghost predicate OnlyNames(ms: seq<Member>, done: set<nat>, obj: map<string, Json>) {
    forall n :: n in obj ==> exists p :: p in done && Found(ms, p) && NameAt(ms, p) == n
  }

  ghost predicate HeldAll(ms: seq<Member>, fs: seq<Value>, done: set<nat>, obj: map<string, Json>, text: bool)
    requires MembersTyped(ms, fs)
  {
    AllHeld(ms, fs, done, obj, text) && OnlyNames(ms, done, obj)
  }

  lemma HeldAllStep(ms: seq<Member>, fs: seq<Value>, done: set<nat>, obj: map<string, Json>, p: nat, text: bool)
    requires MembersTyped(ms, fs) && DistinctMembers(ms) && HeldAll(ms, fs, done, obj, text)
    requires Found(ms, p) && MemberTyped(ms[p], fs[p]) && PutMember(ms[p], fs[p], obj).Some?
    ensures HeldAll(ms, fs, done + {p}, PutMember(ms[p], fs[p], obj).value, text)
  {
    NamesStep(ms, fs, done, obj, p);
    HeldHere(ms, fs, done, obj, p, text);
    forall q | q in done && q != p
      ensures MemberHeld(ms[q], fs[q], Seen(text, Object(PutMember(ms[p], fs[p], obj).value)), text)
    {
      HeldThere(ms, fs, obj, p, q, text);
    }
  }

  lemma NamesStep(ms: seq<Member>, fs: seq<Value>, done: set<nat>, obj: map<string, Json>, p: nat)
    requires |ms| == |fs| && OnlyNames(ms, done, obj)
    requires Found(ms, p) && MemberTyped(ms[p], fs[p]) && PutMember(ms[p], fs[p], obj).Some?
    ensures OnlyNames(ms, done + {p}, PutMember(ms[p], fs[p], obj).value)
  {
    PutMemberFrame(ms[p], fs[p], obj);
    assert MemberNames(ms[p]) == {NameAt(ms, p)};
    assert p in done + {p};
  }

  /** The member just written is held. */
  lemma HeldHere(ms: seq<Member>, fs: seq<Value>, done: set<nat>, obj: map<string, Json>, p: nat, text: bool)
    requires MembersTyped(ms, fs) && DistinctMembers(ms) && HeldAll(ms, fs, done, obj, text)
    requires Found(ms, p) && MemberTyped(ms[p], fs[p]) && PutMember(ms[p], fs[p], obj).Some?
    ensures MemberHeld(ms[p], fs[p], Seen(text, Object(PutMember(ms[p], fs[p], obj).value)), text)
  {
    DistinctAt(ms, p, p);
    if p !in done {
      NameIsNew(ms, done, obj, p);
      PutMemberHolds(ms[p], fs[p], obj, text);
    } else {
      HeldAgain(ms[p], fs[p], obj, text);
    }
  }

  /** A member written before is still held. */
  lemma HeldThere(ms: seq<Member>, fs: seq<Value>, obj: map<string, Json>, p: nat, q: nat, text: bool)
    requires |ms| == |fs| && DistinctMembers(ms) && p != q
    requires Found(ms, p) && MemberTyped(ms[p], fs[p]) && PutMember(ms[p], fs[p], obj).Some?
    requires Found(ms, q) && MemberTyped(ms[q], fs[q]) && MemberHeld(ms[q], fs[q], Seen(text, Object(obj)), text)
    ensures MemberHeld(ms[q], fs[q], Seen(text, Object(PutMember(ms[p], fs[p], obj).value)), text)
  {
    DistinctAt(ms, q, p);
    PutMemberFrame(ms[p], fs[p], obj);
    MemberCarries(ms[q], fs[q], Seen(text, Object(obj)), Seen(text, Object(PutMember(ms[p], fs[p], obj).value)), text);
  }

  lemma NameIsNew(ms: seq<Member>, done: set<nat>, obj: map<string, Json>, p: nat)
    requires DistinctMembers(ms) && OnlyNames(ms, done, obj)
    requires Found(ms, p) && p !in done
    ensures MemberNames(ms[p]) !! obj.Keys
  {
    forall n | n in obj
      ensures n !in MemberNames(ms[p])
    {
      var q :| q in done && Found(ms, q) && NameAt(ms, q) == n;
      DistinctAt(ms, p, q);
    }
  }

  /** Writing a member that is held already changes nothing about it. */
  lemma HeldAgain(m: Member, f: Value, obj: map<string, Json>, text: bool)
    requires MemberTyped(m, f) && !m.Ancestor? && PutMember(m, f, obj).Some?
    requires MemberHeld(m, f, Seen(text, Object(obj)), text)
    ensures MemberHeld(m, f, Seen(text, Object(PutMember(m, f, obj).value)), text)
  {
  }

  lemma {:induction false} PutChosenHolds(ms: seq<Member>, fs: seq<Value>, chosen: seq<nat>, done: set<nat>,
      obj: map<string, Json>, text: bool)
    requires MembersTyped(ms, fs) && DistinctMembers(ms) && HeldAll(ms, fs, done, obj, text)
    requires PutChosen(ms, fs, chosen, obj).Some?
    ensures HeldAll(ms, fs, done + (set p | p in chosen), PutChosen(ms, fs, chosen, obj).value, text)
    decreases |chosen|
  {
    if chosen == [] {
      assert done + (set p | p in chosen) == done;
    } else {
      MembersTypedAt(ms, fs, chosen[0]);
      HeldAllStep(ms, fs, done, obj, chosen[0], text);
      PutChosenHolds(ms, fs, chosen[1..], done + {chosen[0]}, PutMember(ms[chosen[0]], fs[chosen[0]], obj).value, text);
      assert chosen == [chosen[0]] + chosen[1..];
      assert done + (set p | p in chosen) == done + {chosen[0]} + (set p | p in chosen[1..]);
    }
  }

  // ----- the partial round trip

  /** The chosen fields hold the stored members over what they held before, the others are untouched. */
  ghost predicate Restored(ms: seq<Member>, fs: seq<Value>, chosen: seq<nat>, fields: seq<Value>, r: seq<Value>)
    requires MembersTyped(ms, fs) && |fields| == |ms|
  {
    |r| == |fields| &&
    forall p :: 0 <= p < |ms| && MemberTyped(ms[p], fs[p]) ==>
      if p in chosen then SameField(ms[p], r[p], MergeMember(ms[p], fs[p], fields[p])) else r[p] == fields[p]
  }

  lemma {:induction false} DecodeChosenRestores(ms: seq<Member>, fs: seq<Value>, chosen: seq<nat>,
      fields: seq<Value>, obj: Json, text: bool)
    requires MembersTyped(ms, fs) && DistinctMembers(ms) && |fields| == |ms|
    requires forall p :: p in chosen ==>
      Found(ms, p) && MemberTyped(ms[p], fs[p]) && MemberHeld(ms[p], fs[p], obj, text)
    ensures var r := DecodeChosen(ms, fields, chosen, obj);
            r.Success? && Restored(ms, fs, chosen, fields, r.value)
    decreases |chosen|
  {
    if chosen == [] {
    } else {
      var p := chosen[0];
      assert p in chosen;
      var once := MergeMember(ms[p], fs[p], fields[p]);
      DistinctAt(ms, p, p);
      MemberRoundTripOver(ms[p], fs[p], obj, fields[p], text);
      assert chosen == [p] + chosen[1..];
      DecodeChosenRestores(ms, fs, chosen[1..], fields[p := once], obj, text);
      MergeMemberTwice(ms[p], fs[p], fields[p]);
      var r := DecodeChosen(ms, fields, chosen, obj).value;
      if p in chosen[1..] {
        SameFieldShared(ms[p], r[p], MergeMember(ms[p], fs[p], once), once);
      }
    }
  }

  lemma ChosenAreWritten(ms: seq<Member>, fs: seq<Value>, chosen: seq<nat>, text: bool)
    requires MembersTyped(ms, fs) && DistinctMembers(ms) && PutChosen(ms, fs, chosen, map[]).Some?
    ensures var m := PutChosen(ms, fs, chosen, map[]).value;
            && OnlyChosen(ms, chosen, m)
            && forall p :: p in chosen ==>
              Found(ms, p) && MemberTyped(ms[p], fs[p]) && MemberHeld(ms[p], fs[p], Seen(text, Object(m)), text)
  {
    var m := PutChosen(ms, fs, chosen, map[]).value;
    PutChosenHolds(ms, fs, chosen, {}, map[], text);
    forall n | n in m
      ensures exists i :: 0 <= i < |chosen| && Found(ms, chosen[i]) && NameAt(ms, chosen[i]) == n
    {
      var p :| p in chosen && Found(ms, p) && NameAt(ms, p) == n;
      var i :| 0 <= i < |chosen| && chosen[i] == p;
    }
  }

  /** A chosen field equals what was written exactly where its old maps had no keys of their own. */
  ghost predicate RestoredIffCovered(ms: seq<Member>, fs: seq<Value>, chosen: seq<nat>, fields: seq<Value>,
      r: seq<Value>)
    requires MembersTyped(ms, fs) && |fields| == |ms|
  {
    |r| == |ms| && forall p :: p in chosen && p < |ms| && MemberTyped(ms[p], fs[p]) ==>
      (SameField(ms[p], r[p], NormalMember(ms[p], fs[p])) <==> MemberCovered(ms[p], fs[p], fields[p]))
  }

  /** The object has the names of the chosen members and no others. */
  ghost predicate OnlyChosen(ms: seq<Member>, chosen: seq<nat>, m: map<string, Json>) {
    forall n :: n in m ==> exists i :: 0 <= i < |chosen| && Found(ms, chosen[i]) && NameAt(ms, chosen[i]) == n
  }

  lemma RestoredWhereCovered(ms: seq<Member>, fs: seq<Value>, chosen: seq<nat>, fields: seq<Value>, r: seq<Value>)
    requires MembersTyped(ms, fs) && |fields| == |ms| && Restored(ms, fs, chosen, fields, r)
    ensures RestoredIffCovered(ms, fs, chosen, fields, r)
  {
    forall p | p in chosen && p < |ms| && MemberTyped(ms[p], fs[p])
      ensures SameField(ms[p], r[p], NormalMember(ms[p], fs[p])) <==> MemberCovered(ms[p], fs[p], fields[p])
    {
      SameFieldShared(ms[p], r[p], MergeMember(ms[p], fs[p], fields[p]), NormalMember(ms[p], fs[p]));
      MemberRestoredIffCovered(ms[p], fs[p], fields[p]);
    }
  }

  /**
   Writing chosen members stores their names and no others; reading the same
   members into another object changes exactly those. A chosen field becomes the
   normal form of what was written if and only if every key its old maps had is
   among the keys written.
   */
  lemma PartialRoundTrip(ms: seq<Member>, fs: seq<Value>, chosen: seq<nat>, fields: seq<Value>, text: bool)
    requires MembersTyped(ms, fs) && DistinctMembers(ms) && |fields| == |ms|
    requires PutChosen(ms, fs, chosen, map[]).Some?
    ensures var m := PutChosen(ms, fs, chosen, map[]).value;
            var r := DecodeChosen(ms, fields, chosen, Seen(text, Object(m)));
            && OnlyChosen(ms, chosen, m)
            && r.Success? && Restored(ms, fs, chosen, fields, r.value)
            && RestoredIffCovered(ms, fs, chosen, fields, r.value)
  {
    var m := PutChosen(ms, fs, chosen, map[]).value;
    ChosenAreWritten(ms, fs, chosen, text);
    DecodeChosenRestores(ms, fs, chosen, fields, Seen(text, Object(m)), text);
    RestoredWhereCovered(ms, fs, chosen, fields, DecodeChosen(ms, fields, chosen, Seen(text, Object(m))).value);
  }

  // ----- in place

  /** Recursion over the tuple of member pointers. */
  method PartialSerialize(tree: Tree, h: Handle, ms: seq<Member>, fs: seq<Value>, chosen: seq<nat>) returns (ok: bool)
    requires MembersTyped(ms, fs)
    requires Current(tree.root, h) && At(tree.root, h).Object?
    modifies tree
    ensures ok == PutChosen(ms, fs, chosen, At(old(tree.root), h).members).Some?
    ensures ok ==>
      tree.root == Replace(old(tree.root), h, Object(PutChosen(ms, fs, chosen, At(old(tree.root), h).members).value))
    decreases |chosen|
  {
    ghost var root := tree.root;
    if chosen == [] {
      ReplaceSame(root, h);
      return true;
    }
    if !Found(ms, chosen[0]) {
      return false;
    }
    MembersTypedAt(ms, fs, chosen[0]);
    ok := EncodeMemberInto(tree, h, ms[chosen[0]], fs[chosen[0]]);
    if ok {
      ghost var m := PutMember(ms[chosen[0]], fs[chosen[0]], At(root, h).members).value;
      ReplaceKeepsCurrent(root, h, Object(m));
      ok := PartialSerialize(tree, h, ms, fs, chosen[1..]);
      if ok {
        ReplaceTwice(root, h, Object(m), Object(PutChosen(ms, fs, chosen[1..], m).value));
      }
    }
  }

  /** How many of the chosen members decode before the first that does not. */
  ghost function FirstFailing(ms: seq<Member>, fields: seq<Value>, chosen: seq<nat>, obj: Json): (n: nat)
    requires |fields| == |ms|
    ensures n <= |chosen|
    decreases |chosen|
  {
    if chosen == [] || !Found(ms, chosen[0]) then 0
    else
      match DecodeMemberOver(ms[chosen[0]], obj, fields[chosen[0]])
      case Failure(_) => 0
      case Success(f) => 1 + FirstFailing(ms, fields[chosen[0] := f], chosen[1..], obj)
  }

  lemma DecodeSingle(m: Member, obj: Json, was: Value)
    ensures DecodeMembersOver([m], obj, [was])
            == match DecodeMemberOver(m, obj, was)
               case Failure(e) => Failure(e)
               case Success(f) => Success([f])
  {
    assert [m][1..] == [] && Others([was]) == [];
    assert DecodeMembersOver([], obj, []) == Success([]);
    var f := DecodeMemberOver(m, obj, was);
    if f.Success? {
      assert [f.value] + [] == [f.value];
      assert DecodeMembersOver([m], obj, [was]) == Success([f.value] + []);
    }
  }

  /** Members before `i` are decoded, the others as they were. */
  ghost predicate DecodedUpTo(ms: seq<Member>, obj: Json, was: seq<Value>, fields: seq<Value>, i: nat) {
    && |was| == |fields| == |ms| && i <= |ms|
    && DecodeMembersOver(ms[..i], obj, was[..i]) == Success(fields[..i])
    && fields[i..] == was[i..]
  }

  lemma NextMember(ms: seq<Member>, obj: Json, was: seq<Value>, fields: seq<Value>, i: nat)
    requires DecodedUpTo(ms, obj, was, fields, i) && i < |ms|
    ensures fields[i] == was[i]
    ensures match DecodeMemberOver(ms[i], obj, was[i])
            case Failure(e) => DecodeMembersOver(ms, obj, was) == Failure(e)
            case Success(f) => DecodedUpTo(ms, obj, was, fields[i := f], i + 1)
  {
    assert fields[i] == fields[i..][0] == was[i..][0] == was[i];
    if DecodeMemberOver(ms[i], obj, was[i]).Failure? {
      assert ms[..i] + ms[i..] == ms && was[..i] + was[i..] == was;
      DecodeMembersSplit(ms[..i], ms[i..], obj, was[..i], was[i..]);
    } else {
      NextDecoded(ms, obj, was, fields, i);
    }
  }

  lemma NextDecoded(ms: seq<Member>, obj: Json, was: seq<Value>, fields: seq<Value>, i: nat)
    requires DecodedUpTo(ms, obj, was, fields, i) && i < |ms| && DecodeMemberOver(ms[i], obj, was[i]).Success?
    ensures DecodedUpTo(ms, obj, was, fields[i := DecodeMemberOver(ms[i], obj, was[i]).value], i + 1)
  {
    var next := DecodeMemberOver(ms[i], obj, was[i]).value;
    assert ms[..i] + [ms[i]] == ms[..i + 1] && was[..i] + [was[i]] == was[..i + 1];
    DecodeMembersSplit(ms[..i], [ms[i]], obj, was[..i], [was[i]]);
    DecodeSingle(ms[i], obj, was[i]);
    assert fields[i := next][..i + 1] == fields[..i] + [next];
    assert fields[i := next][i + 1..] == fields[i..][1..] == was[i..][1..] == was[i + 1..];
  }

  /** Members before `i` are decoded, those after it as they were; its own field may hold anything. */
  ghost predicate StoppedAt(ms: seq<Member>, obj: Json, was: seq<Value>, fields: seq<Value>, i: nat) {
    && |was| == |fields| == |ms| && i < |ms|
    && DecodedUpTo(ms, obj, was, fields[i := was[i]], i)
    && DecodeMemberOver(ms[i], obj, was[i]).Failure?
  }

  /** The target object, whose fields are overwritten one by one. */
  class Target {
    var fields: seq<Value>

    constructor (fields: seq<Value>)
      ensures this.fields == fields
    {
      this.fields := fields;
    }

    /** Reading the whole struct into an object that already has content. */
    method Deserialize(obj: Json, ms: seq<Member>) returns (r: Result<(), Failed>)
      requires |fields| == |ms| && DecodeMembersOver(ms, obj, fields) != Failure(Hangs)
      modifies this
      ensures |fields| == |ms|
      ensures match DecodeMembersOver(ms, obj, old(fields))
              case Success(fs) => r.Success? && fields == fs
              case Failure(e) =>
                && r == Failure(e)
                && exists i :: 0 <= i < |ms| && StoppedAt(ms, obj, old(fields), fields, i)
    {
      ghost var was := fields;
      for i := 0 to |ms|
        invariant DecodedUpTo(ms, obj, was, fields, i)
      {
        NextMember(ms, obj, was, fields, i);
        var f := DecodeMemberOverFrom(obj, ms[i], fields[i]);
        if f.Failure? {
          var partial: Value := *;
          assert fields[i := partial][i := was[i]] == fields;
          fields := fields[i := partial];
          assert StoppedAt(ms, obj, was, fields, i);
          return Failure(f.error);
        }
        fields := fields[i := f.value];
      }
      assert ms[..|ms|] == ms && was[..|ms|] == was && fields[..|ms|] == fields;
      return Success(());
    }

    /** What the member that fails leaves in its field is not described. */
    method PartialDeserialize(obj: Json, ms: seq<Member>, chosen: seq<nat>) returns (r: Result<(), Failed>)
      requires |fields| == |ms| && DecodeChosen(ms, fields, chosen, obj) != Failure(Hangs)
      modifies this
      ensures |fields| == |ms|
      ensures match DecodeChosen(ms, old(fields), chosen, obj)
              case Success(fs) => r.Success? && fields == fs
              case Failure(e) =>
                && r == Failure(e) && FirstFailing(ms, old(fields), chosen, obj) < |chosen|
                && var n := FirstFailing(ms, old(fields), chosen, obj);
                   var before := DecodeChosen(ms, old(fields), chosen[..n], obj);
                   && before.Success?
                   && forall p :: 0 <= p < |ms| && p != chosen[n] ==> fields[p] == before.value[p]
      decreases |chosen|
    {
      if chosen == [] {
        return Success(());
      }
      if !Found(ms, chosen[0]) {
        return Failure(Throws);
      }
      ghost var was := fields;
      var f := DecodeMemberOverFrom(obj, ms[chosen[0]], fields[chosen[0]]);
      if f.Failure? {
        var partial: Value := *;
        fields := fields[chosen[0] := partial];
        return Failure(f.error);
      }
      fields := fields[chosen[0] := f.value];
      ghost var n := FirstFailing(ms, fields, chosen[1..], obj);
      if n < |chosen[1..]| {
        assert chosen[..n + 1][0] == chosen[0] && chosen[..n + 1][1..] == chosen[1..][..n];
      }
      r := PartialDeserialize(obj, ms, chosen[1..]);
    }
  }
}
