/**
 The path functions of fsutils.cc.
 */
module Paths {

  /** find_last_of('/'), or -1. */
  function LastSlash(s: string): (i: int)
    ensures -1 <= i < |s|
    ensures i >= 0 ==> s[i] == '/'
    ensures forall k :: i < k < |s| ==> s[k] != '/'
  {
    if s == [] then -1
    else if s[|s| - 1] == '/' then |s| - 1
    else LastSlash(s[..|s| - 1])
  }

  /** find_last_not_of('/'), or -1. */
  function LastOther(s: string): (i: int)
    ensures -1 <= i < |s|
    ensures i >= 0 ==> s[i] != '/'
    ensures forall k :: i < k < |s| ==> s[k] == '/'
  {
    if s == [] then -1
    else if s[|s| - 1] != '/' then |s| - 1
    else LastOther(s[..|s| - 1])
  }

  /** find_first_not_of('/'), or -1. */
  function FirstOther(s: string): (i: int)
    ensures -1 <= i < |s|
    ensures i >= 0 ==> s[i] != '/' && forall k :: 0 <= k < i ==> s[k] == '/'
    ensures i == -1 ==> forall k :: 0 <= k < |s| ==> s[k] == '/'
  {
    if s == [] then -1
    else if s[0] != '/' then 0
    else
      var i := FirstOther(s[1..]);
      assert forall k :: 0 < k < |s| ==> s[k] == s[1..][k - 1];
      if i == -1 then -1 else i + 1
  }

  function Append(value: string, other: string): string {
    if other == "" then value
    else
      var otherPos := FirstOther(other);
      var valuePos := LastOther(value);
      if valuePos == -1 && otherPos == -1 then "/"
      else
        var head := if valuePos != -1 then value[..valuePos + 1] + "/" else value;
        var from := if head == "" && other[0] == '/' && otherPos > 0 then otherPos - 1 else otherPos;
        if otherPos == -1 then head else head + other[from..]
  }

  /** The path without one trailing slash. */
  function Trimmed(p: string): string {
    if p != "" && p[|p| - 1] == '/' then p[..|p| - 1] else p
  }

  function Basename(p: string): string {
    if p == "/" then p else Trimmed(p)[LastSlash(Trimmed(p)) + 1..]
  }

  function Dirname(p: string): string {
    if p == "/" then p
    else
      var pos := LastSlash(Trimmed(p));
      if pos == -1 then "" else if pos == 0 then "/" else Trimmed(p)[..pos]
  }

  /** The path ends in a name set off by a single slash, or is the root, or is empty. */
  predicate EndsInName(p: string) {
    || p == "" || p == "/"
    || (p[|p| - 1] != '/' && (LastSlash(p) <= 0 || p[LastSlash(p) - 1] != '/'))
  }

  /** A directory to which a name can be appended and split off again. */
  predicate EndsPlain(d: string) {
    d == "" || d == "/" || d[|d| - 1] != '/'
  }

  lemma LastSlashAt(s: string, i: int)
    requires -1 <= i < |s| && (i >= 0 ==> s[i] == '/') && forall k :: i < k < |s| ==> s[k] != '/'
    ensures LastSlash(s) == i
  {
  }

  lemma LastOtherAt(s: string)
    requires s != "" && s[|s| - 1] != '/'
    ensures LastOther(s) == |s| - 1
  {
  }

  /** Joining the two parts gives the path back exactly when it ends in a name. */
  lemma JoinAfterSplit(p: string)
    ensures Append(Dirname(p), Basename(p)) == p <==> EndsInName(p)
  {
    if p != "" && p != "/" {
      if p[|p| - 1] == '/' {
        JoinTrailing(p);
      } else {
        JoinName(p);
      }
    }
  }

  /** Appending something that does not start with a slash. */
  lemma AppendName(d: string, b: string)
    requires b != "" && b[0] != '/'
    ensures Append(d, b) == (if LastOther(d) == -1 then d else d[..LastOther(d) + 1] + "/") + b
  {
    assert FirstOther(b) == 0 && b[0..] == b;
  }

  /** What `value` contributes to a path: its trailing slashes become one, unless it has nothing else. */
  function Head(value: string): string {
    if LastOther(value) == -1 then value else value[..LastOther(value) + 1] + "/"
  }

  /**
   Appending something that starts with slashes: they are dropped, or one of them
   remains where there was nothing before. Slashes alone end the path with one, and
   an empty string changes nothing.
   */
  lemma AppendSlashes(d: string, slashes: string, b: string)
    requires slashes != "" && (forall i :: 0 <= i < |slashes| ==> slashes[i] == '/')
    requires b == "" || b[0] != '/'
    ensures b != "" && d != "" ==> Append(d, slashes + b) == Append(d, b) == Head(d) + b
    ensures b != "" && d == "" ==> Append(d, slashes + b) == "/" + b
    ensures b == "" ==> Append(d, slashes + b) == if LastOther(d) == -1 then "/" else Head(d)
    ensures Append(d, "") == d
  {
    if b == "" {
      SlashesOnly(d, slashes);
      assert slashes + b == slashes;
    } else {
      SlashesBefore(d, slashes, b);
    }
  }

  lemma SlashesOnly(d: string, slashes: string)
    requires slashes != "" && forall i :: 0 <= i < |slashes| ==> slashes[i] == '/'
    ensures Append(d, slashes) == if LastOther(d) == -1 then "/" else Head(d)
  {
    FirstOtherAt(slashes, "");
    assert slashes + "" == slashes;
  }

  lemma SlashesBefore(d: string, slashes: string, b: string)
    requires slashes != "" && forall i :: 0 <= i < |slashes| ==> slashes[i] == '/'
    requires b != "" && b[0] != '/'
    ensures Append(d, slashes + b) == if d == "" then "/" + b else Head(d) + b
    ensures Append(d, b) == Head(d) + b
  {
    var other := slashes + b;
    FirstOtherAt(slashes, b);
    AppendName(d, b);
    if d == "" {
      assert other[|slashes| - 1..] == "/" + b;
    } else {
      assert other[|slashes|..] == b;
    }
  }

  lemma FirstOtherAt(slashes: string, b: string)
    requires forall i :: 0 <= i < |slashes| ==> slashes[i] == '/'
    requires b == "" || b[0] != '/'
    ensures FirstOther(slashes + b) == if b == "" then -1 else |slashes|
  {
    var other := slashes + b;
    assert b != "" ==> other[|slashes|] == b[0];
  }

  lemma JoinName(p: string)
    requires p != "" && p[|p| - 1] != '/'
    ensures Append(Dirname(p), Basename(p)) == p <==> EndsInName(p)
  {
    var pos := LastSlash(p);
    if pos > 0 {
      JoinBelow(p, pos);
    } else if pos == 0 {
      JoinAtRoot(p);
    } else {
      AppendName("", p);
      assert p[0..] == p && "" + p == p;
    }
  }

  lemma JoinAtRoot(p: string)
    requires p != "" && p[|p| - 1] != '/' && LastSlash(p) == 0
    ensures Append(Dirname(p), Basename(p)) == p
  {
    var b := p[1..];
    assert Basename(p) == b && Dirname(p) == "/";
    AppendName("/", b);
    assert LastOther("/") == -1;
    assert p == "/" + b;
  }

  lemma JoinBelow(p: string, pos: nat)
    requires p != "" && p[|p| - 1] != '/' && LastSlash(p) == pos > 0
    ensures Append(Dirname(p), Basename(p)) == p <==> p[pos - 1] != '/'
  {
    CutBelow(p, pos);
    JoinDeep(Dirname(p), Basename(p));
  }

  lemma CutBelow(p: string, pos: nat)
    requires p != "" && p[|p| - 1] != '/' && LastSlash(p) == pos > 0
    ensures var d, b := Dirname(p), Basename(p);
            p == d + "/" + b && d != "" && d[|d| - 1] == p[pos - 1] && b != "" && b[0] != '/'
  {
    assert pos < |p| - 1;
  }

  lemma JoinDeep(d: string, b: string)
    requires d != "" && b != "" && b[0] != '/'
    ensures Append(d, b) == d + "/" + b <==> d[|d| - 1] != '/'
  {
    AppendName(d, b);
    var v := LastOther(d);
    if d[|d| - 1] != '/' {
      LastOtherAt(d);
      assert d[..|d|] == d;
    } else {
      assert v < |d| - 1;
      assert |Append(d, b)| == (if v == -1 then |d| else v + 2) + |b|;
      assert |d + "/" + b| == |d| + 1 + |b|;
    }
  }

  /** A path with a trailing slash does not come back: its last character is not reproduced. */
  lemma JoinTrailing(p: string)
    requires p != "" && p != "/" && p[|p| - 1] == '/'
    ensures Append(Dirname(p), Basename(p)) != p
  {
    var t := Trimmed(p);
    var b := Basename(p);
    var pos := LastSlash(t);
    assert t != "" && b == t[pos + 1..];
    if b == "" {
      assert pos == |t| - 1;
      DirnameShortens(p);
    } else {
      assert b[0] != '/' && b[|b| - 1] != '/';
      AppendName(Dirname(p), b);
      var joined := Append(Dirname(p), b);
      assert joined[|joined| - 1] == b[|b| - 1];
    }
  }

  /** The parts of a head that ends in a slash followed by a name. */
  lemma SplitHead(head: string, name: string)
    requires head != "" && head[|head| - 1] == '/' && name != "" && '/' !in name
    ensures Basename(head + name) == name
    ensures Dirname(head + name) == if |head| == 1 then "/" else head[..|head| - 1]
  {
    var p := head + name;
    assert forall k :: |head| <= k < |p| ==> p[k] == name[k - |head|] && name[k - |head|] in name;
    assert |p| > 1;
    assert Trimmed(p) == p;
    LastSlashAt(p, |head| - 1);
    assert p[|head|..] == name && p[..|head| - 1] == head[..|head| - 1];
  }

  /** Splitting what was joined gives the parts back exactly when the directory does not end in a stray slash. */
  lemma SplitAfterJoin(d: string, name: string)
    requires name != "" && '/' !in name
    ensures Dirname(Append(d, name)) == d && Basename(Append(d, name)) == name <==> EndsPlain(d)
  {
    assert name[0] in name;
    AppendName(d, name);
    if d == "" {
      SplitBare(name);
      assert "" + name == name;
    } else if d[|d| - 1] != '/' {
      LastOtherAt(d);
      assert d[..|d|] == d;
      SplitHead(d + "/", name);
      assert (d + "/")[..|d|] == d;
    } else {
      SplitStray(d, name);
    }
  }

  lemma SplitStray(d: string, name: string)
    requires d != "" && d[|d| - 1] == '/' && name != "" && name[0] != '/' && '/' !in name
    ensures Dirname(Append(d, name)) == d && Basename(Append(d, name)) == name <==> d == "/"
  {
    var v := LastOther(d);
    var head := if v == -1 then d else d[..v + 1] + "/";
    AppendName(d, name);
    SplitHead(head, name);
    if v == -1 {
      assert |d| == 1 ==> d == "/";
    } else {
      assert |head| <= |d|;
    }
  }

  lemma SplitBare(name: string)
    requires name != "" && '/' !in name
    ensures Dirname(name) == "" && Basename(name) == name
  {
    assert forall k :: 0 <= k < |name| ==> name[k] in name;
    LastSlashAt(name, -1);
    assert Trimmed(name) == name;
  }

  /** One trailing slash makes no difference, a second one does. */
  lemma TrailingSlashes(p: string)
    requires p != "" && p[|p| - 1] != '/'
    ensures Dirname(p + "/") == Dirname(p) && Basename(p + "/") == Basename(p)
    ensures Dirname(p + "//") == p && Basename(p + "//") == ""
  {
    assert (p + "/")[..|p|] == p && Trimmed(p + "/") == Trimmed(p) == p;
    assert (p + "//")[..|p| + 1] == p + "/" && Trimmed(p + "//") == p + "/";
    LastSlashAt(p + "/", |p|);
    assert (p + "/")[|p| + 1..] == "";
  }

  lemma DirnameShortens(p: string)
    ensures Dirname(p) == p <==> p == "" || p == "/"
    ensures p != "" && p != "/" ==> |Dirname(p)| < |p|
  {
  }
}
