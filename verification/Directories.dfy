/**
 `mkdirs` over a file system without symbolic links: paths are resolved as in
 section 4.13 of POSIX.1-2017, so several strings may denote one directory.
 */
module Directories {

  import opened Paths

  /** The names from the root down. */
  type Location = seq<string>

  datatype Stat = Missing | Directory | OtherFile | StatError

  type Nodes = map<Location, Stat>

  /** The root is a directory, and everything lies in a directory. */
  ghost predicate Rooted(nodes: Nodes) {
    && [] in nodes && nodes[[]] == Directory
    && forall l {:trigger IsEntry(nodes, l)} :: l in nodes ==> IsEntry(nodes, l)
  }

  ghost predicate IsEntry(nodes: Nodes, l: Location) {
    NodeAt(nodes, l) != Missing && (l != [] ==> NodeAt(nodes, l[..|l| - 1]) == Directory)
  }

  function NodeAt(nodes: Nodes, l: Location): Stat {
    if l in nodes then nodes[l] else Missing
  }

  // ----- resolution

  /** The pieces between slashes that are not empty. */
  function Components(p: string): seq<string>
    decreases |p|
  {
    if p == "" then []
    else
      var pos := LastSlash(p);
      Components(if pos == -1 then "" else p[..pos]) + (if p[pos + 1..] == "" then [] else [p[pos + 1..]])
  }

  datatype Walked = At(l: Location) | NoEntry | NotDirectory

  function StepTo(l: Location, c: string): Location {
    if c == "." then l
    else if c == ".." then (if l == [] then l else l[..|l| - 1])
    else l + [c]
  }

  /** Every component but the last must lead to a directory. */
  function Walk(nodes: Nodes, start: Location, cs: seq<string>): Walked {
    if cs == [] then At(start)
    else
      match Walk(nodes, start, cs[..|cs| - 1])
      case At(l) =>
        (match NodeAt(nodes, l)
         case Directory => At(StepTo(l, cs[|cs| - 1]))
         case Missing => NoEntry
         case _ => NotDirectory)
      case failed => failed
  }

  function Start(cwd: Location, p: string): Location {
    if p != "" && p[0] == '/' then [] else cwd
  }

  function Resolve(nodes: Nodes, cwd: Location, p: string): Walked {
    Walk(nodes, Start(cwd, p), Components(p))
  }

  /** `stat`: a trailing slash asks for a directory. */
  function StatOf(nodes: Nodes, cwd: Location, p: string): Stat {
    match Resolve(nodes, cwd, p)
    case NoEntry => Missing
    case NotDirectory => StatError
    case At(l) =>
      if NodeAt(nodes, l) == OtherFile && p != "" && p[|p| - 1] == '/' then StatError else NodeAt(nodes, l)
  }

  predicate IsName(c: string) {
    c != "" && c != "." && c != ".."
  }

  /** `mkdir`: the last component must be a name that is free in an existing directory, and creating it permitted. */
  predicate CanMake(nodes: Nodes, cwd: Location, permitted: set<Location>, p: string) {
    CanMakeAt(nodes, Start(cwd, p), Components(p), permitted)
  }

  predicate CanMakeAt(nodes: Nodes, start: Location, cs: seq<string>, permitted: set<Location>) {
    cs != [] && IsName(cs[|cs| - 1]) &&
    match Walk(nodes, start, cs[..|cs| - 1])
    case At(l) => NodeAt(nodes, l) == Directory && l + [cs[|cs| - 1]] !in nodes && l + [cs[|cs| - 1]] in permitted
    case _ => false
  }

  lemma CanMakeWalked(nodes: Nodes, start: Location, cs: seq<string>, permitted: set<Location>)
    requires CanMakeAt(nodes, start, cs, permitted)
    ensures Walk(nodes, start, cs).At?
    ensures var l := Walk(nodes, start, cs).l;
            l != [] && l !in nodes && NodeAt(nodes, l[..|l| - 1]) == Directory
  {
    var l := Walk(nodes, start, cs[..|cs| - 1]).l + [cs[|cs| - 1]];
    assert l[..|l| - 1] == Walk(nodes, start, cs[..|cs| - 1]).l;
  }

  lemma StaysRooted(nodes: Nodes, l: Location)
    requires Rooted(nodes) && l != [] && l !in nodes && NodeAt(nodes, l[..|l| - 1]) == Directory
    ensures Rooted(nodes[l := Directory])
  {
    var nodes' := nodes[l := Directory];
    forall x | x in nodes'
      ensures IsEntry(nodes', x)
    {
      assert x != l ==> IsEntry(nodes, x);
    }
  }

  class FileSystem {
    var nodes: Nodes
    const cwd: Location
    /** Where `mkdir` is permitted. */
    const permitted: set<Location>
    ghost var created: seq<Location>

    constructor (nodes: Nodes, cwd: Location, permitted: set<Location>)
      ensures this.nodes == nodes && this.cwd == cwd && this.permitted == permitted && created == []
    {
      this.nodes, this.cwd, this.permitted, this.created := nodes, cwd, permitted, [];
    }

    ghost predicate Valid()
      reads this
    {
      Rooted(nodes) && NodeAt(nodes, cwd) == Directory
    }

    method Mkdir(p: string) returns (ok: bool)
      requires Valid()
      modifies this
      ensures Valid()
      ensures ok == old(CanMake(nodes, cwd, permitted, p))
      ensures ok ==> old(Resolve(nodes, cwd, p)).At? && nodes == old(nodes)[old(Resolve(nodes, cwd, p)).l := Directory]
      ensures ok ==> created == old(created) + [old(Resolve(nodes, cwd, p)).l]
      ensures !ok ==> nodes == old(nodes) && created == old(created)
    {
      ok := CanMake(nodes, cwd, permitted, p);
      if ok {
        CanMakeWalked(nodes, Start(cwd, p), Components(p), permitted);
        StaysRooted(nodes, Resolve(nodes, cwd, p).l);
        var l := Resolve(nodes, cwd, p).l;
        nodes := nodes[l := Directory];
        created := created + [l];
      }
    }
  }

  lemma TrailingSlash(p: string)
    requires p != "" && p[|p| - 1] == '/'
    ensures Components(p) == Components(p[..|p| - 1])
  {
    assert LastSlash(p) == |p| - 1 && p[|p|..] == "";
    assert Components(p[..|p| - 1]) + [] == Components(p[..|p| - 1]);
  }

  lemma RootIsEmpty()
    ensures Components("/") == [] && Components("") == []
  {
    TrailingSlash("/");
    assert "/"[..0] == "";
  }

  function NameOrNone(name: string): seq<string> {
    if name == "" then [] else [name]
  }

  lemma ComponentsBare(t: string)
    requires t != "" && LastSlash(t) == -1
    ensures Components(t) == Components("") + NameOrNone(t)
  {
    assert t[0..] == t;
  }

  lemma ComponentsAtRoot(t: string)
    requires t != "" && LastSlash(t) == 0
    ensures Components(t) == Components("/") + NameOrNone(t[1..])
  {
    RootIsEmpty();
    assert t[..0] == "";
  }

  lemma ComponentsBelow(t: string, pos: nat)
    requires t != "" && LastSlash(t) == pos
    ensures Components(t) == Components(t[..pos]) + NameOrNone(t[pos + 1..])
  {
  }

  lemma ComponentsTrimmed(p: string)
    requires p != "" && p != "/"
    ensures Components(p) == Components(Trimmed(p)) && Trimmed(p) != ""
  {
    if p[|p| - 1] == '/' {
      TrailingSlash(p);
    }
  }

  /** A path is its directory name and one more component, or none when it ends in two slashes. */
  lemma ComponentsSplit(p: string)
    requires p != "" && p != "/"
    ensures Components(p) == Components(Dirname(p)) + NameOrNone(Basename(p))
  {
    ComponentsTrimmed(p);
    var t := Trimmed(p);
    var pos := LastSlash(t);
    if pos == -1 {
      ComponentsBare(t);
      assert t[0..] == t;
    } else if pos == 0 {
      ComponentsAtRoot(t);
    } else {
      ComponentsBelow(t, pos);
    }
  }

  lemma StartSplit(p: string, cwd: Location)
    requires p != "" && p != "/"
    ensures Start(cwd, p) == Start(cwd, Dirname(p))
  {
    assert Trimmed(p) != "" && Trimmed(p)[0] == p[0];
  }

  /** New nodes do not disturb what resolved before. */
  lemma {:induction false} WalkKeeps(nodes: Nodes, nodes': Nodes, start: Location, cs: seq<string>)
    requires forall l :: l in nodes ==> l in nodes' && nodes'[l] == nodes[l]
    requires Walk(nodes, start, cs).At?
    ensures Walk(nodes', start, cs) == Walk(nodes, start, cs)
    decreases |cs|
  {
    if cs == [] {
    } else {
      WalkKeeps(nodes, nodes', start, cs[..|cs| - 1]);
    }
  }

  /** `d` denotes the directory at `l`; the empty path stands for the working directory. */
  ghost predicate Located(nodes: Nodes, cwd: Location, d: string, l: Location) {
    Resolve(nodes, cwd, d) == At(l) && NodeAt(nodes, l) == Directory
  }

  lemma CanMakeBelow(nodes: Nodes, start: Location, ds: seq<string>, c: string, permitted: set<Location>, l: Location)
    requires Walk(nodes, start, ds) == At(l) && NodeAt(nodes, l) == Directory
    ensures CanMakeAt(nodes, start, ds + [c], permitted) <==> IsName(c) && l + [c] !in nodes && l + [c] in permitted
    ensures IsName(c) ==> Walk(nodes, start, ds + [c]) == At(l + [c])
    ensures !CanMakeAt(nodes, start, ds, permitted)
  {
    var cs := ds + [c];
    assert cs[|cs| - 1] == c && cs[..|cs| - 1] == ds;
  }

  /** When the directory part exists, only a proper name can be made in it. */
  lemma CanMakeIn(nodes: Nodes, cwd: Location, permitted: set<Location>, p: string, l: Location)
    requires p != "" && p != "/" && Located(nodes, cwd, Dirname(p), l)
    ensures CanMake(nodes, cwd, permitted, p)
            <==> IsName(Basename(p)) && l + [Basename(p)] !in nodes && l + [Basename(p)] in permitted
    ensures IsName(Basename(p)) ==> Resolve(nodes, cwd, p) == At(l + [Basename(p)])
  {
    ComponentsSplit(p);
    StartSplit(p, cwd);
    var ds := Components(Dirname(p));
    CanMakeBelow(nodes, Start(cwd, p), ds, Basename(p), permitted, l);
    assert ds + [] == ds;
  }

  /** `.` and `..` are resolved like names; the root is its own parent. */
  lemma DotEntries(nodes: Nodes, start: Location, cs: seq<string>, l: Location)
    requires Walk(nodes, start, cs) == At(l) && NodeAt(nodes, l) == Directory
    ensures Walk(nodes, start, cs + ["."]) == At(l)
    ensures Walk(nodes, start, cs + [".."]) == At(if l == [] then [] else l[..|l| - 1])
    ensures forall c :: IsName(c) ==> Walk(nodes, start, cs + [c]) == At(l + [c])
  {
    forall c: string
      ensures Walk(nodes, start, cs + [c]) == At(StepTo(l, c))
    {
      assert (cs + [c])[..|cs|] == cs;
    }
  }

  /**
   `stat` of a path that ends in a proper name finds the entry of that name, none
   where the directory is missing, and an error where it is a file or where a
   trailing slash follows a file.
   */
  lemma StatIn(nodes: Nodes, cwd: Location, p: string)
    requires p != "" && p != "/" && IsName(Basename(p))
    ensures StatOf(nodes, cwd, p) ==
      match Resolve(nodes, cwd, Dirname(p))
      case NoEntry => Missing
      case NotDirectory => StatError
      case At(l) =>
        if NodeAt(nodes, l) == Missing then Missing
        else if NodeAt(nodes, l) != Directory then StatError
        else if NodeAt(nodes, l + [Basename(p)]) == OtherFile && p[|p| - 1] == '/' then StatError
        else NodeAt(nodes, l + [Basename(p)])
  {
    ComponentsSplit(p);
    StartSplit(p, cwd);
    var ds := Components(Dirname(p));
    assert (ds + [Basename(p)])[..|ds|] == ds;
  }

  // ----- the climb

  function Looks(nodes: Nodes, cwd: Location): string -> Stat {
    p => StatOf(nodes, cwd, p)
  }

  /** The missing paths from `p` upwards, and how the climb ends. */
  function Climb(look: string -> Stat, p: string): (r: (seq<string>, bool))
    requires look("/") != Missing
    decreases |p|
  {
    if p == "" then ([], true)
    else if look(p) != Missing then ([], look(p) == Directory)
    else
      DirnameShortens(p);
      var (up, ok) := Climb(look, Dirname(p));
      ([p] + up, ok)
  }

  lemma RootIsFound(nodes: Nodes, cwd: Location)
    requires Rooted(nodes)
    ensures Looks(nodes, cwd)("/") == Directory
  {
    RootIsEmpty();
  }

  /** The path the climb ends at. */
  function Base(p: string, up: seq<string>): string {
    if up == [] then p else Dirname(up[|up| - 1])
  }

  /** The path at position `i` is missing and is the directory of the one before. */
  ghost predicate IsLink(look: string -> Stat, up: seq<string>, i: nat)
    requires i < |up|
  {
    look(up[i]) == Missing && up[i] != "" && up[i] != "/" && (i > 0 ==> up[i] == Dirname(up[i - 1]))
  }

  ghost predicate IsChain(look: string -> Stat, p: string, up: seq<string>) {
    && (forall i {:trigger IsLink(look, up, i)} :: 0 <= i < |up| ==> IsLink(look, up, i))
    && (up != [] ==> up[0] == p)
  }

  lemma {:induction false} ClimbIsChain(look: string -> Stat, p: string)
    requires look("/") != Missing
    ensures var (up, found) := Climb(look, p);
            && IsChain(look, p, up)
            && (Base(p, up) == "" || look(Base(p, up)) != Missing)
            && (found <==> Base(p, up) == "" || look(Base(p, up)) == Directory)
    decreases |p|
  {
    if p != "" && look(p) == Missing {
      DirnameShortens(p);
      ClimbIsChain(look, Dirname(p));
      ConsChain(look, p, Climb(look, Dirname(p)).0);
    }
  }

  lemma ConsChain(look: string -> Stat, p: string, up: seq<string>)
    requires look("/") != Missing && look(p) == Missing && p != "" && IsChain(look, Dirname(p), up)
    ensures IsChain(look, p, [p] + up) && Base(p, [p] + up) == Base(Dirname(p), up)
  {
    var all := [p] + up;
    forall i | 0 <= i < |all|
      ensures IsLink(look, all, i)
    {
      assert i > 0 ==> IsLink(look, up, i - 1);
    }
  }

  lemma FoundIsLocated(nodes: Nodes, cwd: Location, d: string)
    requires Rooted(nodes) && NodeAt(nodes, cwd) == Directory
    requires d == "" || Looks(nodes, cwd)(d) == Directory
    ensures exists l :: Located(nodes, cwd, d, l)
  {
    if d == "" {
      assert Located(nodes, cwd, "", cwd);
    } else {
      assert Located(nodes, cwd, d, Resolve(nodes, cwd, d).l);
    }
  }

  /** The base names from the top of the chain down. */
  function Names(up: seq<string>): Location {
    if up == [] then [] else Names(up[1..]) + [Basename(up[0])]
  }

  /** The directories of the chain made below `base`. */
  ghost function Made(nodes: Nodes, base: Location, up: seq<string>): Nodes {
    if up == [] then nodes else Made(nodes, base, up[1..])[base + Names(up) := Directory]
  }

  ghost function Order(base: Location, up: seq<string>): seq<Location> {
    if up == [] then [] else Order(base, up[1..]) + [base + Names(up)]
  }

  ghost predicate Good(permitted: set<Location>, base: Location, up: seq<string>) {
    up != [] && IsName(Basename(up[0])) && base + Names(up) in permitted
  }

  ghost predicate AllGood(permitted: set<Location>, base: Location, up: seq<string>) {
    up == [] || (Good(permitted, base, up) && AllGood(permitted, base, up[1..]))
  }

  lemma {:induction false} MadeNodes(nodes: Nodes, base: Location, up: seq<string>, l: Location)
    ensures |Names(up)| == |up|
    ensures l in nodes ==> l in Made(nodes, base, up)
    ensures l in Made(nodes, base, up) ==> l in nodes || |l| <= |base| + |up|
  {
    if up == [] {
    } else {
      MadeNodes(nodes, base, up[1..], l);
    }
  }

  /** The state of the second loop when the paths of `up` are made, the lowest of them `d`. */
  ghost predicate Progress(nodes: Nodes, ns: Nodes, cwd: Location, base: Location, d: string, up: seq<string>) {
    && ns == Made(nodes, base, up)
    && Located(ns, cwd, d, base + Names(up))
    && (up != [] ==> base + Names(up) !in nodes)
  }

  lemma NamesGrow(base: Location, q: string, up: seq<string>)
    ensures base + Names([q] + up) == base + Names(up) + [Basename(q)]
  {
    assert ([q] + up)[1..] == up;
  }

  lemma MissingBelow(nodes: Nodes, cwd: Location, q: string, l: Location)
    requires q != "" && q != "/" && Located(nodes, cwd, Dirname(q), l)
    requires StatOf(nodes, cwd, q) == Missing && IsName(Basename(q))
    ensures NodeAt(nodes, l + [Basename(q)]) == Missing
  {
    CanMakeIn(nodes, cwd, {}, q, l);
  }

  /** The next path down is free. */
  lemma NextIsFree(nodes: Nodes, ns: Nodes, cwd: Location, base: Location, q: string, up: seq<string>)
    requires Rooted(nodes) && Progress(nodes, ns, cwd, base, Dirname(q), up)
    requires q != "" && q != "/" && StatOf(nodes, cwd, q) == Missing && IsName(Basename(q))
    ensures base + Names(up) + [Basename(q)] !in nodes && base + Names(up) + [Basename(q)] !in ns
  {
    var l := base + Names(up);
    var free := l + [Basename(q)];
    assert free != [] && free[..|free| - 1] == l;
    if up == [] {
      assert base + [] == base;
      MissingBelow(nodes, cwd, q, l);
    }
    assert free in nodes ==> IsEntry(nodes, free);
    MadeNodes(nodes, base, up, free);
  }

  lemma MakesIffGood(nodes: Nodes, ns: Nodes, cwd: Location, permitted: set<Location>, base: Location, q: string,
      up: seq<string>)
    requires Rooted(nodes) && Progress(nodes, ns, cwd, base, Dirname(q), up)
    requires q != "" && q != "/" && StatOf(nodes, cwd, q) == Missing
    ensures CanMake(ns, cwd, permitted, q) <==> Good(permitted, base, [q] + up)
    ensures IsName(Basename(q)) ==> Resolve(ns, cwd, q) == At(base + Names([q] + up))
  {
    NamesGrow(base, q, up);
    CanMakeIn(ns, cwd, permitted, q, base + Names(up));
    if IsName(Basename(q)) {
      NextIsFree(nodes, ns, cwd, base, q, up);
    }
  }

  lemma MadeIsLocated(ns: Nodes, cwd: Location, q: string, l: Location)
    requires Resolve(ns, cwd, q) == At(l) && l !in ns
    ensures Located(ns[l := Directory], cwd, q, l)
  {
    WalkKeeps(ns, ns[l := Directory], Start(cwd, q), Components(q));
  }

  lemma MadeGrows(nodes: Nodes, base: Location, q: string, up: seq<string>)
    ensures Made(nodes, base, [q] + up) == Made(nodes, base, up)[base + Names([q] + up) := Directory]
    ensures Order(base, [q] + up) == Order(base, up) + [base + Names([q] + up)]
  {
    assert ([q] + up)[1..] == up;
  }

  lemma GoodMakesProgress(nodes: Nodes, ns: Nodes, cwd: Location, permitted: set<Location>, base: Location,
      q: string, up: seq<string>)
    requires Rooted(nodes) && Progress(nodes, ns, cwd, base, Dirname(q), up)
    requires q != "" && q != "/" && StatOf(nodes, cwd, q) == Missing && IsName(Basename(q))
    ensures Progress(nodes, ns[base + Names([q] + up) := Directory], cwd, base, q, [q] + up)
  {
    NamesGrow(base, q, up);
    MadeGrows(nodes, base, q, up);
    MakesIffGood(nodes, ns, cwd, permitted, base, q, up);
    NextIsFree(nodes, ns, cwd, base, q, up);
    MadeIsLocated(ns, cwd, q, base + Names([q] + up));
  }

  // ----- what the second loop does

  datatype Outcome = Outcome(nodes: Nodes, made: seq<Location>, ok: bool)

  /** Making the paths of a stack from its end on, up to the first that cannot be made. */
  function MakeAll(nodes: Nodes, cwd: Location, permitted: set<Location>, up: seq<string>): Outcome {
    if up == [] then Outcome(nodes, [], true)
    else
      var rest := MakeAll(nodes, cwd, permitted, up[1..]);
      if rest.ok && CanMake(rest.nodes, cwd, permitted, up[0]) then
        CanMakeWalked(rest.nodes, Start(cwd, up[0]), Components(up[0]), permitted);
        var l := Resolve(rest.nodes, cwd, up[0]).l;
        Outcome(rest.nodes[l := Directory], rest.made + [l], true)
      else rest.(ok := false)
  }

  lemma {:induction false} FailureStays(nodes: Nodes, cwd: Location, permitted: set<Location>, up: seq<string>, n: nat)
    requires n <= |up| && !MakeAll(nodes, cwd, permitted, up[n..]).ok
    ensures MakeAll(nodes, cwd, permitted, up) == MakeAll(nodes, cwd, permitted, up[n..])
  {
    if n == 0 {
      assert up[0..] == up;
    } else {
      assert up[1..][n - 1..] == up[n..];
      FailureStays(nodes, cwd, permitted, up[1..], n - 1);
    }
  }

  /** The paths before position `n` are not made: the one just before it cannot be. */
  ghost predicate LeftAt(nodes: Nodes, ns: Nodes, permitted: set<Location>, base: Location, up: seq<string>, n: nat) {
    0 < n <= |up| && AllGood(permitted, base, up[n..]) && !Good(permitted, base, up[n - 1..])
      && ns == Made(nodes, base, up[n..])
  }

  lemma ChainTail(look: string -> Stat, p: string, up: seq<string>)
    requires IsChain(look, p, up) && up != []
    ensures IsChain(look, Dirname(p), up[1..]) && Base(Dirname(p), up[1..]) == Base(p, up)
    ensures p != "" && p != "/" && look(p) == Missing && up == [p] + up[1..]
  {
    assert IsLink(look, up, 0);
    forall i | 0 <= i < |up[1..]|
      ensures IsLink(look, up[1..], i)
    {
      assert IsLink(look, up, i + 1);
    }
    assert |up| > 1 ==> IsLink(look, up, 1);
  }

  ghost predicate MadeOrLeft(nodes: Nodes, cwd: Location, permitted: set<Location>, base: Location, p: string,
      up: seq<string>)
  {
    var all := MakeAll(nodes, cwd, permitted, up);
    && (all.ok <==> AllGood(permitted, base, up))
    && (all.ok ==> Progress(nodes, all.nodes, cwd, base, p, up) && all.made == Order(base, up))
    && (!all.ok ==> exists n :: LeftAt(nodes, all.nodes, permitted, base, up, n))
  }

  lemma OneMore(nodes: Nodes, cwd: Location, permitted: set<Location>, base: Location, p: string, up: seq<string>)
    requires Rooted(nodes) && p != "" && p != "/" && StatOf(nodes, cwd, p) == Missing
    requires MadeOrLeft(nodes, cwd, permitted, base, Dirname(p), up) && MakeAll(nodes, cwd, permitted, up).ok
    ensures MadeOrLeft(nodes, cwd, permitted, base, p, [p] + up)
  {
    var above := MakeAll(nodes, cwd, permitted, up);
    var all := [p] + up;
    assert all[0] == p && all[1..] == up && all[0..] == all;
    MakesIffGood(nodes, above.nodes, cwd, permitted, base, p, up);
    if CanMake(above.nodes, cwd, permitted, p) {
      GoodMakesProgress(nodes, above.nodes, cwd, permitted, base, p, up);
      MadeGrows(nodes, base, p, up);
    } else {
      assert LeftAt(nodes, above.nodes, permitted, base, all, 1);
    }
  }

  lemma LeftBelow(nodes: Nodes, ns: Nodes, permitted: set<Location>, base: Location, p: string, up: seq<string>, n: nat)
    requires LeftAt(nodes, ns, permitted, base, up, n)
    ensures LeftAt(nodes, ns, permitted, base, [p] + up, n + 1)
  {
    var all := [p] + up;
    assert all[n + 1..] == up[n..] && all[n..] == up[n - 1..];
  }

  lemma NoMore(nodes: Nodes, cwd: Location, permitted: set<Location>, base: Location, p: string, up: seq<string>)
    requires MadeOrLeft(nodes, cwd, permitted, base, Dirname(p), up) && !MakeAll(nodes, cwd, permitted, up).ok
    ensures MadeOrLeft(nodes, cwd, permitted, base, p, [p] + up)
  {
    var above := MakeAll(nodes, cwd, permitted, up);
    var all := [p] + up;
    assert all[1..] == up;
    var n :| LeftAt(nodes, above.nodes, permitted, base, up, n);
    LeftBelow(nodes, above.nodes, permitted, base, p, up, n);
  }

  /**
   The loop makes the whole chain if and only if every path of it is good, and
   otherwise what lies above the first bad one.
   */
  lemma {:induction false} MakesAllIffGood(nodes: Nodes, cwd: Location, permitted: set<Location>, base: Location,
      p: string, up: seq<string>)
    requires Rooted(nodes) && IsChain(Looks(nodes, cwd), p, up) && Located(nodes, cwd, Base(p, up), base)
    ensures MadeOrLeft(nodes, cwd, permitted, base, p, up)
    decreases |up|
  {
    if up == [] {
      assert base + [] == base;
    } else {
      ChainTail(Looks(nodes, cwd), p, up);
      MakesAllIffGood(nodes, cwd, permitted, base, Dirname(p), up[1..]);
      if MakeAll(nodes, cwd, permitted, up[1..]).ok {
        OneMore(nodes, cwd, permitted, base, p, up[1..]);
      } else {
        NoMore(nodes, cwd, permitted, base, p, up[1..]);
      }
    }
  }

  // ----- the two loops

  method ClimbUp(fs: FileSystem, path: string) returns (stack: seq<string>, found: bool)
    requires Looks(fs.nodes, fs.cwd)("/") != Missing
    ensures found == Climb(Looks(fs.nodes, fs.cwd), path).1
    ensures found ==> stack == Climb(Looks(fs.nodes, fs.cwd), path).0
  {
    var look := Looks(fs.nodes, fs.cwd);
    stack := [];
    var p := path;
    assert [] + Climb(look, path).0 == Climb(look, path).0;
    while p != ""
      invariant stack + Climb(look, p).0 == Climb(look, path).0
      invariant Climb(look, p).1 == Climb(look, path).1
      decreases |p|
    {
      var st := look(p);
      if st == StatError {
        return stack, false;
      }
      if st != Missing {
        if st != Directory {
          return stack, false;
        } else {
          break;
        }
      }
      DirnameShortens(p);
      ghost var up := Climb(look, Dirname(p)).0;
      assert stack + ([p] + up) == stack + [p] + up;
      stack := stack + [p];
      p := Dirname(p);
    }
    return stack, true;
  }

  /** Directories are made from the top of the stack until one cannot be made. */
  method MakeDown(fs: FileSystem, stack: seq<string>) returns (ok: bool)
    requires fs.Valid()
    modifies fs
    ensures fs.Valid()
    ensures var all := old(MakeAll(fs.nodes, fs.cwd, fs.permitted, stack));
            ok == all.ok && fs.nodes == all.nodes && fs.created == old(fs.created) + all.made
  {
    ghost var nodes, created := fs.nodes, fs.created;
    var n := |stack|;
    assert stack[n..] == [] && created + [] == created;
    while n > 0
      invariant 0 <= n <= |stack| && fs.Valid()
      invariant MakeAll(nodes, fs.cwd, fs.permitted, stack[n..]).ok
      invariant MakeAll(nodes, fs.cwd, fs.permitted, stack[n..]).nodes == fs.nodes
      invariant fs.created == created + MakeAll(nodes, fs.cwd, fs.permitted, stack[n..]).made
    {
      assert stack[n - 1..][1..] == stack[n..];
      var made := fs.Mkdir(stack[n - 1]);
      if !made {
        FailureStays(nodes, fs.cwd, fs.permitted, stack, n - 1);
        return false;
      }
      n := n - 1;
    }
    assert stack[0..] == stack;
    return true;
  }

  /**
   `mkdirs`: climbs to the nearest existing ancestor and makes the missing
   directories from there down. It succeeds exactly when the climb ends at a
   directory, every missing path ends in a name that is neither empty nor a dot
   entry, and making each is permitted.
   */
  method Mkdirs(fs: FileSystem, path: string) returns (ok: bool, ghost base: Location)
    requires fs.Valid()
    modifies fs
    ensures fs.Valid()
    ensures var (up, found) := old(Climb(Looks(fs.nodes, fs.cwd), path));
            && ok == (found && AllGood(fs.permitted, base, up))
            && (found ==> Located(old(fs.nodes), fs.cwd, Base(path, up), base))
            && (ok ==> fs.nodes == Made(old(fs.nodes), base, up) && fs.created == old(fs.created) + Order(base, up))
            && (ok ==> Located(fs.nodes, fs.cwd, path, base + Names(up)))
            && (!found ==> fs.nodes == old(fs.nodes) && fs.created == old(fs.created))
            && (found && !ok ==> exists n :: LeftAt(old(fs.nodes), fs.nodes, fs.permitted, base, up, n))
  {
    ghost var nodes := fs.nodes;
    base := [];
    RootIsFound(nodes, fs.cwd);
    var stack, found := ClimbUp(fs, path);
    if !found {
      return false, base;
    }
    ClimbIsChain(Looks(nodes, fs.cwd), path);
    FoundIsLocated(nodes, fs.cwd, Base(path, stack));
    base :| Located(nodes, fs.cwd, Base(path, stack), base);
    MakesAllIffGood(nodes, fs.cwd, fs.permitted, base, path, stack);
    ok := MakeDown(fs, stack);
  }

  // ----- spellings that fail

  /** A missing path that ends in two slashes, in `.` or in `..` is never made, wherever it is permitted. */
  lemma SpellingFails(look: string -> Stat, permitted: set<Location>, path: string, base: Location)
    requires look("/") != Missing && path != "" && look(path) == Missing && !IsName(Basename(path))
    ensures !AllGood(permitted, base, Climb(look, path).0)
  {
    assert Climb(look, path).0[0] == path;
  }

  lemma SplitDoubleSlash(name: string)
    requires name != "" && '/' !in name
    ensures Dirname(name + "//") == name && Basename(name + "//") == ""
  {
    var p := name + "//";
    var t := name + "/";
    assert p[..|p| - 1] == t == Trimmed(p) && t[..|t| - 1] == name && t[|t|..] == "";
    LastSlashAt(t, |name|);
  }

  lemma ComponentsOfName(name: string)
    requires name != "" && '/' !in name
    ensures Components(name) == [name]
  {
    assert forall k :: 0 <= k < |name| ==> name[k] in name;
    LastSlashAt(name, -1);
    ComponentsBare(name);
    RootIsEmpty();
    assert [] + [name] == [name];
  }

  lemma ComponentsOfDouble(name: string)
    ensures Components(name + "//") == Components(name)
  {
    var p := name + "//";
    var t := name + "/";
    assert p[..|p| - 1] == t && t[..|t| - 1] == name;
    TrailingSlash(p);
    TrailingSlash(t);
  }

  lemma MissingInWorkingDir(nodes: Nodes, cwd: Location, name: string)
    requires NodeAt(nodes, cwd) == Directory && IsName(name) && '/' !in name
    ensures Resolve(nodes, cwd, name) == Resolve(nodes, cwd, name + "//") == At(cwd + [name])
    ensures StatOf(nodes, cwd, name + "//") == Missing ==> StatOf(nodes, cwd, name) == Missing
  {
    ComponentsOfName(name);
    ComponentsOfDouble(name);
    assert name[0] in name;
    assert [name][..0] == [];
    assert Walk(nodes, cwd, []) == At(cwd);
  }

  /**
   `name//` where `name` is missing from the working directory: the directory is
   made for the second path on the stack, and the first denotes it again, so
   that the call fails.
   */
  lemma DoubleSlashFails(nodes: Nodes, cwd: Location, permitted: set<Location>, name: string)
    requires Rooted(nodes) && NodeAt(nodes, cwd) == Directory && IsName(name) && '/' !in name
    requires StatOf(nodes, cwd, name + "//") == Missing && cwd + [name] in permitted
    ensures Looks(nodes, cwd)("/") != Missing
    ensures Climb(Looks(nodes, cwd), name + "//") == ([name + "//", name], true)
    ensures MakeAll(nodes, cwd, permitted, [name + "//", name])
            == Outcome(nodes[cwd + [name] := Directory], [cwd + [name]], false)
  {
    var p, l := name + "//", cwd + [name];
    RootIsFound(nodes, cwd);
    SplitDoubleSlash(name);
    SplitBare(name);
    MissingInWorkingDir(nodes, cwd, name);
    ClimbsTwice(Looks(nodes, cwd), name);
    CanMakeIn(nodes, cwd, permitted, name, cwd);
    assert l[..|l| - 1] == cwd;
    assert l in nodes ==> IsEntry(nodes, l);
    assert [name][1..] == []
      && MakeAll(nodes, cwd, permitted, [name]) == Outcome(nodes[l := Directory], [] + [l], true);
    MadeIsLocated(nodes, cwd, name, l);
    CanMakeIn(nodes[l := Directory], cwd, permitted, p, l);
    assert [p, name][1..] == [name];
  }

  lemma ClimbsTwice(look: string -> Stat, name: string)
    requires look("/") != Missing && name != "" && '/' !in name
    requires look(name) == Missing && look(name + "//") == Missing
    ensures Climb(look, name + "//") == ([name + "//", name], true)
  {
    SplitDoubleSlash(name);
    SplitBare(name);
    assert Climb(look, "") == ([], true);
    assert Climb(look, name) == ([name] + [], true) && [name] + [] == [name];
    assert [name + "//"] + [name] == [name + "//", name];
  }
}
