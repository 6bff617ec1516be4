/** What resolving a path means: a fold of directory lookups over its components. */
module PathSpec {
  import opened Bytes
  import opened Options

  type Inode = x: int | 0 <= x < 0x1_0000_0000_0000_0000

  const SLASH: Byte := 47
  const ROOT_INODE: Inode := 0x8000_0000_0000_0000

  /** The name bindings of the file system: the child of a directory under a name. */
  type Bindings = (Inode, seq<Byte>) -> Option<Inode>

  datatype Resolution =
    | Resolved(pinode: Inode, fname: seq<Byte>, depth: Option<nat>)
    | InvalidArgument
    | Corruption

  /** The length of the text up to the first slash. */
  function Span(s: seq<Byte>): (n: nat)
    ensures n <= |s|
  {
    if s == [] || s[0] == SLASH then 0 else 1 + Span(s[1..])
  }

  /** The maximal slash-free runs of a path. */
  function Components(s: seq<Byte>): seq<seq<Byte>>
    decreases |s|
  {
    if s == [] then []
    else if s[0] == SLASH then Components(s[1..])
    else [s[..Span(s)]] + Components(s[Span(s)..])
  }

  function Walk(lookup: Bindings, dir: Inode, names: seq<seq<Byte>>): Option<Inode>
    decreases |names|
  {
    if names == [] then Some(dir)
    else match lookup(dir, names[0])
      case None => None
      case Some(child) => Walk(lookup, child, names[1..])
  }

  /**
   * The parent directory and the final name of a path. Repeated and trailing slashes do not matter. The walk
   * starts at inode 0; the root itself resolves to its own inode with an empty name, and leaves the caller's
   * depth as it was.
   */
  function Resolve(lookup: Bindings, path: seq<Byte>): Resolution {
    if path == [] || path[0] != SLASH then InvalidArgument
    else
      var names := Components(path);
      if names == [] then Resolved(ROOT_INODE, [], None)
      else match Walk(lookup, 0, names[..|names| - 1])
        case None => Corruption
        case Some(dir) => Resolved(dir, names[|names| - 1], Some(|names| - 1))
  }

  // ----- what a walk and a path are, apart from the functions above -----

  /** A trail of directories, each one bound in the one before under the next name. */
  ghost predicate Trail(lookup: Bindings, names: seq<seq<Byte>>, t: seq<Inode>) {
    |t| == |names| + 1 && forall i :: 0 <= i < |names| ==> lookup(t[i], names[i]) == Some(t[i + 1])
  }

  /** A trail over the names leads from one directory to another. */
  ghost predicate Leads(lookup: Bindings, from: Inode, names: seq<seq<Byte>>, to: Inode) {
    exists t :: Trail(lookup, names, t) && t[0] == from && t[|names|] == to
  }

  /** Where trails over the names lead from the inode that every walk starts at. */
  ghost predicate Ends(lookup: Bindings, names: seq<seq<Byte>>, end: Option<Inode>) {
    match end
    case Some(dir) => Leads(lookup, 0, names, dir)
    case None => forall dir :: !Leads(lookup, 0, names, dir)
  }

  lemma WalkEnds(lookup: Bindings, names: seq<seq<Byte>>)
    ensures Ends(lookup, names, Walk(lookup, 0, names))
  {
    forall dir: Inode ensures Walk(lookup, 0, names) == Some(dir) <==> Leads(lookup, 0, names, dir) {
      WalkExactly(lookup, 0, names, dir);
    }
  }

  lemma TrailTail(lookup: Bindings, names: seq<seq<Byte>>, t: seq<Inode>)
    requires names != [] && Trail(lookup, names, t)
    ensures lookup(t[0], names[0]) == Some(t[1]) && Trail(lookup, names[1..], t[1..])
  {
  }

  lemma TrailFrom(lookup: Bindings, names: seq<seq<Byte>>, d: Inode, t: seq<Inode>)
    requires names != [] && Trail(lookup, names[1..], t) && lookup(d, names[0]) == Some(t[0])
    ensures Trail(lookup, names, [d] + t)
  {
    forall i | 0 <= i < |names| ensures lookup(([d] + t)[i], names[i]) == Some(([d] + t)[i + 1]) {
      if i > 0 {
        assert names[1..][i - 1] == names[i];
      }
    }
  }

  /** A walk ends where a trail leads, and fails when none does. */
  lemma {:induction false} WalkExactly(lookup: Bindings, d: Inode, names: seq<seq<Byte>>, e: Inode)
    ensures Walk(lookup, d, names) == Some(e) <==> Leads(lookup, d, names, e)
    decreases |names|
  {
    if Walk(lookup, d, names) == Some(e) {
      WalkTrail(lookup, d, names, e);
    }
    if Leads(lookup, d, names, e) {
      var t :| Trail(lookup, names, t) && t[0] == d && t[|names|] == e;
      TrailWalk(lookup, names, t);
    }
  }

  lemma {:induction false} WalkTrail(lookup: Bindings, d: Inode, names: seq<seq<Byte>>, e: Inode)
    requires Walk(lookup, d, names) == Some(e)
    ensures Leads(lookup, d, names, e)
    decreases |names|
  {
    if names == [] {
      assert Trail(lookup, names, [d]);
    } else {
      var child := lookup(d, names[0]).value;
      WalkTrail(lookup, child, names[1..], e);
      var t :| Trail(lookup, names[1..], t) && t[0] == child && t[|names| - 1] == e;
      TrailFrom(lookup, names, d, t);
      assert ([d] + t)[0] == d && ([d] + t)[|names|] == e;
    }
  }

  lemma {:induction false} TrailWalk(lookup: Bindings, names: seq<seq<Byte>>, t: seq<Inode>)
    requires Trail(lookup, names, t)
    ensures Walk(lookup, t[0], names) == Some(t[|names|])
    decreases |names|
  {
    if names != [] {
      TrailTail(lookup, names, t);
      TrailWalk(lookup, names[1..], t[1..]);
    }
  }

  /** Names with slashes around them: `gaps[i]` slashes before the i-th name, and `gaps[|names|]` at the end. */
  ghost function Joined(names: seq<seq<Byte>>, gaps: seq<nat>): seq<Byte>
    requires |gaps| == |names| + 1
  {
    if names == [] then Slashes(gaps[0]) else Slashes(gaps[0]) + names[0] + Joined(names[1..], gaps[1..])
  }

  function Slashes(n: nat): (s: seq<Byte>)
    ensures |s| == n && forall i :: 0 <= i < n ==> s[i] == 47
  {
    seq(n, i => 47)
  }

  /** The path holds exactly these names: none is empty or holds a slash, and slashes stand between any two. */
  ghost predicate Holds(path: seq<Byte>, names: seq<seq<Byte>>) {
    && (forall i :: 0 <= i < |names| ==> names[i] != [] && 47 !in names[i])
    && exists gaps: seq<nat> :: |gaps| == |names| + 1 && Between(gaps) && path == Joined(names, gaps)
  }

  ghost predicate Between(gaps: seq<nat>) {
    forall i :: 0 < i < |gaps| - 1 ==> gaps[i] > 0
  }

  /** The components of a path are the names it holds. */
  lemma ComponentsExactly(path: seq<Byte>, names: seq<seq<Byte>>)
    ensures Components(path) == names <==> Holds(path, names)
  {
    if Components(path) == names {
      ComponentsHeld(path);
    }
    if Holds(path, names) {
      var gaps: seq<nat> :| |gaps| == |names| + 1 && Between(gaps) && path == Joined(names, gaps);
      ComponentsJoined(names, gaps);
    }
  }

  lemma {:induction false} SlashesSkipped(n: nat, rest: seq<Byte>)
    ensures Components(Slashes(n) + rest) == Components(rest)
  {
    if n == 0 {
      assert Slashes(n) + rest == rest;
    } else {
      assert (Slashes(n) + rest)[1..] == Slashes(n - 1) + rest;
      SlashesSkipped(n - 1, rest);
    }
  }

  lemma {:induction false} ComponentsJoined(names: seq<seq<Byte>>, gaps: seq<nat>)
    requires |gaps| == |names| + 1 && Between(gaps)
    requires forall i :: 0 <= i < |names| ==> names[i] != [] && 47 !in names[i]
    ensures Components(Joined(names, gaps)) == names
    decreases |names|
  {
    if names == [] {
      SlashesSkipped(gaps[0], []);
      assert Slashes(gaps[0]) + [] == Slashes(gaps[0]);
    } else {
      var rest := Joined(names[1..], gaps[1..]);
      assert Slashes(gaps[0]) + names[0] + rest == Slashes(gaps[0]) + (names[0] + rest);
      SlashesSkipped(gaps[0], names[0] + rest);
      ComponentsJoined(names[1..], gaps[1..]);
      JoinedStart(names[1..], gaps[1..]);
      ComponentFirst(names[0], rest);
    }
  }

  lemma JoinedStart(names: seq<seq<Byte>>, gaps: seq<nat>)
    requires |gaps| == |names| + 1 && (names != [] ==> gaps[0] > 0)
    ensures Joined(names, gaps) == [] || Joined(names, gaps)[0] == 47
  {
  }

  lemma {:induction false} ComponentsHeld(path: seq<Byte>)
    ensures Holds(path, Components(path))
    decreases |path|
  {
    var names := Components(path);
    if path == [] {
      assert path == Joined([], [0]);
      assert Between([0]);
    } else if path[0] == SLASH {
      ComponentsHeld(path[1..]);
      var gaps: seq<nat> :| |gaps| == |names| + 1 && Between(gaps) && path[1..] == Joined(names, gaps);
      MoreSlashes(path, names, gaps);
    } else {
      var n := Span(path);
      SpanStops(path);
      ComponentsHeld(path[n..]);
      var gaps: seq<nat> :| |gaps| == |names| && Between(gaps) && path[n..] == Joined(names[1..], gaps);
      MoreNames(path, n, names, gaps);
    }
  }

  lemma MoreSlashes(path: seq<Byte>, names: seq<seq<Byte>>, gaps: seq<nat>)
    requires path != [] && path[0] == 47 && forall i :: 0 <= i < |names| ==> names[i] != [] && 47 !in names[i]
    requires |gaps| == |names| + 1 && Between(gaps) && path[1..] == Joined(names, gaps)
    ensures Holds(path, names)
  {
    var more: seq<nat> := gaps[0 := gaps[0] + 1];
    OneMoreSlash(names, gaps);
    assert path == [47] + path[1..];
    assert Between(more);
  }

  lemma OneMoreSlash(names: seq<seq<Byte>>, gaps: seq<nat>)
    requires |gaps| == |names| + 1
    ensures Joined(names, gaps[0 := gaps[0] + 1]) == [47] + Joined(names, gaps)
  {
    var more: seq<nat> := gaps[0 := gaps[0] + 1];
    assert more[1..] == gaps[1..];
    assert Slashes(gaps[0] + 1) == [47] + Slashes(gaps[0]);
    if names != [] {
      Regroup([47], Slashes(gaps[0]), names[0], Joined(names[1..], gaps[1..]));
    }
  }

  lemma Regroup(a: seq<Byte>, b: seq<Byte>, c: seq<Byte>, d: seq<Byte>)
    ensures a + b + c + d == a + (b + c + d)
  {
  }

  lemma MoreNames(path: seq<Byte>, n: nat, names: seq<seq<Byte>>, gaps: seq<nat>)
    requires names != [] && 0 < n <= |path| && names[0] == path[..n] && (n < |path| ==> path[n] == 47)
    requires forall i :: 0 <= i < |names| ==> names[i] != [] && 47 !in names[i]
    requires |gaps| == |names| && Between(gaps) && path[n..] == Joined(names[1..], gaps)
    ensures Holds(path, names)
  {
    var more: seq<nat> := [0] + gaps;
    assert more[1..] == gaps;
    assert path == Slashes(0) + names[0] + path[n..];
    assert path == Joined(names, more);
    NameFirst(names[1..], gaps);
    assert Between(more);
  }

  /** Without slashes before it, a name comes first. */
  lemma NameFirst(names: seq<seq<Byte>>, gaps: seq<nat>)
    requires |gaps| == |names| + 1 && forall i :: 0 <= i < |names| ==> names[i] != [] && 47 !in names[i]
    ensures names != [] && gaps[0] == 0 ==> Joined(names, gaps) != [] && Joined(names, gaps)[0] != 47
  {
    if names != [] && gaps[0] == 0 {
      assert names[0][0] in names[0];
    }
  }

  /** What resolving a path may return, in these terms. */
  ghost predicate Resolves(lookup: Bindings, path: seq<Byte>, r: Resolution) {
    var absolute := path != [] && path[0] == 47;
    match r
    case InvalidArgument => !absolute
    case Resolved(dir, name, None) => absolute && Holds(path, []) && dir == 0x8000_0000_0000_0000 && name == []
    case Resolved(dir, name, Some(depth)) =>
      absolute && exists names :: Holds(path, names + [name]) && |names| == depth && Leads(lookup, 0, names, dir)
    case Corruption =>
      absolute && exists names, name :: Holds(path, names + [name]) && Ends(lookup, names, None)
  }

  /** It is that and nothing else. */
  lemma ResolveExactly(lookup: Bindings, path: seq<Byte>, r: Resolution)
    ensures Resolve(lookup, path) == r <==> Resolves(lookup, path, r)
  {
    ResolveResolves(lookup, path);
    if Resolves(lookup, path, r) {
      ResolvesOnce(lookup, path, r);
    }
  }

  lemma ResolveResolves(lookup: Bindings, path: seq<Byte>)
    ensures Resolves(lookup, path, Resolve(lookup, path))
  {
    var names := Components(path);
    ComponentsExactly(path, names);
    if path != [] && path[0] == SLASH && names != [] {
      WalkResolves(lookup, path, names[..|names| - 1], names[|names| - 1], names);
    }
  }

  lemma WalkResolves(lookup: Bindings, path: seq<Byte>, init: seq<seq<Byte>>, name: seq<Byte>, names: seq<seq<Byte>>)
    requires path != [] && path[0] == 47 && names == init + [name] && Holds(path, names)
    ensures
      match Walk(lookup, 0, init)
      case None => Resolves(lookup, path, Corruption)
      case Some(dir) => Resolves(lookup, path, Resolved(dir, name, Some(|init|)))
  {
    WalkEnds(lookup, init);
  }

  lemma ResolvesOnce(lookup: Bindings, path: seq<Byte>, r: Resolution)
    requires Resolves(lookup, path, r)
    ensures Resolve(lookup, path) == r
  {
    match r
    case InvalidArgument =>
    case Resolved(dir, name, None) => ComponentsExactly(path, []);
    case Resolved(dir, name, Some(depth)) =>
      var names :| Holds(path, names + [name]) && |names| == depth && Leads(lookup, 0, names, dir);
      WalkExactly(lookup, 0, names, dir);
      ResolveOf(lookup, path, names, name);
    case Corruption =>
      var names, name :| Holds(path, names + [name]) && Ends(lookup, names, None);
      if Walk(lookup, 0, names).Some? {
        WalkExactly(lookup, 0, names, Walk(lookup, 0, names).value);
      }
      ResolveOf(lookup, path, names, name);
  }

  lemma ResolveOf(lookup: Bindings, path: seq<Byte>, names: seq<seq<Byte>>, name: seq<Byte>)
    requires path != [] && path[0] == 47 && Holds(path, names + [name])
    ensures Resolve(lookup, path) ==
      match Walk(lookup, 0, names)
      case None => Corruption
      case Some(dir) => Resolved(dir, name, Some(|names|))
  {
    ComponentsExactly(path, names + [name]);
    assert (names + [name])[..|names|] == names;
  }

  // ----- when the depth is written -----

  predicate OnlySlashes(s: seq<Byte>) {
    forall i :: 0 <= i < |s| ==> s[i] == SLASH
  }

  lemma {:induction false} NoComponents(s: seq<Byte>)
    ensures Components(s) == [] <==> OnlySlashes(s)
  {
    if s != [] && s[0] == SLASH {
      NoComponents(s[1..]);
      assert forall i :: 1 <= i < |s| ==> s[i] == s[1..][i - 1];
    }
  }

  /** "/" resolves and leaves the caller's depth as it was. */
  lemma RootLeavesDepth(lookup: Bindings)
    ensures Resolve(lookup, [SLASH]) == Resolved(ROOT_INODE, [], None)
  {
    NoComponents([SLASH]);
  }

  /** A resolved path writes the depth if and only if it holds a byte other than a slash, and the depth is then the
      number of directories walked. */
  lemma DepthExactly(lookup: Bindings, path: seq<Byte>)
    requires Resolve(lookup, path).Resolved?
    ensures Resolve(lookup, path).depth.Some? <==> exists i :: 0 <= i < |path| && path[i] != SLASH
    ensures Resolve(lookup, path).depth.Some? ==> Resolve(lookup, path).depth.value + 1 == |Components(path)|
  {
    NoComponents(path);
  }

  // ----- paths taken apart -----

  lemma {:induction false} SpanStops(s: seq<Byte>)
    ensures SLASH !in s[..Span(s)] && (Span(s) < |s| ==> s[Span(s)] == SLASH)
  {
    if s != [] && s[0] != SLASH {
      SpanStops(s[1..]);
      assert s[..Span(s)] == [s[0]] + s[1..][..Span(s[1..])];
    }
  }

  lemma {:induction false} SpanOf(name: seq<Byte>, rest: seq<Byte>)
    requires SLASH !in name && (rest == [] || rest[0] == SLASH)
    ensures Span(name + rest) == |name|
  {
    if name != [] {
      assert (name + rest)[1..] == name[1..] + rest;
      SpanOf(name[1..], rest);
    }
  }

  lemma ComponentFirst(name: seq<Byte>, rest: seq<Byte>)
    requires name != [] && SLASH !in name && (rest == [] || rest[0] == SLASH)
    ensures Components(name + rest) == [name] + Components(rest)
  {
    SpanOf(name, rest);
    assert (name + rest)[..|name|] == name && (name + rest)[|name|..] == rest;
  }

  lemma ComponentFirstOf(s: seq<Byte>, name: seq<Byte>, rest: seq<Byte>)
    requires s == name + rest && name != [] && SLASH !in name && (rest == [] || rest[0] == SLASH)
    ensures Components(s) == [name] + Components(rest)
  {
    ComponentFirst(name, rest);
  }

  lemma Associate<T>(a: seq<T>, b: seq<T>, c: seq<T>)
    ensures a + (b + c) == a + b + c
  {
  }

  /** A path splits at any slash. */
  lemma {:induction false} ComponentsConcat(a: seq<Byte>, b: seq<Byte>)
    requires b == [] || b[0] == SLASH
    ensures Components(a + b) == Components(a) + Components(b)
    decreases |a|
  {
    if a == [] {
      assert a + b == b;
    } else if a[0] == SLASH {
      assert (a + b)[1..] == a[1..] + b;
      ComponentsConcat(a[1..], b);
    } else {
      var n := Span(a);
      SpanStops(a);
      CutBefore(a, n, b);
      ComponentFirstOf(a, a[..n], a[n..]);
      ComponentFirstOf(a + b, a[..n], a[n..] + b);
      ComponentsConcat(a[n..], b);
      Associate([a[..n]], Components(a[n..]), Components(b));
    }
  }

  lemma TrailingSlash(path: seq<Byte>)
    requires path != [] && path[|path| - 1] == SLASH
    ensures Components(path) == Components(path[..|path| - 1])
  {
    var init := path[..|path| - 1];
    assert path == init + [SLASH];
    ComponentsConcat(init, [SLASH]);
    assert [SLASH][1..] == [];
  }

  /** The final name comes after the last slash. */
  lemma FinalName(path: seq<Byte>, end: nat)
    requires end < |path| - 1 && path[end] == SLASH && SLASH !in path[end + 1..]
    ensures Components(path) == Components(path[..end]) + [path[end + 1..]]
  {
    CutAt(path, end);
    FinalNameOf(path, path[..end], path[end + 1..]);
  }

  lemma CutAt(s: seq<Byte>, i: nat)
    requires i < |s|
    ensures s == s[..i] + [s[i]] + s[i + 1..]
  {
  }

  lemma CutBefore(a: seq<Byte>, n: nat, b: seq<Byte>)
    requires n <= |a|
    ensures a == a[..n] + a[n..] && a + b == a[..n] + (a[n..] + b)
  {
  }

  lemma FinalNameOf(path: seq<Byte>, init: seq<Byte>, last: seq<Byte>)
    requires path == init + [SLASH] + last && last != [] && SLASH !in last
    ensures Components(path) == Components(init) + [last]
  {
    assert path == init + ([SLASH] + last);
    LastComponent(last);
    ComponentsConcat(init, [SLASH] + last);
  }

  lemma LastComponent(name: seq<Byte>)
    requires name != [] && SLASH !in name
    ensures Components([SLASH] + name) == [name]
  {
    assert ([SLASH] + name)[1..] == name && name + [] == name;
    ComponentFirst(name, []);
  }

  /** One turn of the walk: from one slash to the next. */
  lemma NextComponent(s: seq<Byte>, n: nat)
    requires 1 <= n <= |s| && s[0] == SLASH && SLASH !in s[1..n] && (n < |s| ==> s[n] == SLASH)
    ensures Components(s) == (if n == 1 then [] else [s[1..n]]) + Components(s[n..])
  {
    AfterSlash(s);
    if n > 1 {
      CutWindow(s, n);
      ComponentFirstOf(s[1..], s[1..n], s[n..]);
    }
  }

  lemma AfterSlash(s: seq<Byte>)
    requires s != [] && s[0] == SLASH
    ensures Components(s) == Components(s[1..])
  {
  }

  lemma CutWindow(s: seq<Byte>, n: nat)
    requires 1 <= n <= |s|
    ensures s[1..] == s[1..n] + s[n..]
  {
  }
}

/** The client's cache of directory entries. */
module DentryCache {
  import opened Bytes
  import opened Options
  import opened PathSpec
  import LruSpec
  import opened LruCache

  function FixedBytes(v: nat, n: nat): (s: seq<Byte>)
    ensures |s| == n
  {
    if n == 0 then [] else [v % 256] + FixedBytes(v / 256, n - 1)
  }

  function Pow256(n: nat): nat {
    if n == 0 then 1 else 256 * Pow256(n - 1)
  }

  /** The key of a directory entry: the name, then the directory's inode as eight little-endian bytes. */
  function KeyOf(dir: Inode, name: seq<Byte>): seq<Byte> {
    name + FixedBytes(dir, 8)
  }

  lemma {:induction false} FixedBytesInjective(a: nat, b: nat, n: nat)
    requires a < Pow256(n) && b < Pow256(n) && FixedBytes(a, n) == FixedBytes(b, n)
    ensures a == b
  {
    if n > 0 {
      var x, y := FixedBytes(a, n), FixedBytes(b, n);
      assert x[0] == y[0] && x[1..] == y[1..];
      FixedBytesInjective(a / 256, b / 256, n - 1);
    }
  }

  /** No two directory entries share a key, although names are not terminated or padded. */
  lemma KeyInjective(d: Inode, m: seq<Byte>, e: Inode, n: seq<Byte>)
    requires KeyOf(d, m) == KeyOf(e, n)
    ensures d == e && m == n
  {
    var k := KeyOf(d, m);
    assert |m| == |n|;
    assert m == k[..|m|] == n;
    assert FixedBytes(d, 8) == k[|m|..] == FixedBytes(e, 8);
    Pow256Eight();
    FixedBytesInjective(d, e, 8);
  }

  lemma Pow256Eight()
    ensures Pow256(8) == 0x1_0000_0000_0000_0000
  {
    assert Pow256(4) == 0x1_0000_0000;
  }

  /** Whatever the cache holds for an entry is its binding. */
  ghost predicate Coherent(lookup: Bindings, s: seq<LruSpec.Entry<seq<Byte>, Inode>>) {
    forall d: Inode, n: seq<Byte> | LruSpec.Find(s, KeyOf(d, n)).Some? ::
      lookup(d, n) == Some(LruSpec.Find(s, KeyOf(d, n)).value)
  }

  /** A put changes the answer for its own key only; pruning forgets answers but changes none. */
  lemma FindAfterPut<K, V>(limits: LruSpec.Limits, s: seq<LruSpec.Entry<K, V>>, k: K, v: V, j: K)
    ensures
      var after := LruSpec.Find(LruSpec.Step(limits, s, LruSpec.Put(k, v)), j);
      after == None || after == if j == k then Some(v) else LruSpec.Find(s, j)
  {
    if LruSpec.Find(s, k).Some? {
      FindToFront(s, k, v, j);
    } else {
      var t := [LruSpec.Entry(k, v)] + s;
      assert t[1..] == s;
      FindPrefix(t, |LruSpec.Pruned(limits, t)|, j);
      assert t[..|t|] == t;
    }
  }

  lemma FindToFront<K, V>(s: seq<LruSpec.Entry<K, V>>, k: K, v: V, j: K)
    ensures LruSpec.Find(LruSpec.ToFront(s, k, v), j) == if j == k then Some(v) else LruSpec.Find(s, j)
  {
    assert LruSpec.ToFront(s, k, v)[1..] == LruSpec.Without(s, k);
    if j != k {
      FindWithout(s, k, j);
    }
  }

  lemma {:induction false} FindWithout<K, V>(s: seq<LruSpec.Entry<K, V>>, k: K, j: K)
    requires j != k
    ensures LruSpec.Find(LruSpec.Without(s, k), j) == LruSpec.Find(s, j)
  {
    if s != [] && s[0].key != k {
      FindWithout(s[1..], k, j);
      assert ([s[0]] + LruSpec.Without(s[1..], k))[1..] == LruSpec.Without(s[1..], k);
    }
  }

  lemma {:induction false} FindPrefix<K, V>(s: seq<LruSpec.Entry<K, V>>, n: nat, j: K)
    requires n <= |s|
    ensures LruSpec.Find(s[..n], j) == None || LruSpec.Find(s[..n], j) == LruSpec.Find(s, j)
  {
    if n > 0 {
      assert s[..n][1..] == s[1..][..n - 1];
      FindPrefix(s[1..], n - 1, j);
    }
  }

  lemma CoherentAfterPut(
      lookup: Bindings, limits: LruSpec.Limits, s: seq<LruSpec.Entry<seq<Byte>, Inode>>, dir: Inode, name: seq<Byte>,
      child: Inode)
    requires Coherent(lookup, s) && lookup(dir, name) == Some(child)
    ensures Coherent(lookup, LruSpec.Step(limits, s, LruSpec.Put(KeyOf(dir, name), child)))
  {
    var t := LruSpec.Step(limits, s, LruSpec.Put(KeyOf(dir, name), child));
    forall d: Inode, n: seq<Byte> | LruSpec.Find(t, KeyOf(d, n)).Some?
      ensures lookup(d, n) == Some(LruSpec.Find(t, KeyOf(d, n)).value)
    {
      FindAfterPut(limits, s, KeyOf(dir, name), child, KeyOf(d, n));
      if KeyOf(d, n) == KeyOf(dir, name) {
        KeyInjective(d, n, dir, name);
      }
    }
  }

  lemma CoherentAfterGet(
      lookup: Bindings, limits: LruSpec.Limits, s: seq<LruSpec.Entry<seq<Byte>, Inode>>, k: seq<Byte>)
    requires Coherent(lookup, s)
    ensures Coherent(lookup, LruSpec.Step(limits, s, LruSpec.Get(k)))
  {
    if LruSpec.Find(s, k).Some? {
      forall d: Inode, n: seq<Byte> {
        FindToFront(s, k, LruSpec.Find(s, k).value, KeyOf(d, n));
      }
    }
  }
}

/** The client's path resolution over the cache and the metadata servers. */
module MetaClient {
  import opened Bytes
  import opened Options
  import opened PathSpec
  import opened DentryCache
  import LruSpec
  import LruCache

  datatype Response = Success(inode: Inode) | Fail | Transient  // Transient: kUpdateRegionMap or kEBUSY

  class Client {
    const lookup: Bindings
    const transient: nat -> bool  // whether the servers turn away their n-th call
    var calls: nat
    const cache: LruCache.Cache<seq<Byte>, Inode>

    ghost predicate Valid()
      reads this, cache
    {
      cache.Valid() && Coherent(lookup, cache.Entries())
    }

    /** A cache of any capacity, with the elasticity that DentryCache gives it. */
    constructor (lookup: Bindings, transient: nat -> bool, capacity: nat)
      ensures Valid() && calls == 0 && this.lookup == lookup && this.transient == transient && fresh(cache)
    {
      this.lookup, this.transient, calls := lookup, transient, 0;
      cache := new LruCache.Cache(capacity, capacity / 4);
    }

    /** RPC_Getinode, while the bindings do not change. */
    method GetInode(dir: Inode, name: seq<Byte>) returns (res: Response)
      modifies `calls
      ensures calls == old(calls) + 1
      ensures res == if transient(old(calls)) then Transient
                     else match lookup(dir, name) case Some(child) => Success(child) case None => Fail
    {
      var turnedAway := transient(calls);
      calls := calls + 1;
      if turnedAway {
        return Transient;
      }
      match lookup(dir, name)
      case Some(child) => return Success(child);
      case None => return Fail;
    }

    /** At least two calls were made since there were `before`, and the last two were both turned away. */
    ghost predicate GaveUp(before: nat)
      reads `calls
    {
      calls >= before + 2 && transient(calls - 2) && transient(calls - 1)
    }

    /** One component: from the cache without a call, or from a server with one retry; either way it is then
        the most recently used entry of the cache. */
    method Child(dir: Inode, name: seq<Byte>) returns (child: Option<Inode>)
      requires Valid()
      modifies `calls, cache
      ensures Valid() && old(calls) <= calls <= old(calls) + 2
      ensures child == lookup(dir, name) || (child == None && GaveUp(old(calls)))
      ensures LruSpec.Find(old(cache.Entries()), KeyOf(dir, name)).Some? ==> child.Some? && calls == old(calls)
      ensures child.Some? ==>
        cache.Entries() != [] && cache.Entries()[0] == LruSpec.Entry(KeyOf(dir, name), child.value)
    {
      child := Recall(dir, name);
      if child.Some? {
        return;
      }
      child := Fetch(dir, name);
      if child.Some? {
        Remember(dir, name, child.value);
      }
    }

    /** The cache's answer. */
    method Recall(dir: Inode, name: seq<Byte>) returns (child: Option<Inode>)
      requires Valid()
      modifies cache
      ensures Valid() && child == LruSpec.Find(old(cache.Entries()), KeyOf(dir, name))
      ensures child.Some? ==>
        lookup(dir, name) == child &&
        cache.Entries() != [] && cache.Entries()[0] == LruSpec.Entry(KeyOf(dir, name), child.value)
    {
      CoherentAfterGet(lookup, cache.limits, cache.Entries(), KeyOf(dir, name));
      child := cache.TryGet(KeyOf(dir, name));
    }

    /** The servers' answer, with one retry. */
    method Fetch(dir: Inode, name: seq<Byte>) returns (child: Option<Inode>)
      modifies `calls
      ensures old(calls) < calls <= old(calls) + 2
      ensures child == lookup(dir, name) || (child == None && GaveUp(old(calls)))
    {
      var res := GetInode(dir, name);
      if res.Transient? {
        res := GetInode(dir, name);
      }
      return if res.Success? then Some(res.inode) else None;
    }

    method Remember(dir: Inode, name: seq<Byte>, child: Inode)
      requires Valid() && lookup(dir, name) == Some(child)
      modifies cache
      ensures Valid() && cache.Entries() != [] && cache.Entries()[0] == LruSpec.Entry(KeyOf(dir, name), child)
    {
      CoherentAfterPut(lookup, cache.limits, cache.Entries(), dir, name, child);
      cache.Insert(KeyOf(dir, name), child);
    }

    /** path.find("/", from), for a path that has a slash at or behind `from`. */
    method FindSlash(path: seq<Byte>, from: nat, ghost limit: nat) returns (at: nat)
      requires from <= limit < |path| && path[limit] == SLASH
      ensures from <= at <= limit && path[at] == SLASH && SLASH !in path[from..at]
    {
      at := from;
      while path[at] != SLASH
        invariant from <= at <= limit && SLASH !in path[from..at]
        decreases limit - at
      {
        assert path[from..at + 1] == path[from..at] + [path[at]];
        at := at + 1;
      }
    }

    /** path.rfind("/"), for an absolute path. */
    method LastSlash(path: seq<Byte>) returns (at: nat)
      requires path != [] && path[0] == SLASH
      ensures at < |path| && path[at] == SLASH && SLASH !in path[at + 1..]
    {
      at := |path| - 1;
      while path[at] != SLASH
        invariant at < |path| && SLASH !in path[at + 1..]
        decreases at
      {
        assert path[at..] == [path[at]] + path[at + 1..];
        at := at - 1;
      }
    }

    /** The loop of Internal_ResolvePath. */
    method WalkPath(path: seq<Byte>, end: nat) returns (dir: Option<Inode>, depth: nat)
      requires Valid() && end < |path| && path[0] == SLASH && path[end] == SLASH
      modifies `calls, cache
      ensures Valid() && calls <= old(calls) + 2 * |Components(path[..end])|
      ensures dir == Walk(lookup, 0, Components(path[..end])) || (dir == None && GaveUp(old(calls)))
      ensures Ends(lookup, Components(path[..end]), dir) || (dir == None && GaveUp(old(calls)))
      ensures dir.Some? ==> depth == |Components(path[..end])|
    {
      ghost var names := Components(path[..end]);
      WalkEnds(lookup, names);
      var last, current: Inode := 0, 0;
      depth := 0;
      assert path[0..end] == path[..end];
      while last < end
        invariant last <= end && path[last] == SLASH && Valid() && old(calls) <= calls <= old(calls) + 2 * depth
        invariant Walk(lookup, current, Components(path[last..end])) == Walk(lookup, 0, names)
        invariant depth + |Components(path[last..end])| == |names|
      {
        var now := FindSlash(path, last + 1, end);
        Advance(path, last, now, end);
        if now - last > 1 {
          depth := depth + 1;
          var name := path[last + 1..now];
          var child := Child(current, name);
          if child == None {
            return None, depth;
          }
          current := child.value;
        }
        last := now;
      }
      return Some(current), depth;
    }

    method Internal(path: seq<Byte>) returns (r: Resolution)
      requires Valid() && path != [] && path[0] == SLASH && path[|path| - 1] != SLASH
      modifies `calls, cache
      ensures Valid() && calls <= old(calls) + 2 * |Components(path)|
      ensures r == Resolve(lookup, path) || (r == Corruption && GaveUp(old(calls)))
    {
      var end := LastSlash(path);
      FinalName(path, end);
      ghost var names := Components(path);
      assert names[..|names| - 1] == Components(path[..end]);
      var dir, depth := WalkPath(path, end);
      if dir == None {
        return Corruption;
      }
      return Resolved(dir.value, path[end + 1..], Some(depth));
    }

    /**
     * ResolvePath. For every path, cache capacity and cache contents that agree with the bindings, the parent is the
     * end of the trail from inode 0 over all names but the last, unless the call ended because a lookup was turned
     * away twice in a row. It makes at most two calls for each component.
     */
    method ResolvePath(path: seq<Byte>) returns (r: Resolution)
      requires Valid()
      modifies `calls, cache
      ensures Valid() && calls <= old(calls) + 2 * |Components(path)|
      ensures Resolves(lookup, path, r) || (r == Corruption && GaveUp(old(calls)))
    {
      r := ResolveParts(path);
      ResolveExactly(lookup, path, r);
    }

    method ResolveParts(path: seq<Byte>) returns (r: Resolution)
      requires Valid()
      modifies `calls, cache
      ensures Valid() && calls <= old(calls) + 2 * |Components(path)|
      ensures r == Resolve(lookup, path) || (r == Corruption && GaveUp(old(calls)))
      decreases |path|
    {
      if path == [] {
        return InvalidArgument;
      }
      if path[0] != SLASH {
        return InvalidArgument;
      }
      if |path| == 1 {
        assert Components(path) == Components(path[1..]) == [];
        return Resolved(ROOT_INODE, [], None);
      }
      if path[|path| - 1] == SLASH {
        TrailingSlash(path);
        r := ResolveParts(path[..|path| - 1]);
        return;
      }
      r := Internal(path);
    }
  }

  /** The components ahead, from one slash to the next. */
  lemma Advance(path: seq<Byte>, last: nat, now: nat, end: nat)
    requires last < now <= end < |path| && path[last] == SLASH && path[now] == SLASH && SLASH !in path[last + 1..now]
    ensures Components(path[last..end]) ==
      (if now == last + 1 then [] else [path[last + 1..now]]) + Components(path[now..end])
  {
    var s, n := path[last..end], now - last;
    assert forall i :: 0 <= i < n - 1 ==> s[1..n][i] == path[last + 1 + i] == path[last + 1..now][i];
    assert s[1..n] == path[last + 1..now];
    assert s[n..] == path[now..end];
    NextComponent(s, n);
  }
}
