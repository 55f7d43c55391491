/** The route table of src/router.rs. */
module Router {
  import opened Net
  import opened Text

  datatype Route<+L> = Route(prefix: string, lb: L)

  function NormalizePrefix(p: string): string {
    if p == [] then "/" else p
  }

  /** `trim_end_matches('/')`. */
  function TrimSlashes(p: string): (t: string)
    ensures t <= p && (t != [] ==> t[|t| - 1] != '/')
    ensures forall i :: |t| <= i < |p| ==> p[i] == '/'
  {
    if p != [] && p[|p| - 1] == '/' then TrimSlashes(p[..|p| - 1]) else p
  }

  predicate PathMatches(path: string, prefix: string) {
    prefix == "/" || path == prefix || TrimSlashes(prefix) + "/" <= path
  }

  // ---- Building and resolving ----

  function Normalized<L>(rs: seq<Route<L>>): seq<Route<L>> {
    if rs == [] then []
    else Normalized(rs[..|rs| - 1]) + [rs[|rs| - 1].(prefix := NormalizePrefix(rs[|rs| - 1].prefix))]
  }

  /** Insertion that keeps longer prefixes first and equal lengths in order of arrival. */
  function Insert<L>(s: seq<Route<L>>, r: Route<L>): seq<Route<L>> {
    if s == [] || |s[|s| - 1].prefix| >= |r.prefix| then s + [r]
    else Insert(s[..|s| - 1], r) + [s[|s| - 1]]
  }

  /** The stable sort by decreasing prefix length. */
  function SortByLength<L>(s: seq<Route<L>>): seq<Route<L>> {
    if s == [] then [] else Insert(SortByLength(s[..|s| - 1]), s[|s| - 1])
  }

  /** The routes that match a path. */
  function Matching<L>(path: string): Route<L> -> bool {
    (r: Route<L>) => PathMatches(path, r.prefix)
  }

  function FirstMatch<L>(s: seq<Route<L>>, p: Route<L> -> bool): Option<Route<L>> {
    if s == [] then None
    else if p(s[0]) then Some(s[0])
    else FirstMatch(s[1..], p)
  }

  function ResultOf<L>(m: Option<Route<L>>, default: Option<L>): Option<L> {
    match m
    case Some(r) => Some(r.lb)
    case None => default
  }

  class Table<L> {
    const routes: seq<Route<L>>
    const default: Option<L>

    constructor (configured: seq<Route<L>>, default: Option<L>)
      ensures routes == SortByLength(Normalized(configured)) && this.default == default
    {
      var rs: seq<Route<L>> := [];
      for i := 0 to |configured|
        invariant rs == Normalized(configured[..i])
      {
        assert configured[..i + 1][..i] == configured[..i];
        rs := rs + [Route(NormalizePrefix(configured[i].prefix), configured[i].lb)];
      }
      assert configured[..|configured|] == configured;
      routes := SortByLength(rs);
      this.default := default;
    }

    method Resolve(path: string) returns (r: Option<L>)
      ensures r == ResultOf(FirstMatch(routes, Matching(path)), default)
    {
      for i := 0 to |routes|
        invariant FirstMatch(routes, Matching(path)) == FirstMatch(routes[i..], Matching(path))
      {
        if PathMatches(path, routes[i].prefix) {
          return Some(routes[i].lb);
        }
      }
      return default;
    }
  }

  // ---- The sort ----

  predicate LongestFirst<L>(s: seq<Route<L>>) {
    forall i, j :: 0 <= i < j < |s| ==> |s[i].prefix| >= |s[j].prefix|
  }

  lemma {:induction false} InsertMembers<L>(s: seq<Route<L>>, r: Route<L>, i: nat)
    requires i < |Insert(s, r)|
    ensures Insert(s, r)[i] in s || Insert(s, r)[i] == r
  {
    if !(s == [] || |s[|s| - 1].prefix| >= |r.prefix|) {
      var n := |s| - 1;
      if i < |Insert(s[..n], r)| {
        InsertMembers(s[..n], r, i);
      }
    }
  }

  lemma {:induction false} InsertPermutes<L>(s: seq<Route<L>>, r: Route<L>)
    ensures multiset(Insert(s, r)) == multiset(s) + multiset{r}
  {
    if !(s == [] || |s[|s| - 1].prefix| >= |r.prefix|) {
      var n := |s| - 1;
      InsertPermutes(s[..n], r);
      assert s == s[..n] + [s[n]];
    }
  }

  lemma {:induction false} InsertSorts<L>(s: seq<Route<L>>, r: Route<L>)
    requires LongestFirst(s)
    ensures LongestFirst(Insert(s, r))
  {
    if !(s == [] || |s[|s| - 1].prefix| >= |r.prefix|) {
      var n := |s| - 1;
      InsertSorts(s[..n], r);
      var t := Insert(s[..n], r);
      forall i | 0 <= i < |t| ensures |t[i].prefix| >= |s[n].prefix| {
        InsertMembers(s[..n], r, i);
      }
    }
  }

  lemma {:induction false} SortSorts<L>(s: seq<Route<L>>)
    ensures LongestFirst(SortByLength(s)) && multiset(SortByLength(s)) == multiset(s)
  {
    if s != [] {
      var n := |s| - 1;
      SortSorts(s[..n]);
      InsertSorts(SortByLength(s[..n]), s[n]);
      InsertPermutes(SortByLength(s[..n]), s[n]);
      assert s == s[..n] + [s[n]];
    }
  }

  // ---- Reference: scanning the configuration for the longest match ----

  /** Of a match so far and a further route, the longer one, or the earlier one if equal. */
  function Better<L>(m: Option<Route<L>>, r: Route<L>, p: Route<L> -> bool): Option<Route<L>> {
    if p(r) && (m.None? || |m.value.prefix| < |r.prefix|) then Some(r) else m
  }

  /** The longest matching route in the order given, the first one among equals. */
  function LongestMatch<L>(s: seq<Route<L>>, p: Route<L> -> bool): (m: Option<Route<L>>)
    ensures m.Some? ==> m.value in s && p(m.value)
    ensures m.Some? ==> forall r <- s :: p(r) ==> |r.prefix| <= |m.value.prefix|
    ensures m.None? ==> forall r <- s :: !p(r)
  {
    if s == [] then None else
    var n := |s| - 1;
    assert s == s[..n] + [s[n]];
    Better(LongestMatch(s[..n], p), s[n], p)
  }

  lemma {:induction false} FirstMatchAppend<L>(s: seq<Route<L>>, r: Route<L>, p: Route<L> -> bool)
    ensures FirstMatch(s + [r], p)
         == if FirstMatch(s, p).Some? then FirstMatch(s, p) else if p(r) then Some(r) else None
  {
    if s == [] {
      assert (s + [r])[1..] == [];
    } else {
      assert (s + [r])[1..] == s[1..] + [r];
      FirstMatchAppend(s[1..], r, p);
    }
  }

  /** Inserting a route changes the first match only to that route, and exactly when it
      matches and is longer. */
  lemma {:induction false} FirstMatchInsert<L>(s: seq<Route<L>>, r: Route<L>, p: Route<L> -> bool)
    requires LongestFirst(s)
    ensures FirstMatch(Insert(s, r), p) == Better(FirstMatch(s, p), r, p)
  {
    if s == [] || |s[|s| - 1].prefix| >= |r.prefix| {
      FirstMatchAppend(s, r, p);
      FirstMatchMember(s, p);
    } else {
      var n := |s| - 1;
      FirstMatchInsert(s[..n], r, p);
      FirstMatchAppend(Insert(s[..n], r), s[n], p);
      FirstMatchAppend(s[..n], s[n], p);
      assert s == s[..n] + [s[n]];
    }
  }

  lemma {:induction false} FirstMatchMember<L>(s: seq<Route<L>>, p: Route<L> -> bool)
    ensures FirstMatch(s, p).Some? ==> FirstMatch(s, p).value in s
  {
    if s != [] {
      FirstMatchMember(s[1..], p);
    }
  }

  /** The sorted table resolves to the longest matching configured route, ties going to the
      earlier one; in particular it finds a route exactly when one matches. */
  lemma {:induction false} ResolvesLongest<L>(s: seq<Route<L>>, p: Route<L> -> bool)
    ensures FirstMatch(SortByLength(s), p) == LongestMatch(s, p)
  {
    if s != [] {
      var n := |s| - 1;
      ResolvesLongest(s[..n], p);
      SortSorts(s[..n]);
      FirstMatchInsert(SortByLength(s[..n]), s[n], p);
    }
  }

  // ---- String matching and path segments ----

  /** The segments of `x` are the first segments of `y` exactly when `y` is `x` or continues
      it with a slash. */
  lemma {:induction false} SegmentPrefix(x: string, y: string)
    ensures Split(x, '/') <= Split(y, '/') <==> y == x || x + "/" <= y
  {
    if x == [] {
      assert Split(x, '/') == [[]];
      if y != [] && y[0] != '/' {
        assert Split(y, '/')[0] != [];
      }
    } else if y == [] {
      assert Split(y, '/') == [[]];
      if x[0] == '/' {
        assert |Split(x, '/')| >= 2;
      } else {
        assert Split(x, '/')[0] != [];
      }
    } else {
      SegmentPrefix(x[1..], y[1..]);
      SegmentStep(x, y);
      assert x == [x[0]] + x[1..] && y == [y[0]] + y[1..];
      assert x + "/" <= y <==> x[0] == y[0] && x[1..] + "/" <= y[1..];
    }
  }

  lemma SegmentStep(x: string, y: string)
    requires x != [] && y != []
    ensures Split(x, '/') <= Split(y, '/') <==> x[0] == y[0] && Split(x[1..], '/') <= Split(y[1..], '/')
  {
    var a, b := Split(x[1..], '/'), Split(y[1..], '/');
    if x[0] == '/' && y[0] == '/' {
      assert Split(x, '/') == [[]] + a && Split(y, '/') == [[]] + b;
      ConsPrefix([], a, [], b);
    } else if x[0] != '/' && y[0] != '/' {
      var p, q := [x[0]] + a[0], [y[0]] + b[0];
      assert Split(x, '/') == [p] + a[1..] && Split(y, '/') == [q] + b[1..];
      ConsPrefix(p, a[1..], q, b[1..]);
      assert p == q <==> x[0] == y[0] && a[0] == b[0] by {
        assert p[0] == x[0] && q[0] == y[0] && p[1..] == a[0] && q[1..] == b[0];
      }
      ConsPrefix(a[0], a[1..], b[0], b[1..]);
      assert a == [a[0]] + a[1..] && b == [b[0]] + b[1..];
    } else {
      assert Split(x, '/')[0] != Split(y, '/')[0];
    }
  }

  lemma ConsPrefix(p: string, a: seq<string>, q: string, b: seq<string>)
    ensures [p] + a <= [q] + b <==> p == q && a <= b
  {
    assert ([p] + a)[1..] == a && ([q] + b)[1..] == b;
    if [p] + a <= [q] + b {
      assert ([p] + a)[0] == ([q] + b)[0];
      assert a == ([q] + b)[..1 + |a|][1..] == b[..|a|];
    }
    if p == q && a <= b {
      assert ([q] + b)[..1 + |a|] == [q] + b[..|a|];
    }
  }

  /** For every prefix and every path that starts with a slash, string matching is segment
      matching, with one exception: a prefix written with a trailing slash does not match the
      path that lacks it. */
  lemma MatchIsSegmentPrefix(path: string, prefix: string)
    requires path != [] && path[0] == '/'
    ensures PathMatches(path, prefix)
       <==> Split(TrimSlashes(prefix), '/') <= Split(path, '/') && !(path == TrimSlashes(prefix) && path != prefix)
  {
    var t := TrimSlashes(prefix);
    SegmentPrefix(t, path);
    if path == prefix && path != t {
      assert prefix[|t|] == '/';
      assert t + "/" <= prefix;
    }
  }

  /** The exception is real: every prefix written with a trailing slash misses the path without
      it, although the segments agree. */
  lemma TrailingSlashMisses(t: string)
    requires t != [] && t[0] == '/' && TrimSlashes(t) == t
    ensures PathMatches(t, t) && !PathMatches(t, t + "/")
    ensures TrimSlashes(t + "/") == t && Split(TrimSlashes(t + "/"), '/') <= Split(t, '/')
  {
    assert (t + "/")[..|t|] == t;
  }

  /** Of two matching routes, the segments of one are the first segments of the other: the one
      that is longer without its trailing slashes is the more specific one. */
  lemma LongestIsMostSpecific(path: string, p: string, q: string)
    requires path != [] && path[0] == '/'
    requires PathMatches(path, p) && PathMatches(path, q)
    ensures Split(TrimSlashes(p), '/') <= Split(TrimSlashes(q), '/') <==> |TrimSlashes(p)| <= |TrimSlashes(q)|
  {
    var t, u := TrimSlashes(p), TrimSlashes(q);
    MatchIsSegmentPrefix(path, p);
    MatchIsSegmentPrefix(path, q);
    PrefixesNest(Split(t, '/'), Split(u, '/'), Split(path, '/'));
    LongerHasMore(t, u);
    LongerHasMore(u, t);
  }

  lemma LongerHasMore(t: string, u: string)
    ensures Split(t, '/') <= Split(u, '/') ==> |t| <= |u|
    ensures Split(t, '/') <= Split(u, '/') && |t| == |u| ==> t == u
  {
    SegmentPrefix(t, u);
  }

  /** With at most one trailing slash each, that is the one with the longer prefix. */
  lemma CleanLongest(path: string, p: string, q: string)
    requires path != [] && path[0] == '/'
    requires PathMatches(path, p) && PathMatches(path, q)
    requires Clean(p) && Clean(q) && |p| <= |q|
    ensures Split(TrimSlashes(p), '/') <= Split(TrimSlashes(q), '/')
  {
    CleanMatchIsPrefix(path, p);
    CleanMatchIsPrefix(path, q);
    LongestIsMostSpecific(path, p, q);
    TrimmedOrder(p, q);
  }

  lemma TrimmedOrder(p: string, q: string)
    requires p <= q
    ensures |TrimSlashes(p)| <= |TrimSlashes(q)|
  {
    var t, u := TrimSlashes(p), TrimSlashes(q);
    assert t != [] ==> q[|t| - 1] == t[|t| - 1];
  }

  lemma PrefixesNest<T>(a: seq<T>, b: seq<T>, c: seq<T>)
    requires a <= c && b <= c
    ensures a <= b || b <= a
  {
    assert a == c[..|a|] && b == c[..|b|];
  }

  // ---- Independence of the order in the configuration ----

  /** At most one trailing slash. */
  predicate Clean(p: string) {
    p == TrimSlashes(p) || p == TrimSlashes(p) + "/"
  }

  /** A clean matching prefix is the beginning of the path, so its length determines it. */
  lemma CleanMatchIsPrefix(path: string, p: string)
    requires path != [] && path[0] == '/' && Clean(p) && PathMatches(path, p)
    ensures p <= path
  {
  }

  /** What the table built from a configuration resolves a path to. */
  function Resolved<L>(configured: seq<Route<L>>, default: Option<L>, path: string): Option<L> {
    ResultOf(FirstMatch(SortByLength(Normalized(configured)), Matching(path)), default)
  }

  lemma {:induction false} NormalizedMeaning<L>(rs: seq<Route<L>>)
    ensures |Normalized(rs)| == |rs|
    ensures forall i :: 0 <= i < |rs| ==> Normalized(rs)[i] == rs[i].(prefix := NormalizePrefix(rs[i].prefix))
  {
    if rs != [] {
      NormalizedMeaning(rs[..|rs| - 1]);
    }
  }

  /** No route that matches is longer. */
  ghost predicate Longest<L(!new)>(ns: seq<Route<L>>, p: Route<L> -> bool, r: Route<L>) {
    r in ns && p(r) && forall q <- ns :: p(q) ==> |q.prefix| <= |r.prefix|
  }

  /** All longest matching routes lead to the same balancer. */
  ghost predicate Agree<L(!new)>(ns: seq<Route<L>>, p: Route<L> -> bool) {
    forall q, r :: Longest(ns, p, q) && Longest(ns, p, r) ==> q.lb == r.lb
  }

  ghost predicate Permutes<L>(s: seq<Route<L>>, t: seq<Route<L>>) {
    multiset(s) == multiset(t)
  }

  /** Reordering the configuration reorders the normalized routes. */
  lemma NormalizedMembers<L>(s: seq<Route<L>>, t: seq<Route<L>>)
    requires Permutes(s, t)
    ensures forall r <- Normalized(s) :: r in Normalized(t)
  {
    NormalizedMeaning(s);
    NormalizedMeaning(t);
    forall r <- Normalized(s) ensures r in Normalized(t) {
      var i :| 0 <= i < |s| && Normalized(s)[i] == r;
      assert s[i] in multiset(t);
      var j :| 0 <= j < |t| && t[j] == s[i];
      assert Normalized(t)[j] == r;
    }
  }

  /** The route put first among its equals is the one found. */
  lemma {:induction false} FirstPutWins<L>(r: Route<L>, rest: seq<Route<L>>, p: Route<L> -> bool)
    requires p(r) && forall k :: 0 <= k < |rest| ==> p(rest[k]) ==> |rest[k].prefix| <= |r.prefix|
    ensures LongestMatch([r] + rest, p) == Some(r)
  {
    if rest == [] {
      assert [r] + rest == [r] && [r][..0] == [];
    } else {
      var n := |rest| - 1;
      FirstPutWins(r, rest[..n], p);
      LongestMatchLast([r] + rest[..n], rest[n], p);
      BothEnds(r, rest);
    }
  }

  lemma BothEnds<T>(x: T, s: seq<T>)
    requires s != []
    ensures [x] + s == ([x] + s[..|s| - 1]) + [s[|s| - 1]]
  {
  }

  lemma LongestMatchLast<L>(s: seq<Route<L>>, r: Route<L>, p: Route<L> -> bool)
    ensures LongestMatch(s + [r], p) == Better(LongestMatch(s, p), r, p)
  {
    assert (s + [r])[..|s|] == s;
  }

  /** Some order of the configuration makes the table choose any given longest route. */
  lemma SomeOrderChooses<L>(s: seq<Route<L>>, i: nat, path: string, default: Option<L>) returns (t: seq<Route<L>>)
    requires i < |s|
    requires var ns := Normalized(s);
             i < |ns| && Matching(path)(ns[i]) && forall q <- ns :: Matching(path)(q) ==> |q.prefix| <= |ns[i].prefix|
    ensures Permutes(s, t) && Resolved(t, default, path) == Some(s[i].lb)
  {
    t := [s[i]] + (s[..i] + s[i + 1..]);
    MovedFirst(s, i);
    NormalizedMeaning(s);
    NormalizedMeaning(t);
    NormalizedMembers(t, s);
    var nt := Normalized(t);
    assert nt[0] == Normalized(s)[i];
    FirstResolves(nt, Matching(path));
  }

  lemma MovedFirst<T>(s: seq<T>, i: nat)
    requires i < |s|
    ensures multiset(s) == multiset([s[i]] + (s[..i] + s[i + 1..]))
  {
    assert s == s[..i] + ([s[i]] + s[i + 1..]);
  }

  lemma FirstResolves<L>(ns: seq<Route<L>>, p: Route<L> -> bool)
    requires ns != [] && p(ns[0]) && forall q <- ns :: p(q) ==> |q.prefix| <= |ns[0].prefix|
    ensures FirstMatch(SortByLength(ns), p) == Some(ns[0])
  {
    assert ns == [ns[0]] + ns[1..];
    FirstPutWins(ns[0], ns[1..], p);
    ResolvesLongest(ns, p);
  }

  /** Whether the order matters for one path, exactly: no order of the configuration changes the
      balancer if and only if all longest matching routes lead to the same one. */
  lemma OrderIndependentAt<L(!new)>(s: seq<Route<L>>, default: Option<L>, path: string)
    ensures (forall t | Permutes(s, t) :: Resolved(t, default, path) == Resolved(s, default, path))
       <==> Agree(Normalized(s), Matching(path))
  {
    var ns, p := Normalized(s), Matching(path);
    if Agree(ns, p) {
      forall t | Permutes(s, t) ensures Resolved(t, default, path) == Resolved(s, default, path) {
        SameResult(s, t, default, path);
      }
    } else {
      var q, r :| Longest(ns, p, q) && Longest(ns, p, r) && q.lb != r.lb;
      var t := SomeOrderGives(s, q, path, default);
      var u := SomeOrderGives(s, r, path, default);
    }
  }

  lemma SomeOrderGives<L(!new)>(s: seq<Route<L>>, q: Route<L>, path: string, default: Option<L>)
    returns (t: seq<Route<L>>)
    requires Longest(Normalized(s), Matching(path), q)
    ensures Permutes(s, t) && Resolved(t, default, path) == Some(q.lb)
  {
    NormalizedMeaning(s);
    var i :| 0 <= i < |s| && Normalized(s)[i] == q;
    t := SomeOrderChooses(s, i, path, default);
  }

  lemma SameResult<L(!new)>(s: seq<Route<L>>, t: seq<Route<L>>, default: Option<L>, path: string)
    requires Permutes(s, t) && Agree(Normalized(s), Matching(path))
    ensures Resolved(t, default, path) == Resolved(s, default, path)
  {
    var p, ns, nt := Matching(path), Normalized(s), Normalized(t);
    ResolvesLongest(ns, p);
    ResolvesLongest(nt, p);
    NormalizedMembers(s, t);
    NormalizedMembers(t, s);
    var m, m' := LongestMatch(ns, p), LongestMatch(nt, p);
    if m.Some? {
      assert Longest(ns, p, m.value);
      assert Longest(ns, p, m'.value);
    }
  }

  predicate Rooted(path: string) { path != [] && path[0] == '/' }

  /** Two routes to different balancers that are equally long, of which the first matches the
      prefix of the second, while no longer route does. */
  ghost predicate Clash<L(!new)>(ns: seq<Route<L>>, q: Route<L>, r: Route<L>) {
    && q in ns && r in ns && q.lb != r.lb && |q.prefix| == |r.prefix| && Rooted(r.prefix)
    && PathMatches(r.prefix, q.prefix)
    && forall x <- ns :: PathMatches(r.prefix, x.prefix) ==> |x.prefix| <= |r.prefix|
  }

  /** `x` followed by a slash begins `y`. */
  lemma SlashBegins(x: string, y: string)
    ensures x + "/" <= y <==> |x| < |y| && x <= y && y[|x|] == '/'
  {
    if x + "/" <= y {
      assert y[|x|] == (x + "/")[|x|];
      assert forall i :: 0 <= i < |x| ==> (x + "/")[i] == x[i] == y[i];
    }
  }

  /** Prefixes of the same length that differ in their trailing slashes only are equal. */
  lemma SameTrimmed(p: string, q: string)
    requires |p| == |q| && TrimSlashes(p) == TrimSlashes(q)
    ensures p == q
  {
    var a := TrimSlashes(p);
    assert forall i :: 0 <= i < |a| ==> p[i] == a[i] == q[i];
    assert forall i :: |a| <= i < |p| ==> p[i] == '/' == q[i];
  }

  /** Of two equally long prefixes that match one path, one matches the other. */
  lemma MatchEachOther(path: string, p: string, q: string)
    requires Rooted(path) && |p| == |q| > 0 && PathMatches(path, p) && PathMatches(path, q)
    ensures Rooted(p) && Rooted(q) && (PathMatches(p, q) || PathMatches(q, p))
  {
    var a, b := TrimSlashes(p), TrimSlashes(q);
    SlashBegins(a, path);
    SlashBegins(b, path);
    if path != p && path != q && p != "/" && q != "/" {
      SlashBegins(a, q);
      SlashBegins(b, p);
      if |a| == |b| {
        assert a == path[..|a|] == b;
        SameTrimmed(p, q);
      }
    }
  }

  /** A longer route that matches a rooted prefix matches all that the prefix matches. */
  lemma LongerTakesAll(path: string, q: string, x: string)
    requires Rooted(path) && Rooted(q) && PathMatches(path, q) && PathMatches(q, x) && |q| < |x|
    ensures PathMatches(path, x)
  {
    var b, c := TrimSlashes(q), TrimSlashes(x);
    SlashBegins(c, q);
    SlashBegins(b, path);
    SlashBegins(c, path);
    assert c != [] ==> q[|c| - 1] == c[|c| - 1];
    assert |c| <= |b|;
  }

  /** Whether the order matters at all, exactly: no order of the configuration changes the
      balancer of any path if and only if no two routes clash. */
  lemma OrderIndependentIff<L(!new)>(s: seq<Route<L>>, default: Option<L>)
    ensures (forall t, path | Permutes(s, t) && Rooted(path) ::
               Resolved(t, default, path) == Resolved(s, default, path))
       <==> (forall q, r :: !Clash(Normalized(s), q, r))
  {
    var ns := Normalized(s);
    if forall q, r :: !Clash(ns, q, r) {
      forall t, path | Permutes(s, t) && Rooted(path) ensures Resolved(t, default, path) == Resolved(s, default, path) {
        NoClashAgrees(s, path);
        SameResult(s, t, default, path);
      }
    } else {
      var q, r :| Clash(ns, q, r);
      ClashDisagrees(ns, q, r);
      OrderIndependentAt(s, default, r.prefix);
    }
  }

  lemma ClashDisagrees<L(!new)>(ns: seq<Route<L>>, q: Route<L>, r: Route<L>)
    requires Clash(ns, q, r)
    ensures Rooted(r.prefix) && !Agree(ns, Matching(r.prefix))
  {
    assert Longest(ns, Matching(r.prefix), q) && Longest(ns, Matching(r.prefix), r);
  }

  lemma NoClashAgrees<L(!new)>(s: seq<Route<L>>, path: string)
    requires Rooted(path) && forall q, r :: !Clash(Normalized(s), q, r)
    ensures Agree(Normalized(s), Matching(path))
  {
    var ns, p := Normalized(s), Matching(path);
    forall q, r | Longest(ns, p, q) && Longest(ns, p, r) ensures q.lb == r.lb {
      NormalizedMeaning(s);
      MatchEachOther(path, q.prefix, r.prefix);
      if q.lb != r.lb {
        if PathMatches(r.prefix, q.prefix) {
          StillLongest(ns, path, r);
          assert Clash(ns, q, r);
        } else {
          StillLongest(ns, path, q);
          assert Clash(ns, r, q);
        }
      }
    }
  }

  /** The longest match of a path is a longest match of its own prefix. */
  lemma StillLongest<L(!new)>(ns: seq<Route<L>>, path: string, r: Route<L>)
    requires Rooted(path) && Rooted(r.prefix) && Longest(ns, Matching(path), r)
    ensures forall x <- ns :: PathMatches(r.prefix, x.prefix) ==> |x.prefix| <= |r.prefix|
  {
    forall x <- ns | PathMatches(r.prefix, x.prefix) ensures |x.prefix| <= |r.prefix| {
      if |r.prefix| < |x.prefix| {
        LongerTakesAll(path, r.prefix, x.prefix);
      }
    }
  }

  /** In particular the order does not matter when the normalized prefixes are distinct and have
      at most one trailing slash each. */
  lemma CleanIsEnough<L(!new)>(s: seq<Route<L>>, q: Route<L>, r: Route<L>)
    requires DistinctPrefixes(Normalized(s)) && AllClean(Normalized(s))
    ensures !Clash(Normalized(s), q, r)
  {
    var ns := Normalized(s);
    if q in ns && r in ns && |q.prefix| == |r.prefix| && Rooted(r.prefix) && PathMatches(r.prefix, q.prefix) {
      var i :| 0 <= i < |ns| && ns[i] == q;
      var j :| 0 <= j < |ns| && ns[j] == r;
      assert Clean(ns[i].prefix);
      CleanMatchIsPrefix(r.prefix, q.prefix);
      assert ns[i].prefix == ns[j].prefix;
    }
  }

  predicate DistinctPrefixes<L>(s: seq<Route<L>>) {
    forall i, j :: 0 <= i < j < |s| ==> s[i].prefix != s[j].prefix
  }

  predicate AllClean<L>(s: seq<Route<L>>) {
    forall i :: 0 <= i < |s| ==> Clean(s[i].prefix)
  }

  // ---- One route ----

  /** A route alone takes exactly the paths its prefix matches, the empty prefix standing for the
      root; so with a trailing slash it does not take the path without it. */
  lemma OneRoute<L>(prefix: string, lb: L, default: Option<L>, path: string)
    ensures Resolved([Route(prefix, lb)], default, path)
         == if prefix == "" || PathMatches(path, prefix) then Some(lb) else default
    ensures path == TrimSlashes(prefix) && path != prefix && path != [] ==>
              Resolved([Route(prefix, lb)], default, path) == default
  {
    var rs, p := [Route(prefix, lb)], Matching(path);
    NormalizedMeaning(rs);
    var ns := Normalized(rs);
    ResolvesLongest(ns, p);
    assert ns == [ns[0]] && ns[..0] == [];
    assert LongestMatch(ns, p) == if p(ns[0]) then Some(ns[0]) else None;
  }

  // ---- Orders that matter ----

  /** Of two equally long matching routes the first one configured wins. */
  lemma FirstOfEqualsWins<L>(x: Route<L>, y: Route<L>, path: string, default: Option<L>)
    requires var p, q := NormalizePrefix(x.prefix), NormalizePrefix(y.prefix);
             PathMatches(path, p) && PathMatches(path, q) && |p| == |q|
    ensures Resolved([x, y], default, path) == Some(x.lb) && Resolved([y, x], default, path) == Some(y.lb)
  {
    PairResolves(x, y, path, default);
    PairResolves(y, x, path, default);
  }

  lemma PairResolves<L>(x: Route<L>, y: Route<L>, path: string, default: Option<L>)
    requires var p, q := NormalizePrefix(x.prefix), NormalizePrefix(y.prefix);
             PathMatches(path, p) && |q| <= |p|
    ensures Resolved([x, y], default, path) == Some(x.lb)
  {
    NormalizedMeaning([x, y]);
    FirstResolves(Normalized([x, y]), Matching(path));
  }

  /** Validation accepts two routes with the same prefix: exchanging them changes the result. */
  lemma SamePrefixTies(p: string)
    requires p != []
    ensures Resolved([Route(p, 1), Route(p, 2)], None, p) == Some(1)
    ensures Resolved([Route(p, 2), Route(p, 1)], None, p) == Some(2)
  {
    FirstOfEqualsWins(Route(p, 1), Route(p, 2), p, None);
  }

  /** The empty prefix and "/" are the same route: exchanging them changes the result. */
  lemma EmptyAndRootTie()
    ensures Resolved([Route("", 1), Route("/", 2)], None, "/x") == Some(1)
    ensures Resolved([Route("/", 2), Route("", 1)], None, "/x") == Some(2)
  {
    FirstOfEqualsWins(Route("", 1), Route("/", 2), "/x", None);
  }

  /** So does exchanging two distinct prefixes of which one ends in a doubled slash. */
  lemma DoubledSlashTies()
    ensures Resolved([Route("/api//", 1), Route("/api/x", 2)], None, "/api/x") == Some(1)
    ensures Resolved([Route("/api/x", 2), Route("/api//", 1)], None, "/api/x") == Some(2)
  {
    ApiSlashes();
    FirstOfEqualsWins(Route("/api//", 1), Route("/api/x", 2), "/api/x", None);
  }

  lemma ApiSlashes()
    ensures TrimSlashes("/api//") == "/api" && PathMatches("/api/x", "/api//")
  {
    assert "/api//"[..5] == "/api/" && "/api/"[..4] == "/api";
    assert TrimSlashes("/api") == "/api";
    assert TrimSlashes("/api/") == "/api";
    assert TrimSlashes("/api//") == "/api";
    SlashBegins("/api", "/api/x");
  }

  /** Not every tie matters: "/api//" and "/api/x" tie, but next to the longer "/api////" no path
      ever reaches them. */
  lemma HiddenTie(path: string)
    requires Rooted(path) && PathMatches(path, "/api/x")
    ensures PathMatches("/api/x", "/api//") && PathMatches(path, "/api////")
  {
    ApiSlashes();
    assert "/api////"[..7] == "/api///" && "/api///"[..6] == "/api//";
    assert TrimSlashes("/api///") == TrimSlashes("/api//");
    assert TrimSlashes("/api////") == "/api";
    SlashBegins("/api", "/api/x");
    LongerTakesAll(path, "/api/x", "/api////");
  }
}
