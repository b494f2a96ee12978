/** Hierarchical scopes: their names, where they are stored, and how their two
    orders relate. */
module ScopePaths {
  import opened Basics
  import opened Splitting
  import opened Keys
  import opened ScopeRegistry
  import FairSchedule
  import Lexicographic

  const MAX_NAMESPACE_DEPTH: nat := 8

  datatype GraphScope = GraphScope(namespace: seq<string>, graph: string)

  predicate ValidNamespace(segments: seq<string>) {
    1 <= |segments| <= MAX_NAMESPACE_DEPTH && forall s :: s in segments ==> ValidComponent(s)
  }

  predicate ValidScope(s: GraphScope) { ValidNamespace(s.namespace) && ValidComponent(s.graph) }

  /** `NamespacePath::new`: refused when empty or too deep. */
  function NewNamespace(segments: seq<string>): (r: Result<seq<string>>)
    ensures r.Ok? <==> 1 <= |segments| <= MAX_NAMESPACE_DEPTH
  {
    if segments == [] then Err(CorruptValue)
    else if |segments| > MAX_NAMESPACE_DEPTH then Err(NamespaceDepth)
    else Ok(segments)
  }

  function Child(parent: seq<string>, segment: string): Result<seq<string>> { NewNamespace(parent + [segment]) }

  predicate IsDescendantOf(path: seq<string>, ancestor: seq<string>) { ancestor <= path }

  /** A child exists exactly below the depth limit, and is a descendant of exactly
      its parent's ancestors and itself. */
  lemma ChildDescends(parent: seq<string>, segment: string, ancestor: seq<string>)
    requires ValidNamespace(parent) && ValidComponent(segment)
    ensures Child(parent, segment).Ok? <==> |parent| < MAX_NAMESPACE_DEPTH
    ensures Child(parent, segment).Ok? ==>
              var child := Child(parent, segment).value;
              && ValidNamespace(child)
              && (IsDescendantOf(child, ancestor) <==> IsDescendantOf(parent, ancestor) || ancestor == child)
  {
    var child := parent + [segment];
    if ancestor <= child && |ancestor| <= |parent| {
      assert ancestor == child[..|ancestor|] == parent[..|ancestor|];
    }
    assert ancestor <= parent ==> ancestor <= child;
  }

  /** Child after child. */
  function Children(ancestor: seq<string>, segments: seq<string>): Result<seq<string>>
    decreases |segments|
  {
    if segments == [] then Ok(ancestor)
    else
      var child :- Child(ancestor, segments[0]);
      Children(child, segments[1..])
  }

  lemma {:induction false} ChildrenAppend(ancestor: seq<string>, segments: seq<string>)
    requires 1 <= |ancestor| <= MAX_NAMESPACE_DEPTH
    ensures Children(ancestor, segments).Ok? <==> |ancestor| + |segments| <= MAX_NAMESPACE_DEPTH
    ensures Children(ancestor, segments).Ok? ==> Children(ancestor, segments).value == ancestor + segments
    decreases |segments|
  {
    if segments == [] {
      assert ancestor + segments == ancestor;
    } else if |ancestor| < MAX_NAMESPACE_DEPTH {
      ChildrenAppend(ancestor + [segments[0]], segments[1..]);
      assert ancestor + [segments[0]] + segments[1..] == ancestor + segments;
    }
  }

  /** A namespace descends from exactly those from which some list of child steps
      leads to it, itself included. */
  lemma DescendsExactly(path: seq<string>, ancestor: seq<string>)
    requires ValidNamespace(path) && ValidNamespace(ancestor)
    ensures IsDescendantOf(path, ancestor) <==> exists segments :: Children(ancestor, segments) == Ok(path)
  {
    if IsDescendantOf(path, ancestor) {
      var segments := path[|ancestor|..];
      assert ancestor + segments == path;
      ChildrenAppend(ancestor, segments);
    }
    if segments :| Children(ancestor, segments) == Ok(path) { ChildrenAppend(ancestor, segments); }
  }

  // Names.

  function NameParts(s: GraphScope): (r: seq<string>)
    ensures r != []
  {
    s.namespace + ["graphs", s.graph]
  }

  /** `Display`. */
  function Name(s: GraphScope): string { Join(NameParts(s), '/') }

  /** The loop of `Display for NamespacePath`, then the graph. */
  method FormatName(s: GraphScope) returns (text: string)
    requires s.namespace != []
    ensures text == Name(s)
  {
    text := s.namespace[0];
    for i := 1 to |s.namespace|
      invariant text == Join(s.namespace[..i], '/')
    {
      JoinConcat(s.namespace[..i], [s.namespace[i]], '/');
      assert s.namespace[..i] + [s.namespace[i]] == s.namespace[..i + 1];
      text := text + "/" + s.namespace[i];
    }
    assert s.namespace[..|s.namespace|] == s.namespace;
    JoinConcat(s.namespace, ["graphs", s.graph], '/');
    text := text + "/graphs/" + s.graph;
  }

  lemma PartsAreFree(s: GraphScope)
    requires ValidScope(s)
    ensures Free(NameParts(s), '/') && Free(StoreParts(s), '/')
  {
    forall p | p in s.namespace ensures '/' !in p { ComponentFree(p, '/'); }
    ComponentFree(s.graph, '/');
    NestedFree(s.namespace, |s.namespace|);
    assert '/' !in "graphs" && '/' !in "namespaces";
  }

  /** Distinct scopes have distinct names, even when components are themselves
      called `graphs`. */
  lemma NamesDistinct(a: GraphScope, b: GraphScope)
    requires ValidScope(a) && ValidScope(b) && Name(a) == Name(b)
    ensures a == b
  {
    PartsAreFree(a);
    PartsAreFree(b);
    JoinInjective(NameParts(a), NameParts(b), '/');
    var p, q := NameParts(a), NameParts(b);
    assert p[..|p| - 2] == a.namespace && q[..|q| - 2] == b.namespace;
    assert p[|p| - 1] == a.graph && q[|q| - 1] == b.graph;
  }

  // Store paths.

  /** The first `n` segments, each behind its tag. */
  function Nested(segments: seq<string>, n: nat): (r: seq<string>)
    requires n <= |segments|
    ensures |r| == 2 * n
    ensures forall i :: 0 <= i < n ==> r[2 * i] == Tag(i) && r[2 * i + 1] == segments[i]
  {
    if n == 0 then [] else Nested(segments, n - 1) + [Tag(n - 1), segments[n - 1]]
  }

  function Tag(i: nat): string { if i == 0 then "namespaces" else "subnamespaces" }

  function StoreParts(s: GraphScope): (r: seq<string>)
    ensures |r| == 2 * |s.namespace| + 2
  {
    Nested(s.namespace, |s.namespace|) + ["graphs", s.graph]
  }

  lemma {:induction false} NestedFree(segments: seq<string>, n: nat)
    requires n <= |segments| && forall s :: s in segments ==> '/' !in s
    ensures Free(Nested(segments, n), '/')
  {
    if n > 0 {
      NestedFree(segments, n - 1);
      assert '/' !in Tag(n - 1);
    }
  }

  /** `scoped_store_path`. */
  function StorePath(base: string, s: GraphScope): string {
    var trimmed := TrimEnd(base, '/');
    var path := Join(StoreParts(s), '/');
    if trimmed == "" then path else trimmed + "/" + path
  }

  /** The loop of `storage_suffix`, then the graph and the base. */
  method FormatStorePath(base: string, s: GraphScope) returns (text: string)
    requires s.namespace != []
    ensures text == StorePath(base, s)
  {
    hide Nested, Join, TrimEnd;
    var suffix := FormatSuffix(s.namespace);
    JoinConcat(Nested(s.namespace, |s.namespace|), ["graphs", s.graph], '/');
    JoinTwo("graphs", s.graph);
    var scoped := suffix + "/graphs/" + s.graph;
    var trimmed := TrimEnd(base, '/');
    text := if trimmed == "" then scoped else trimmed + "/" + scoped;
  }

  lemma JoinTwo(x: string, y: string)
    ensures Join([x, y], '/') == x + "/" + y
  {
  }

  method FormatSuffix(segments: seq<string>) returns (suffix: string)
    requires segments != []
    ensures suffix == Join(Nested(segments, |segments|), '/')
  {
    suffix := "namespaces/" + segments[0];
    assert Nested(segments, 1) == ["namespaces", segments[0]];
    JoinTwo("namespaces", segments[0]);
    for i := 1 to |segments|
      invariant suffix == Join(Nested(segments, i), '/')
    {
      NestedNext(segments, i);
      hide Nested, Join;
      JoinConcat(Nested(segments, i), [Tag(i), segments[i]], '/');
      JoinTwo(Tag(i), segments[i]);
      suffix := suffix + "/subnamespaces/" + segments[i];
    }
  }

  lemma NestedNext(segments: seq<string>, n: nat)
    requires n < |segments|
    ensures Nested(segments, n + 1) == Nested(segments, n) + [Tag(n), segments[n]]
  {
  }

  /** The path of one cell of a scope. */
  function CellPath(base: string, s: GraphScope, cell: string): string { StorePath(base, s) + "/" + cell }

  /** Tags sit at even positions, so a path that continues another must agree on
      where the graph comes. */
  lemma NestedPrefix(a: GraphScope, b: GraphScope, more: seq<string>)
    requires a.namespace != [] && b.namespace != [] && |more| <= 1
    requires StoreParts(a) <= StoreParts(b) + more
    ensures a == b
  {
    var n, m := |a.namespace|, |b.namespace|;
    var p, q := StoreParts(a), StoreParts(b) + more;
    assert p[2 * n] == "graphs" && p[2 * n] == q[2 * n];
    assert n <= m;
    forall i | 0 <= i < n ensures a.namespace[i] == b.namespace[i] {
      assert p[2 * i + 1] == q[2 * i + 1];
    }
    assert p[2 * n + 1] == q[2 * n + 1];
  }

  /** Distinct scopes are stored apart: no scope's path is, segment by segment, a
      prefix of another scope's path or of any of its cells. */
  lemma StorePathsApart(base: string, a: GraphScope, b: GraphScope, cell: string)
    requires ValidScope(a) && ValidScope(b) && ValidComponent(cell)
    ensures StorePath(base, a) == StorePath(base, b) ==> a == b
    ensures StorePath(base, a) + "/" <= CellPath(base, b, cell) ==> a == b
  {
    PartsAreFree(a);
    PartsAreFree(b);
    ComponentFree(cell, '/');
    var p, q := StoreParts(a), StoreParts(b);
    JoinConcat(q, [cell], '/');
    TerminatedPrefix(p, q + [cell], '/');
    var trimmed := TrimEnd(base, '/');
    var front := if trimmed == "" then "" else trimmed + "/";
    assert StorePath(base, a) == front + Join(p, '/') && StorePath(base, b) == front + Join(q, '/');
    assert StorePath(base, a) + "/" == front + (Join(p, '/') + "/");
    assert CellPath(base, b, cell) == front + Join(q + [cell], '/');
    if StorePath(base, a) == StorePath(base, b) {
      Cancel(front, Join(p, '/'), Join(q, '/'));
      JoinInjective(p, q, '/');
      NestedPrefix(a, b, []);
    }
    if StorePath(base, a) + "/" <= CellPath(base, b, cell) {
      CancelPrefix(front, Join(p, '/') + "/", Join(q + [cell], '/'));
      NestedPrefix(a, b, [cell]);
    }
  }

  lemma Cancel(front: string, x: string, y: string)
    requires front + x == front + y
    ensures x == y
  {
    assert x == (front + x)[|front|..] && y == (front + y)[|front|..];
  }

  lemma CancelPrefix(front: string, x: string, y: string)
    requires front + x <= front + y
    ensures x <= y
  {
    assert x == (front + x)[|front|..] && y == (front + y)[|front|..];
  }

  /** Cell paths never nest: one is a segment prefix of another only if they are
      the same. */
  lemma CellPathsApart(base: string, a: GraphScope, c: string, b: GraphScope, d: string)
    requires ValidScope(a) && ValidScope(b) && ValidComponent(c) && ValidComponent(d)
    ensures !(CellPath(base, a, c) + "/" <= CellPath(base, b, d))
    ensures CellPath(base, a, c) == CellPath(base, b, d) ==> a == b && c == d
  {
    var x, y := CellPath(base, a, c), CellPath(base, b, d);
    var front := StorePath(base, a) + "/";
    if x + "/" <= y || x == y {
      assert front <= x <= y;
      StorePathsApart(base, a, b, d);
      assert x == front + c && y == front + d;
      if x == y {
        Cancel(front, c, d);
      } else {
        assert x + "/" == front + (c + "/");
        CancelPrefix(front, c + "/", d);
        assert (c + "/")[|c|] == '/';
        ComponentFree(d, '/');
      }
    }
  }

  // The two orders.

  /** Derived `Ord` of component lists: component by component, shorter first. */
  predicate ListLess(a: seq<string>, b: seq<string>) {
    b != [] && (a == [] || Lexicographic.Less(a[0], b[0]) || (a[0] == b[0] && ListLess(a[1..], b[1..])))
  }

  /** Derived `Ord` of scopes: namespace, then graph. */
  predicate ScopeLess(a: GraphScope, b: GraphScope) {
    ListLess(a.namespace, b.namespace) || (a.namespace == b.namespace && Lexicographic.Less(a.graph, b.graph))
  }

  /** Components without the two permitted characters that sort before `/`. */
  predicate Plain(s: string) { forall i :: 0 <= i < |s| ==> s[i] > '/' }

  /** Plain components compare the same in front of anything. */
  lemma {:induction false} PlainOrder(x: string, u: string, y: string, v: string)
    requires Plain(x) && Plain(y) && x != y
    ensures Lexicographic.Less(x + "/" + u, y + "/" + v) <==> Lexicographic.Less(x, y)
  {
    var p, q := x + "/" + u, y + "/" + v;
    if x != [] && y != [] && x[0] == y[0] {
      assert p[1..] == x[1..] + "/" + u && q[1..] == y[1..] + "/" + v;
      assert x == [x[0]] + x[1..] && y == [y[0]] + y[1..];
      PlainOrder(x[1..], u, y[1..], v);
    } else {
      assert x != [] ==> p[0] == x[0] && x[0] in x;
      assert y != [] ==> q[0] == y[0] && y[0] in y;
    }
  }

  lemma {:induction false} JoinOrder(a: seq<string>, b: seq<string>)
    requires |a| == |b| > 0
    requires forall s :: s in a + b ==> Plain(s)
    ensures Lexicographic.Less(Join(a, '/'), Join(b, '/')) <==> ListLess(a, b)
  {
    hide Lexicographic.Less;
    Lexicographic.Irreflexive(a[0]);
    if |a| == 1 {
      assert !ListLess(a[1..], b[1..]);
    } else {
      var u, v := Join(a[1..], '/'), Join(b[1..], '/');
      assert a[0] in a + b && b[0] in a + b;
      if a[0] == b[0] {
        JoinOrder(a[1..], b[1..]);
        Lexicographic.CommonPrefix(a[0] + "/", u, v);
      } else {
        PlainOrder(a[0], u, b[0], v);
      }
    }
  }

  lemma {:induction false} ListLessConcat(a: seq<string>, b: seq<string>, u: seq<string>, v: seq<string>)
    requires |a| == |b|
    ensures ListLess(a + u, b + v) <==> ListLess(a, b) || (a == b && ListLess(u, v))
  {
    hide Lexicographic.Less;
    if a == [] {
      assert a + u == u && b + v == v;
    } else {
      assert (a + u)[1..] == a[1..] + u && (b + v)[1..] == b[1..] + v;
      assert a == [a[0]] + a[1..] && b == [b[0]] + b[1..];
      ListLessConcat(a[1..], b[1..], u, v);
    }
  }

  predicate PlainScope(s: GraphScope) { Plain(s.graph) && forall p :: p in s.namespace ==> Plain(p) }

  /** At one depth, scopes with plain components sort by name as they sort by
      component. */
  lemma OrdersAgree(a: GraphScope, b: GraphScope)
    requires PlainScope(a) && PlainScope(b) && |a.namespace| == |b.namespace|
    ensures Lexicographic.Less(Name(a), Name(b)) <==> ScopeLess(a, b)
  {
    hide Lexicographic.Less;
    var u, v := ["graphs", a.graph], ["graphs", b.graph];
    assert Plain("graphs");
    JoinOrder(NameParts(a), NameParts(b));
    ListLessConcat(a.namespace, b.namespace, u, v);
    Lexicographic.Irreflexive("graphs");
    assert u[1..] == [a.graph] && v[1..] == [b.graph];
    assert !ListLess(u[1..][1..], v[1..][1..]);
  }

  function Names(scopes: seq<GraphScope>): (r: seq<string>)
    ensures |r| == |scopes| && forall i :: 0 <= i < |r| ==> r[i] == Name(scopes[i])
  {
    seq(|scopes|, i requires 0 <= i < |scopes| => Name(scopes[i]))
  }

  ghost predicate ScopesSorted(scopes: seq<GraphScope>) {
    forall i, j :: 0 <= i < j < |scopes| ==> ScopeLess(scopes[i], scopes[j])
  }

  /** So a sorted registry of such scopes is scheduled fairly. */
  lemma PlainRegistryIsFair(scopes: seq<GraphScope>)
    requires scopes != [] && ScopesSorted(scopes)
    requires forall s :: s in scopes ==> PlainScope(s) && |s.namespace| == |scopes[0].namespace|
    ensures StrictlySorted(Names(scopes)) && FairSchedule.Fair(Names(scopes))
  {
    hide Lexicographic.Less, ScopeLess, Name, FairSchedule.Fair;
    forall i, j | 0 <= i < j < |scopes| ensures Lexicographic.Less(Names(scopes)[i], Names(scopes)[j]) {
      assert scopes[i] in scopes && scopes[j] in scopes;
      OrdersAgree(scopes[i], scopes[j]);
    }
    FairSchedule.SortedIsFair(Names(scopes));
  }

  /** A nested namespace breaks the agreement even with plain components: the
      child `b` of `a` sorts after `a`, but its name sorts before. */
  lemma NestingDisagrees()
    ensures var outer, inner := GraphScope(["a"], "g"), GraphScope(["a", "b"], "g");
            && PlainScope(outer) && PlainScope(inner)
            && ScopeLess(outer, inner) && Lexicographic.Less(Name(inner), Name(outer))
  {
    var outer, inner := GraphScope(["a"], "g"), GraphScope(["a", "b"], "g");
    assert outer.namespace[1..] == [] && inner.namespace[1..] == ["b"];
    Lexicographic.Irreflexive("a");
    JoinConcat(["a"], ["graphs", "g"], '/');
    JoinConcat(["a"], ["b", "graphs", "g"], '/');
    assert NameParts(outer) == ["a"] + ["graphs", "g"] && NameParts(inner) == ["a"] + ["b", "graphs", "g"];
    var u, v := Join(["b", "graphs", "g"], '/'), Join(["graphs", "g"], '/');
    assert u[0] == 'b' && v[0] == 'g';
    assert Lexicographic.Less(u, v);
    Lexicographic.CommonPrefix("a/", u, v);
    assert Name(inner) == "a/" + u && Name(outer) == "a/" + v;
  }

  const STARVING: seq<GraphScope> := [GraphScope(["a"], "g"), GraphScope(["a-b"], "g")]

  /** The registry can hold the names that starve: the tenants `a` and `a-b`, sorted
      as scopes. With one scope a cycle the second is never visited. */
  lemma RegistryStarves(m: nat)
    ensures (forall s :: s in STARVING ==> ValidScope(s)) && ScopesSorted(STARVING)
    ensures !Searchable(Names(STARVING))
    ensures var visits := FairSchedule.Visits(Names(STARVING), None, FairSchedule.Ones(m));
            forall i :: 0 <= i < |visits| ==> visits[i] == 0
  {
    hide *;
    StarvingSorted();
    StarvingNames();
    FairSchedule.ScopeOrderStarves(m);
  }

  lemma StarvingSorted()
    ensures (forall s :: s in STARVING ==> ValidScope(s)) && ScopesSorted(STARVING)
  {
    assert Lexicographic.Less("a", "a-b");
    assert ScopeLess(STARVING[0], STARVING[1]);
  }

  lemma StarvingNames()
    ensures Names(STARVING) == ["a/graphs/g", "a-b/graphs/g"]
  {
    hide Name;
    NameOf("a");
    NameOf("a-b");
    assert "a" + "/graphs/g" == "a/graphs/g" && "a-b" + "/graphs/g" == "a-b/graphs/g";
    assert STARVING[0] == GraphScope(["a"], "g") && STARVING[1] == GraphScope(["a-b"], "g");
  }

  lemma NameOf(tenant: string)
    ensures Name(GraphScope([tenant], "g")) == tenant + "/graphs/g"
  {
    JoinConcat([tenant], ["graphs", "g"], '/');
    JoinConcat(["graphs"], ["g"], '/');
    assert NameParts(GraphScope([tenant], "g")) == [tenant] + ["graphs", "g"];
  }

  // The texts of a scope two namespaces deep, spelled out.

  lemma NameSpelledOut(x: string, y: string, g: string)
    ensures Name(GraphScope([x, y], g)) == x + "/" + y + "/" + "graphs" + "/" + g
  {
    assert NameParts(GraphScope([x, y], g)) == [x, y, "graphs", g];
    FourParts(x, y, "graphs", g);
  }

  lemma StorePathSpelledOut(base: string, x: string, y: string, g: string)
    ensures var path := "namespaces" + "/" + x + "/" + ("subnamespaces" + "/" + y + "/" + "graphs" + "/" + g);
            && StorePath("", GraphScope([x, y], g)) == path
            && (base != "" && base[|base| - 1] != '/' ==>
                  && StorePath(base, GraphScope([x, y], g)) == base + "/" + path
                  && StorePath(base + "/", GraphScope([x, y], g)) == base + "/" + path)
  {
    var s := GraphScope([x, y], g);
    var head, tail := ["namespaces", x], ["subnamespaces", y, "graphs", g];
    NestedNext(s.namespace, 0);
    NestedNext(s.namespace, 1);
    assert Tag(0) == "namespaces" && Tag(1) == "subnamespaces";
    assert Nested(s.namespace, 0) == [];
    hide Nested, Tag, Join;
    assert StoreParts(s) == head + tail;
    JoinConcat(head, tail, '/');
    JoinTwo("namespaces", x);
    FourParts("subnamespaces", y, "graphs", g);
    TrimmedBase(base);
  }

  lemma TrimmedBase(base: string)
    ensures TrimEnd("", '/') == ""
    ensures base != "" && base[|base| - 1] != '/' ==> TrimEnd(base, '/') == base && TrimEnd(base + "/", '/') == base
  {
    assert (base + "/")[..|base|] == base;
  }

  lemma FourParts(a: string, b: string, c: string, d: string)
    ensures Join([a, b, c, d], '/') == a + "/" + b + "/" + c + "/" + d
  {
    JoinConcat([a, b], [c, d], '/');
    JoinTwo(a, b);
    JoinTwo(c, d);
    assert [a, b] + [c, d] == [a, b, c, d];
  }
}
