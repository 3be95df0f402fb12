/** The order in which services are enabled or disabled: a depth-first sort of the service graph. */
module ServiceOrder {
  /** The services that each service names, by name: those it requires, or those that depend on it. */
  type Graph = map<string, seq<string>>

  // ---------------------------------------------------------------------------------------------------------
  // Graphs

  ghost predicate Closed(g: Graph) {
    forall n | n in g :: forall d | d in g[n] :: d in g
  }

  /** Each service on the path names the next. */
  ghost predicate Path(g: Graph, p: seq<string>) {
    && p != []
    && (forall i | 0 <= i < |p| :: p[i] in g)
    && forall i | 0 <= i < |p| - 1 :: p[i + 1] in g[p[i]]
  }

  ghost predicate Cycle(g: Graph, p: seq<string>) {
    Path(g, p) && |p| > 1 && p[0] == p[|p| - 1]
  }

  ghost predicate Acyclic(g: Graph) {
    forall p :: !Cycle(g, p)
  }

  ghost predicate Leads(g: Graph, p: seq<string>, from: string, to: string) {
    Path(g, p) && p[0] == from && p[|p| - 1] == to
  }

  ghost predicate Reaches(g: Graph, from: string, to: string) {
    exists p :: Leads(g, p, from, to)
  }

  lemma ReachesSelf(g: Graph, n: string)
    requires n in g
    ensures Reaches(g, n, n)
  {
    assert Leads(g, [n], n, n);
  }

  lemma ReachesVia(g: Graph, n: string, d: string, m: string)
    requires n in g && d in g[n] && Reaches(g, d, m)
    ensures Reaches(g, n, m)
    ensures Acyclic(g) ==> n != m
  {
    var p :| Leads(g, p, d, m);
    assert Leads(g, [n] + p, n, m);
    if n == m { assert Cycle(g, [n] + p); }
  }

  /** A path in an acyclic graph passes each service once, so it is no longer than the graph is large. */
  lemma PathBound(g: Graph, p: seq<string>)
    requires Acyclic(g) && Path(g, p)
    ensures forall i, j | 0 <= i < j < |p| :: p[i] != p[j]
    ensures |p| <= |g.Keys|
  {
    forall i, j | 0 <= i < j < |p| ensures p[i] != p[j] {
      var q := p[i..j + 1];
      assert forall k | 0 <= k < |q| :: q[k] == p[i + k];
      assert Path(g, q);
      assert !Cycle(g, q);
    }
    DistinctBound(p, g.Keys);
  }

  lemma {:induction false} DistinctBound(p: seq<string>, s: set<string>)
    requires forall i, j | 0 <= i < j < |p| :: p[i] != p[j]
    requires forall i | 0 <= i < |p| :: p[i] in s
    ensures |p| <= |s|
  {
    if p != [] {
      var n := |p| - 1;
      forall i | 0 <= i < n ensures p[..n][i] in s - {p[n]} { assert p[..n][i] == p[i]; }
      DistinctBound(p[..n], s - {p[n]});
      assert s == (s - {p[n]}) + {p[n]};
    }
  }

  lemma PathTail(g: Graph, p: seq<string>)
    requires Path(g, p) && |p| > 1
    ensures Path(g, p[1..])
  {
    forall i | 0 <= i < |p| - 2 ensures p[1..][i + 1] in g[p[1..][i]] { assert p[1..][i] == p[i + 1]; }
  }

  lemma Extend(g: Graph, stack: seq<string>, n: string, d: string)
    requires n in g && Path(g, stack + [n]) && Closed(g) && d in g[n]
    ensures Path(g, stack + [n] + [d])
  {
    var p, q := stack + [n], stack + [n] + [d];
    assert p[|p| - 1] == n;
    forall i | 0 <= i < |q| - 1 ensures q[i + 1] in g[q[i]] {
      if i < |p| - 1 { assert p[i + 1] in g[p[i]]; }
    }
  }

  // ---------------------------------------------------------------------------------------------------------
  // What a visit appends. `stack` are the services whose visit has begun and not ended.

  ghost predicate CanVisit(g: Graph, stack: seq<string>, n: string) {
    Closed(g) && Acyclic(g) && Path(g, stack + [n])
  }

  ghost function Visit(g: Graph, stack: seq<string>, n: string, order: seq<string>): seq<string>
    requires CanVisit(g, stack, n)
    decreases |g.Keys| - |stack|, 0, 0
  {
    if n in order then order
    else
      assert (stack + [n])[|stack|] == n;
      PathBound(g, stack + [n]);
      VisitAll(g, stack, n, g[n], order) + [n]
  }

  /** The visits to some of the services that `n` names, one after the other. */
  ghost function VisitAll(g: Graph, stack: seq<string>, n: string, deps: seq<string>, order: seq<string>): seq<string>
    requires CanVisit(g, stack, n) && n in g && forall d | d in deps :: d in g[n]
    decreases |g.Keys| - |stack| - 1, 1, |deps|
  {
    if deps == [] then order
    else
      var last := |deps| - 1;
      assert deps[last] in g[n];
      PathBound(g, stack + [n]);
      Extend(g, stack, n, deps[last]);
      PathBound(g, stack + [n] + [deps[last]]);
      assert forall d | d in deps[..last] :: d in deps;
      Visit(g, stack + [n], deps[last], VisitAll(g, stack, n, deps[..last], order))
  }

  ghost function VisitRoots(g: Graph, roots: seq<string>): seq<string>
    requires Closed(g) && Acyclic(g) && forall r | r in roots :: r in g
  {
    if roots == [] then []
    else
      var last := |roots| - 1;
      assert forall r | r in roots[..last] :: r in roots;
      assert [] + [roots[last]] == [roots[last]];
      Visit(g, [], roots[last], VisitRoots(g, roots[..last]))
  }

  // ---------------------------------------------------------------------------------------------------------
  // The code

  class Sorter {
    var visited: map<string, bool>
    var order: seq<string>

    ghost predicate Valid()
      reads this
    {
      forall n :: n in visited <==> n in order
    }

    constructor ()
      ensures Valid() && order == []
    {
      visited, order := map[], [];
    }

    /** A service is marked only after the visits to those it names, so the recursion ends only because the graph
        is acyclic; for the same reason the guard inside the loop always holds. */
    method SortEntitlementsVisit(g: Graph, name: string, ghost stack: seq<string>)
      requires Valid() && CanVisit(g, stack, name)
      modifies this
      ensures Valid() && order == Visit(g, stack, name, old(order))
      decreases |g.Keys| - |stack|
    {
      if name in visited { return; }
      assert (stack + [name])[|stack|] == name;
      PathBound(g, stack + [name]);
      var clsList := g[name];
      var i := 0;
      while i < |clsList|
        invariant 0 <= i <= |clsList| && Valid()
        invariant forall d | d in clsList[..i] :: d in g[name]
        invariant order == VisitAll(g, stack, name, clsList[..i], old(order))
      {
        VisitAllAvoids(g, stack, name, clsList[..i], old(order));
        assert name !in visited;
        assert clsList[..i + 1][..i] == clsList[..i] && clsList[i] in g[name];
        if name !in visited {
          Extend(g, stack, name, clsList[i]);
          PathBound(g, stack + [name] + [clsList[i]]);
          SortEntitlementsVisit(g, clsList[i], stack + [name]);
        }
        i := i + 1;
      }
      assert clsList[..i] == clsList;
      order := order + [name];
      visited := visited[name := true];
    }
  }

  method SortEntitlements(g: Graph, entitlementClasses: seq<string>) returns (order: seq<string>)
    requires Closed(g) && Acyclic(g) && forall r | r in entitlementClasses :: r in g
    ensures order == VisitRoots(g, entitlementClasses)
  {
    var sorter := new Sorter();
    var i := 0;
    while i < |entitlementClasses|
      invariant 0 <= i <= |entitlementClasses| && sorter.Valid()
      invariant forall r | r in entitlementClasses[..i] :: r in g
      invariant sorter.order == VisitRoots(g, entitlementClasses[..i])
    {
      var root := entitlementClasses[i];
      assert entitlementClasses[..i + 1][..i] == entitlementClasses[..i] && root in entitlementClasses;
      assert [] + [root] == [root];
      sorter.SortEntitlementsVisit(g, root, []);
      i := i + 1;
    }
    assert entitlementClasses[..i] == entitlementClasses;
    order := sorter.order;
  }

  // ---------------------------------------------------------------------------------------------------------
  // The order is topological

  /** What a visit appends is reachable from the service visited. */
  lemma {:induction false} VisitReaches(g: Graph, stack: seq<string>, n: string, order: seq<string>)
    requires CanVisit(g, stack, n)
    ensures n in Visit(g, stack, n, order)
    ensures forall m | m in Visit(g, stack, n, order) :: m in order || Reaches(g, n, m)
    decreases |g.Keys| - |stack|, 0, 0
  {
    if n !in order {
      assert (stack + [n])[|stack|] == n;
      PathBound(g, stack + [n]);
      VisitAllReaches(g, stack, n, g[n], order);
      ReachesSelf(g, n);
    }
  }

  lemma {:induction false} VisitAllReaches(g: Graph, stack: seq<string>, n: string, deps: seq<string>,
                                           order: seq<string>)
    requires CanVisit(g, stack, n) && n in g && forall d | d in deps :: d in g[n]
    ensures forall m | m in VisitAll(g, stack, n, deps, order) :: m in order || (Reaches(g, n, m) && m != n)
    decreases |g.Keys| - |stack| - 1, 1, |deps|
  {
    if deps != [] {
      var last := |deps| - 1;
      var before := VisitAll(g, stack, n, deps[..last], order);
      PathBound(g, stack + [n]);
      Extend(g, stack, n, deps[last]);
      PathBound(g, stack + [n] + [deps[last]]);
      assert forall d | d in deps[..last] :: d in deps;
      VisitAllReaches(g, stack, n, deps[..last], order);
      VisitReaches(g, stack + [n], deps[last], before);
      forall m | Reaches(g, deps[last], m) ensures Reaches(g, n, m) && m != n {
        ReachesVia(g, n, deps[last], m);
      }
    }
  }

  /** Visiting what a service names never marks the service: the inner guard never cuts the loop short. */
  lemma {:induction false} VisitAllAvoids(g: Graph, stack: seq<string>, n: string, deps: seq<string>,
                                          order: seq<string>)
    requires CanVisit(g, stack, n) && n in g && forall d | d in deps :: d in g[n]
    ensures n !in order ==> n !in VisitAll(g, stack, n, deps, order)
  {
    VisitAllReaches(g, stack, n, deps, order);
  }

  /** Every service is listed once, after everything it names. */
  ghost predicate WellOrdered(g: Graph, order: seq<string>) {
    && (forall i, j | 0 <= i < j < |order| :: order[i] != order[j])
    && forall i | 0 <= i < |order| :: order[i] in g && forall d | d in g[order[i]] :: d in order[..i]
  }

  lemma {:induction false} VisitWellOrdered(g: Graph, stack: seq<string>, n: string, order: seq<string>)
    requires CanVisit(g, stack, n) && WellOrdered(g, order)
    ensures WellOrdered(g, Visit(g, stack, n, order)) && order <= Visit(g, stack, n, order)
    decreases |g.Keys| - |stack|, 0, 0
  {
    if n !in order {
      assert (stack + [n])[|stack|] == n;
      PathBound(g, stack + [n]);
      VisitAllWellOrdered(g, stack, n, g[n], order);
      VisitAllAvoids(g, stack, n, g[n], order);
      var before := VisitAll(g, stack, n, g[n], order);
      WellOrderedLast(g, before, n);
    }
  }

  lemma WellOrderedLast(g: Graph, order: seq<string>, n: string)
    requires WellOrdered(g, order) && n in g && n !in order && forall d | d in g[n] :: d in order
    ensures WellOrdered(g, order + [n])
  {
    var all := order + [n];
    forall i | 0 <= i < |all| ensures all[i] in g && forall d | d in g[all[i]] :: d in all[..i] {
      if i < |order| {
        assert all[..i] == order[..i];
      } else {
        assert all[..i] == order;
      }
    }
  }

  lemma {:induction false} VisitAllWellOrdered(g: Graph, stack: seq<string>, n: string, deps: seq<string>,
                                               order: seq<string>)
    requires CanVisit(g, stack, n) && n in g && WellOrdered(g, order) && forall d | d in deps :: d in g[n]
    ensures var after := VisitAll(g, stack, n, deps, order);
      WellOrdered(g, after) && order <= after && forall d | d in deps :: d in after
    decreases |g.Keys| - |stack| - 1, 1, |deps|
  {
    if deps != [] {
      var last := |deps| - 1;
      var before := VisitAll(g, stack, n, deps[..last], order);
      PathBound(g, stack + [n]);
      Extend(g, stack, n, deps[last]);
      PathBound(g, stack + [n] + [deps[last]]);
      assert forall d | d in deps[..last] :: d in deps;
      VisitAllWellOrdered(g, stack, n, deps[..last], order);
      VisitWellOrdered(g, stack + [n], deps[last], before);
      VisitReaches(g, stack + [n], deps[last], before);
      assert forall d | d in deps :: d == deps[last] || d in deps[..last];
    }
  }

  // ---------------------------------------------------------------------------------------------------------
  // In turn

  lemma {:induction false} VisitAllPrefix(g: Graph, stack: seq<string>, n: string, deps: seq<string>, j: nat,
                                          order: seq<string>)
    requires CanVisit(g, stack, n) && n in g && WellOrdered(g, order) && (forall d | d in deps :: d in g[n])
    requires j <= |deps|
    ensures forall d | d in deps[..j] :: d in g[n]
    ensures VisitAll(g, stack, n, deps[..j], order) <= VisitAll(g, stack, n, deps, order)
    decreases |deps|
  {
    assert forall d | d in deps[..j] :: d in deps;
    if j == |deps| {
      assert deps[..j] == deps;
    } else {
      var last := |deps| - 1;
      assert forall d | d in deps[..last] :: d in deps;
      assert deps[..last][..j] == deps[..j];
      VisitAllPrefix(g, stack, n, deps[..last], j, order);
      VisitAllWellOrdered(g, stack, n, deps[..last], order);
      PathBound(g, stack + [n]);
      Extend(g, stack, n, deps[last]);
      PathBound(g, stack + [n] + [deps[last]]);
      VisitWellOrdered(g, stack + [n], deps[last], VisitAll(g, stack, n, deps[..last], order));
    }
  }

  /** Exactly what some of these reach. */
  lemma {:induction false} VisitAllIsReached(g: Graph, stack: seq<string>, n: string, deps: seq<string>,
                                             order: seq<string>, m: string)
    requires CanVisit(g, stack, n) && n in g && WellOrdered(g, order) && forall d | d in deps :: d in g[n]
    ensures m in VisitAll(g, stack, n, deps, order) <==> m in order || FromRoots(g, deps, m)
    decreases |deps|
  {
    var after := VisitAll(g, stack, n, deps, order);
    VisitAllWellOrdered(g, stack, n, deps, order);
    if FromRoots(g, deps, m) { ReachedIsListed(g, after, deps, m); }
    if m in after && deps != [] {
      var last := |deps| - 1;
      var before := VisitAll(g, stack, n, deps[..last], order);
      assert forall d | d in deps[..last] :: d in deps;
      VisitAllIsReached(g, stack, n, deps[..last], order, m);
      PathBound(g, stack + [n]);
      Extend(g, stack, n, deps[last]);
      PathBound(g, stack + [n] + [deps[last]]);
      VisitReaches(g, stack + [n], deps[last], before);
      assert deps == deps[..last] + [deps[last]];
      MoreRoots(g, deps[..last], deps[last], m);
    }
  }

  lemma ReachedIsListed(g: Graph, order: seq<string>, roots: seq<string>, m: string)
    requires WellOrdered(g, order) && (forall r | r in roots :: r in order) && FromRoots(g, roots, m)
    ensures m in order
  {
    var r :| r in roots && Reaches(g, r, m);
    var p :| Leads(g, p, r, m);
    var i :| 0 <= i < |order| && order[i] == r;
    ReachedBefore(g, order, i, p);
  }

  /** What a service names is visited in turn: for every `j`, the order begins with what was listed before and exactly
      what the first `j` of them reach; and the service itself comes last. */
  lemma NamedInTurn(g: Graph, stack: seq<string>, n: string, order: seq<string>, j: nat) returns (k: nat)
    requires CanVisit(g, stack, n) && n in g && WellOrdered(g, order) && n !in order && j <= |g[n]|
    ensures var after := Visit(g, stack, n, order);
      && k < |after| && after[|after| - 1] == n && order <= after[..k]
      && (j == |g[n]| ==> k == |after| - 1)
      && forall m :: m in after[..k] <==> m in order || FromRoots(g, g[n][..j], m)
  {
    var some := g[n][..j];
    assert (stack + [n])[|stack|] == n;
    PathBound(g, stack + [n]);
    VisitAllPrefix(g, stack, n, g[n], j, order);
    VisitAllWellOrdered(g, stack, n, some, order);
    forall m ensures m in VisitAll(g, stack, n, some, order) <==> m in order || FromRoots(g, some, m) {
      VisitAllIsReached(g, stack, n, some, order, m);
    }
    k := |VisitAll(g, stack, n, some, order)|;
    assert j == |g[n]| ==> some == g[n];
    hide VisitAll, FromRoots, Reaches, Acyclic, Path;
    assert Visit(g, stack, n, order)[..k] == VisitAll(g, stack, n, some, order);
  }

  /** So are the known services: for every `j`, the order begins with exactly what the first `j` of them reach. */
  lemma {:induction false} RootsInTurn(g: Graph, roots: seq<string>, j: nat) returns (k: nat)
    requires Closed(g) && Acyclic(g) && (forall r | r in roots :: r in g) && j <= |roots|
    ensures k <= |VisitRoots(g, roots)|
    ensures forall m :: m in VisitRoots(g, roots)[..k] <==> FromRoots(g, roots[..j], m)
    decreases |roots|
  {
    assert forall r | r in roots[..j] :: r in roots;
    if j == |roots| {
      assert roots[..j] == roots;
      OrderIsTopological(g, roots);
      k := |VisitRoots(g, roots)|;
      assert VisitRoots(g, roots)[..k] == VisitRoots(g, roots);
    } else {
      var init, root := roots[..|roots| - 1], roots[|roots| - 1];
      assert roots == init + [root] && roots[..j] == init[..j];
      assert forall r | r in init :: r in roots;
      k := RootsInTurn(g, init, j);
      RootsStep(g, init, root);
      RootsOrdered(g, init);
      VisitWellOrdered(g, [], root, VisitRoots(g, init));
      hide *;
      assert VisitRoots(g, init) <= VisitRoots(g, roots);
      assert VisitRoots(g, roots)[..k] == VisitRoots(g, init)[..k];
    }
  }

  /** What a listed service reaches is listed before it. */
  lemma {:induction false} ReachedBefore(g: Graph, order: seq<string>, i: nat, p: seq<string>)
    requires WellOrdered(g, order) && i < |order| && Path(g, p) && p[0] == order[i]
    ensures p[|p| - 1] in order[..i + 1]
    ensures |p| > 1 ==> p[|p| - 1] in order[..i]
    decreases |p|
  {
    if |p| > 1 {
      assert p[1] in g[p[0]];
      assert p[1] in order[..i];
      var j :| 0 <= j < i && order[j] == p[1];
      PathTail(g, p);
      ReachedBefore(g, order, j, p[1..]);
      assert order[..j + 1] <= order[..i];
      var m :| 0 <= m < j + 1 && order[m] == p[|p| - 1];
      assert order[..i][m] == order[m];
    }
  }

  ghost predicate FromRoots(g: Graph, roots: seq<string>, m: string) {
    exists r :: r in roots && Reaches(g, r, m)
  }

  lemma MoreRoots(g: Graph, roots: seq<string>, root: string, m: string)
    ensures FromRoots(g, roots, m) || Reaches(g, root, m) ==> FromRoots(g, roots + [root], m)
  {
    if r :| r in roots && Reaches(g, r, m) {
      assert r in roots + [root];
    } else if Reaches(g, root, m) {
      assert root in roots + [root];
    }
  }

  lemma RootsStep(g: Graph, init: seq<string>, root: string)
    requires Closed(g) && Acyclic(g) && (forall r | r in init :: r in g) && root in g
    ensures forall r | r in init + [root] :: r in g
    ensures CanVisit(g, [], root)
    ensures VisitRoots(g, init + [root]) == Visit(g, [], root, VisitRoots(g, init))
  {
    hide Visit, Closed, Acyclic;
    var roots := init + [root];
    assert roots[..|roots| - 1] == init && [] + [root] == [root];
  }

  lemma {:induction false} RootsOrdered(g: Graph, roots: seq<string>)
    requires Closed(g) && Acyclic(g) && forall r | r in roots :: r in g
    ensures WellOrdered(g, VisitRoots(g, roots)) && forall r | r in roots :: r in VisitRoots(g, roots)
  {
    if roots != [] {
      var init, root := roots[..|roots| - 1], roots[|roots| - 1];
      assert roots == init + [root];
      RootsStep(g, init, root);
      hide *;
      var before := VisitRoots(g, init);
      RootsOrdered(g, init);
      VisitReaches(g, [], root, before);
      VisitWellOrdered(g, [], root, before);
    }
  }

  lemma {:induction false} RootsReach(g: Graph, roots: seq<string>, m: string)
    requires Closed(g) && Acyclic(g) && forall r | r in roots :: r in g
    ensures m in VisitRoots(g, roots) ==> FromRoots(g, roots, m)
  {
    if roots != [] {
      var init, root := roots[..|roots| - 1], roots[|roots| - 1];
      assert roots == init + [root];
      RootsReach(g, init, m);
      assert [] + [root] == [root];
      hide Visit, Reaches, FromRoots, Acyclic;
      VisitReaches(g, [], root, VisitRoots(g, init));
      MoreRoots(g, init, root, m);
    }
  }

  /** The enable order: every service reachable from the known ones is listed exactly once, after everything it
      reaches, and nothing else is listed. */
  lemma {:induction false} OrderIsTopological(g: Graph, roots: seq<string>)
    requires Closed(g) && Acyclic(g) && forall r | r in roots :: r in g
    ensures WellOrdered(g, VisitRoots(g, roots))
    ensures forall m :: m in VisitRoots(g, roots) <==> FromRoots(g, roots, m)
    ensures forall i, m | 0 <= i < |VisitRoots(g, roots)| && Reaches(g, VisitRoots(g, roots)[i], m) ::
      m == VisitRoots(g, roots)[i] || m in VisitRoots(g, roots)[..i]
  {
    RootsOrdered(g, roots);
    forall m | m in VisitRoots(g, roots) ensures FromRoots(g, roots, m) { RootsReach(g, roots, m); }
    var order := VisitRoots(g, roots);
    hide VisitRoots;
    forall i, m | 0 <= i < |order| && Reaches(g, order[i], m) ensures m == order[i] || m in order[..i] {
      var p :| Leads(g, p, order[i], m);
      ReachedBefore(g, order, i, p);
    }
    forall m | FromRoots(g, roots, m) ensures m in order {
      var r :| r in roots && Reaches(g, r, m);
      var i :| 0 <= i < |order| && order[i] == r;
      assert m == order[i] || m in order[..i];
    }
  }
}
