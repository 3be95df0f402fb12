/** The requested services in enable order; names that are no service come last, as they were given. */
module EnableOrder {
  import opened ServiceOrder

  /** `order.index(name)`, or the length of the list where the name is not in it. */
  function Rank(order: seq<string>, name: string): (r: nat)
    ensures r <= |order| && (r < |order| <==> name in order) && (r < |order| ==> order[r] == name)
  {
    if order == [] then 0 else if order[0] == name then 0 else 1 + Rank(order[1..], name)
  }

  /** Puts `name` after everything that ranks no higher. */
  function Insert(order: seq<string>, names: seq<string>, name: string): seq<string> {
    if names == [] || Rank(order, names[|names| - 1]) <= Rank(order, name) then names + [name]
    else Insert(order, names[..|names| - 1], name) + [names[|names| - 1]]
  }

  /** `sorted(ents, key=...)`, which is stable. */
  function OrderForEnabling(order: seq<string>, ents: seq<string>): seq<string> {
    if ents == [] then []
    else Insert(order, OrderForEnabling(order, ents[..|ents| - 1]), ents[|ents| - 1])
  }

  ghost predicate Ranked(order: seq<string>, names: seq<string>) {
    forall i, j | 0 <= i < j < |names| :: Rank(order, names[i]) <= Rank(order, names[j])
  }

  /** The names of one rank, in order. */
  function OfRank(order: seq<string>, names: seq<string>, rank: nat): seq<string> {
    if names == [] then []
    else
      OfRank(order, names[..|names| - 1], rank)
      + if Rank(order, names[|names| - 1]) == rank then [names[|names| - 1]] else []
  }

  lemma {:induction false} InsertPermutes(order: seq<string>, names: seq<string>, name: string)
    ensures multiset(Insert(order, names, name)) == multiset(names) + multiset{name}
  {
    if names != [] && Rank(order, names[|names| - 1]) > Rank(order, name) {
      assert names == names[..|names| - 1] + [names[|names| - 1]];
      InsertPermutes(order, names[..|names| - 1], name);
    }
  }

  lemma {:induction false} InsertRanked(order: seq<string>, names: seq<string>, name: string)
    requires Ranked(order, names)
    ensures Ranked(order, Insert(order, names, name))
  {
    hide Rank;
    if names != [] && Rank(order, names[|names| - 1]) > Rank(order, name) {
      var init, last := names[..|names| - 1], names[|names| - 1];
      InsertRanked(order, init, name);
      InsertPermutes(order, init, name);
      var inserted := Insert(order, init, name);
      forall i | 0 <= i < |inserted| ensures Rank(order, inserted[i]) <= Rank(order, last) {
        assert inserted[i] in multiset(inserted);
        assert inserted[i] in init || inserted[i] == name;
      }
    }
  }

  lemma OfRankLast(order: seq<string>, names: seq<string>, name: string, rank: nat)
    ensures OfRank(order, names + [name], rank)
      == OfRank(order, names, rank) + if Rank(order, name) == rank then [name] else []
  {
    assert (names + [name])[..|names|] == names;
  }

  lemma {:induction false} InsertStable(order: seq<string>, names: seq<string>, name: string, rank: nat)
    requires Ranked(order, names)
    ensures OfRank(order, Insert(order, names, name), rank) == OfRank(order, names + [name], rank)
  {
    hide Rank, OfRank;
    OfRankLast(order, names, name, rank);
    if names != [] && Rank(order, names[|names| - 1]) > Rank(order, name) {
      var init, last := names[..|names| - 1], names[|names| - 1];
      assert names == init + [last];
      InsertStable(order, init, name, rank);
      OfRankLast(order, Insert(order, init, name), last, rank);
      OfRankLast(order, init, name, rank);
      OfRankLast(order, init, last, rank);
    }
  }

  /** Sorting permutes the names, orders them by rank, and keeps the order of those of one rank. */
  lemma {:induction false} OrderForEnablingSorts(order: seq<string>, ents: seq<string>)
    ensures var sorted := OrderForEnabling(order, ents);
      && Ranked(order, sorted) && multiset(sorted) == multiset(ents)
      && forall rank: nat :: OfRank(order, sorted, rank) == OfRank(order, ents, rank)
  {
    if ents != [] {
      var init, last := ents[..|ents| - 1], ents[|ents| - 1];
      assert ents == init + [last];
      var before := OrderForEnabling(order, init);
      OrderForEnablingSorts(order, init);
      InsertRanked(order, before, last);
      InsertPermutes(order, before, last);
      hide Rank, OfRank, Ranked, Insert;
      forall rank: nat ensures OfRank(order, OrderForEnabling(order, ents), rank) == OfRank(order, ents, rank) {
        InsertStable(order, before, last, rank);
        OfRankLast(order, before, last, rank);
        OfRankLast(order, init, last, rank);
      }
    }
  }

  /** Wherever a requested service and one that it reaches are listed, the latter comes first; and every name that
      is no service comes after all that are. */
  lemma EnablingFollowsTheGraph(g: Graph, roots: seq<string>, ents: seq<string>, i: nat, j: nat)
    requires Closed(g) && Acyclic(g) && forall r | r in roots :: r in g
    requires var sorted := OrderForEnabling(VisitRoots(g, roots), ents);
      i < |sorted| && j < |sorted|
    ensures var order := VisitRoots(g, roots);
      var sorted := OrderForEnabling(order, ents);
      && (sorted[i] in order && sorted[j] != sorted[i] && Reaches(g, sorted[i], sorted[j]) ==> j < i)
      && (sorted[i] !in order && sorted[j] in order ==> j < i)
  {
    var order := VisitRoots(g, roots);
    hide *;
    OrderForEnablingSorts(order, ents);
    var sorted := OrderForEnabling(order, ents);
    if sorted[i] in order && sorted[j] != sorted[i] && Reaches(g, sorted[i], sorted[j]) {
      ReachedRanksLower(g, roots, sorted[i], sorted[j]);
      RankedBefore(order, sorted, i, j);
    }
    if sorted[i] !in order && sorted[j] in order { RankedBefore(order, sorted, i, j); }
  }

  /** What a service reaches stands before it in the enable order. */
  lemma ReachedRanksLower(g: Graph, roots: seq<string>, n: string, m: string)
    requires Closed(g) && Acyclic(g) && forall r | r in roots :: r in g
    requires n in VisitRoots(g, roots) && m != n && Reaches(g, n, m)
    ensures Rank(VisitRoots(g, roots), m) < Rank(VisitRoots(g, roots), n)
  {
    var order := VisitRoots(g, roots);
    hide *;
    OrderIsTopological(g, roots);
    var r := Rank(order, n);
    assert m in order[..r];
    var k :| 0 <= k < r && order[k] == m;
    RankFirst(order, k);
  }

  lemma RankedBefore(order: seq<string>, names: seq<string>, i: nat, j: nat)
    requires Ranked(order, names) && i < |names| && j < |names| && Rank(order, names[j]) < Rank(order, names[i])
    ensures j < i
  {
    hide Rank;
  }

  lemma {:induction false} RankFirst(order: seq<string>, k: nat)
    requires k < |order|
    ensures Rank(order, order[k]) <= k
  {
    if k > 0 && order[0] != order[k] { RankFirst(order[1..], k - 1); }
  }
}
