/**
 Depth-first search with a "seen" set, as the graph walkers of the release tooling perform it:
 a state is expanded when its key has not been met before, and a second state with the same key
 is dropped.  The search is described by the order in which states are first met.
 */
module Search {

  /** States outside `universe` (a finite set of keys) have no successors. */
  datatype Graph<!S(!new), !K(==)> = Graph(succ: S -> seq<S>, key: S -> K, universe: set<K>) {
    ghost predicate Valid() {
      forall s :: key(s) !in universe ==> succ(s) == []
    }
  }

  ghost function Keys<S(!new), K>(g: Graph<S, K>, order: seq<S>): set<K> {
    set i | 0 <= i < |order| :: g.key(order[i])
  }

  lemma KeysAppend<S(!new), K>(g: Graph<S, K>, order: seq<S>, more: seq<S>)
    ensures Keys(g, order + more) == Keys(g, order) + Keys(g, more)
  {
    var all := order + more;
    forall k | k in Keys(g, order) + Keys(g, more)
      ensures k in Keys(g, all)
    {
      if k in Keys(g, order) {
        var i :| 0 <= i < |order| && g.key(order[i]) == k;
        assert all[i] == order[i];
      } else {
        var i :| 0 <= i < |more| && g.key(more[i]) == k;
        assert all[|order| + i] == more[i];
      }
    }
  }

  /** Visiting `s` after `order` has been met: the extended order. */
  ghost function Visit<S(!new), K>(g: Graph<S, K>, s: S, order: seq<S>): (r: seq<S>)
    requires g.Valid()
    ensures order <= r && g.key(s) in Keys(g, r)
    decreases g.universe - Keys(g, order), 0
  {
    KeysAppend(g, order, [s]);
    assert g.key([s][0]) in Keys(g, [s]);
    if g.key(s) in Keys(g, order) then order
    else if g.key(s) !in g.universe then order + [s]
    else
      var r := VisitAll(g, g.succ(s), order + [s]);
      KeysAppend(g, order + [s], r[|order| + 1..]);
      assert r == order + [s] + r[|order| + 1..];
      r
  }

  ghost function VisitAll<S(!new), K>(g: Graph<S, K>, todo: seq<S>, order: seq<S>): (r: seq<S>)
    requires g.Valid()
    ensures order <= r
    decreases g.universe - Keys(g, order), |todo|
  {
    if todo == [] then order
    else
      var next := Visit(g, todo[0], order);
      KeysAppend(g, order, next[|order|..]);
      assert next == order + next[|order|..];
      VisitAll(g, todo[1..], next)
  }

  lemma KeysGrow<S(!new), K>(g: Graph<S, K>, order: seq<S>, r: seq<S>)
    requires order <= r
    ensures Keys(g, order) <= Keys(g, r)
  {
    assert r == order + r[|order|..];
    KeysAppend(g, order, r[|order|..]);
  }

  // ----- each key is met once -----

  ghost predicate DistinctKeys<S(!new), K>(g: Graph<S, K>, order: seq<S>) {
    forall i, j | 0 <= i < j < |order| :: g.key(order[i]) != g.key(order[j])
  }

  lemma {:induction false} VisitDistinct<S(!new), K>(g: Graph<S, K>, s: S, order: seq<S>)
    requires g.Valid() && DistinctKeys(g, order)
    ensures DistinctKeys(g, Visit(g, s, order))
    decreases g.universe - Keys(g, order), 0
  {
    KeysAppend(g, order, [s]);
    assert g.key([s][0]) in Keys(g, [s]);
    if g.key(s) !in Keys(g, order) && g.key(s) in g.universe {
      VisitAllDistinct(g, g.succ(s), order + [s]);
    }
  }

  lemma {:induction false} VisitAllDistinct<S(!new), K>(g: Graph<S, K>, todo: seq<S>, order: seq<S>)
    requires g.Valid() && DistinctKeys(g, order)
    ensures DistinctKeys(g, VisitAll(g, todo, order))
    decreases g.universe - Keys(g, order), |todo|
  {
    if todo == [] {
    } else {
      VisitDistinct(g, todo[0], order);
      KeysGrow(g, order, Visit(g, todo[0], order));
      VisitAllDistinct(g, todo[1..], Visit(g, todo[0], order));
    }
  }

  // ----- everything met is reachable -----

  ghost predicate ReachesIn<S(!new), K>(g: Graph<S, K>, s: S, t: S, steps: nat) {
    if steps == 0 then s == t
    else exists m :: ReachesIn(g, s, m, steps - 1) && t in g.succ(m)
  }

  ghost predicate Reaches<S(!new), K>(g: Graph<S, K>, s: S, t: S) {
    exists steps: nat :: ReachesIn(g, s, t, steps)
  }

  lemma ReachesSelf<S(!new), K>(g: Graph<S, K>, s: S)
    ensures Reaches(g, s, s)
  {
    assert ReachesIn(g, s, s, 0);
  }

  lemma {:induction false} ReachesInVia<S(!new), K>(g: Graph<S, K>, s: S, t: S, u: S, steps: nat)
    requires t in g.succ(s) && ReachesIn(g, t, u, steps)
    ensures ReachesIn(g, s, u, steps + 1)
  {
    if steps == 0 {
      assert ReachesIn(g, s, s, 0);
    } else {
      var m :| ReachesIn(g, t, m, steps - 1) && u in g.succ(m);
      ReachesInVia(g, s, t, m, steps - 1);
    }
  }

  lemma ReachesVia<S(!new), K>(g: Graph<S, K>, s: S, t: S, u: S)
    requires t in g.succ(s) && Reaches(g, t, u)
    ensures Reaches(g, s, u)
  {
    var steps: nat :| ReachesIn(g, t, u, steps);
    ReachesInVia(g, s, t, u, steps);
  }

  lemma ReachesThen<S(!new), K>(g: Graph<S, K>, s: S, t: S, u: S)
    requires Reaches(g, s, t) && u in g.succ(t)
    ensures Reaches(g, s, u)
  {
    var steps: nat :| ReachesIn(g, s, t, steps);
    assert ReachesIn(g, s, u, steps + 1);
  }

  lemma {:induction false} VisitSound<S(!new), K>(g: Graph<S, K>, s: S, order: seq<S>) returns (r: seq<S>)
    requires g.Valid()
    ensures r == Visit(g, s, order)
    ensures forall i | |order| <= i < |r| :: Reaches(g, s, r[i])
    decreases g.universe - Keys(g, order), 0
  {
    ReachesSelf(g, s);
    KeysAppend(g, order, [s]);
    assert g.key([s][0]) in Keys(g, [s]);
    r := Visit(g, s, order);
    if g.key(s) !in Keys(g, order) && g.key(s) in g.universe {
      r := VisitAllSound(g, g.succ(s), order + [s]);
      forall i | |order| < i < |r|
        ensures Reaches(g, s, r[i])
      {
        var t :| t in g.succ(s) && Reaches(g, t, r[i]);
        ReachesVia(g, s, t, r[i]);
      }
    }
  }

  ghost predicate ReachedFromSome<S(!new), K>(g: Graph<S, K>, todo: seq<S>, u: S) {
    exists t :: t in todo && Reaches(g, t, u)
  }

  lemma {:induction false} VisitAllSound<S(!new), K>(g: Graph<S, K>, todo: seq<S>, order: seq<S>)
    returns (r: seq<S>)
    requires g.Valid()
    ensures r == VisitAll(g, todo, order)
    ensures forall i | |order| <= i < |r| :: ReachedFromSome(g, todo, r[i])
    decreases g.universe - Keys(g, order), |todo|
  {
    r := order;
    if todo == [] {
    } else {
      var next := VisitSound(g, todo[0], order);
      KeysGrow(g, order, next);
      r := VisitAllSound(g, todo[1..], next);
      forall i | |order| <= i < |r|
        ensures ReachedFromSome(g, todo, r[i])
      {
        if i < |next| {
          assert r[i] == next[i] && todo[0] in todo;
        } else {
          assert ReachedFromSome(g, todo[1..], r[i]);
        }
      }
    }
  }

  lemma VisitUnfolds<S(!new), K>(g: Graph<S, K>, s: S, order: seq<S>)
    requires g.Valid()
    ensures Visit(g, s, order)
         == if g.key(s) in Keys(g, order) then order
            else if g.key(s) !in g.universe then order + [s]
            else VisitAll(g, g.succ(s), order + [s])
  {
  }

  lemma VisitAllUnfolds<S(!new), K>(g: Graph<S, K>, todo: seq<S>, order: seq<S>)
    requires g.Valid()
    ensures todo == [] ==> VisitAll(g, todo, order) == order
    ensures todo != [] ==> VisitAll(g, todo, order) == VisitAll(g, todo[1..], Visit(g, todo[0], order))
  {
  }

  // ----- the order is exactly the preorder of a depth-first search -----

  /** Every successor of `s` has been met in `order`. */
  ghost predicate Settled<S(!new), K>(g: Graph<S, K>, s: S, order: seq<S>) {
    forall m | 0 <= m < |g.succ(s)| :: g.key(g.succ(s)[m]) in Keys(g, order)
  }

  lemma SettledGrow<S(!new), K>(g: Graph<S, K>, s: S, order: seq<S>, r: seq<S>)
    requires order <= r && Settled(g, s, order)
    ensures Settled(g, s, r)
  {
    KeysGrow(g, order, r);
  }

  lemma SettledMet<S(!new), K>(g: Graph<S, K>, s: S, order: seq<S>, u: S)
    requires Settled(g, s, order) && u in g.succ(s)
    ensures g.key(u) in Keys(g, order)
  {
    var m :| 0 <= m < |g.succ(s)| && g.succ(s)[m] == u;
  }

  /** r[i + 1] is the first unmet successor of the latest state that still has one, r[j]. */
  ghost predicate NextFrom<S(!new), K>(g: Graph<S, K>, r: seq<S>, i: nat, j: nat, m: nat)
    requires i + 1 < |r|
  {
    && j <= i && m < |g.succ(r[j])| && r[i + 1] == g.succ(r[j])[m]
    && g.key(r[i + 1]) !in Keys(g, r[..i + 1])
    && (forall m' | 0 <= m' < m :: g.key(g.succ(r[j])[m']) in Keys(g, r[..i + 1]))
    && (forall j' | j < j' <= i :: Settled(g, r[j'], r[..i + 1]))
  }

  ghost predicate Next<S(!new), K>(g: Graph<S, K>, r: seq<S>, i: nat)
    requires i + 1 < |r|
  {
    exists j, m :: NextFrom(g, r, i, j, m)
  }

  lemma NextGrow<S(!new), K>(g: Graph<S, K>, r: seq<S>, more: seq<S>, i: nat)
    requires i + 1 < |r| && r <= more && Next(g, r, i)
    ensures Next(g, more, i)
  {
    var j, m :| NextFrom(g, r, i, j, m);
    assert r[..i + 1] == more[..i + 1];
    assert NextFrom(g, more, i, j, m);
  }

  /** The order starts at the root, continues depth-first, and leaves nothing unmet. */
  ghost predicate IsDepthFirst<S(!new), K>(g: Graph<S, K>, root: S, order: seq<S>) {
    && |order| > 0 && order[0] == root
    && (forall i | 0 <= i < |order| - 1 :: Next(g, order, i))
    && (forall i | 0 <= i < |order| :: Settled(g, order[i], order))
  }

  lemma {:induction false} VisitSteps<S(!new), K>(g: Graph<S, K>, s: S, order: seq<S>) returns (r: seq<S>)
    requires g.Valid() && g.key(s) !in Keys(g, order)
    ensures r == Visit(g, s, order) && |order| < |r| && r[|order|] == s
    ensures forall i | |order| <= i < |r| - 1 :: Next(g, r, i)
    ensures forall i | |order| <= i < |r| :: Settled(g, r[i], r)
    decreases g.universe - Keys(g, order), 0
  {
    KeysAppend(g, order, [s]);
    assert g.key([s][0]) in Keys(g, [s]);
    if g.key(s) in g.universe {
      r := VisitAllSteps(g, g.succ(s), order + [s], |order|, 0);
    } else {
      r := order + [s];
    }
  }

  lemma {:induction false} VisitAllSteps<S(!new), K>(
    g: Graph<S, K>, todo: seq<S>, order: seq<S>, parent: nat, m: nat) returns (r: seq<S>)
    requires g.Valid() && parent < |order| && m <= |g.succ(order[parent])|
    requires todo == g.succ(order[parent])[m..]
    requires forall m' | 0 <= m' < m :: g.key(g.succ(order[parent])[m']) in Keys(g, order)
    requires forall i | parent < i < |order| :: Settled(g, order[i], order)
    ensures r == VisitAll(g, todo, order)
    ensures forall i | |order| - 1 <= i < |r| - 1 :: Next(g, r, i)
    ensures forall i | parent <= i < |r| :: Settled(g, r[i], r)
    decreases g.universe - Keys(g, order), |todo|
  {
    if todo == [] {
      r := order;
    } else {
      var head := todo[0];
      var next := Visit(g, head, order);
      KeysGrow(g, order, next);
      forall i | parent < i < |order|
        ensures Settled(g, next[i], next)
      {
        SettledGrow(g, order[i], order, next);
      }
      if g.key(head) !in Keys(g, order) {
        next := VisitSteps(g, head, order);
        assert next[..|order|] == order;
        assert NextFrom(g, next, |order| - 1, parent, m);
      }
      r := VisitAllSteps(g, todo[1..], next, parent, m + 1);
      forall i | |order| - 1 <= i < |next| - 1
        ensures Next(g, r, i)
      {
        NextGrow(g, next, r, i);
      }
    }
  }

  lemma VisitIsDepthFirst<S(!new), K>(g: Graph<S, K>, root: S)
    requires g.Valid()
    ensures IsDepthFirst(g, root, Visit(g, root, []))
    ensures DistinctKeys(g, Visit(g, root, []))
    ensures forall i | 0 <= i < |Visit(g, root, [])| :: Reaches(g, root, Visit(g, root, [])[i])
  {
    var r := VisitSteps(g, root, []);
    VisitDistinct(g, root, []);
    r := VisitSound(g, root, []);
  }

  // ----- when the search is complete -----

  /** Every successor of `s` has a namesake among the successors of `t`. */
  ghost predicate Covers<S(!new), K>(g: Graph<S, K>, t: S, s: S) {
    forall u | u in g.succ(s) :: exists v :: v in g.succ(t) && g.key(u) == g.key(v)
  }

  /** Reachable states with the same key lead to the same keys, so that dropping one loses nothing. */
  ghost predicate KeyDecides<S(!new), K>(g: Graph<S, K>, root: S) {
    forall s, t {:trigger Covers(g, t, s)} | Reaches(g, root, s) && Reaches(g, root, t) && g.key(s) == g.key(t) ::
      Covers(g, t, s)
  }

  lemma CoveredIsMet<S(!new), K>(g: Graph<S, K>, order: seq<S>, t: S, s: S, u: S)
    requires Covers(g, t, s) && Settled(g, t, order) && u in g.succ(s)
    ensures g.key(u) in Keys(g, order)
  {
    var v :| v in g.succ(t) && g.key(u) == g.key(v);
    SettledMet(g, t, order, v);
  }

  lemma VisitComplete<S(!new), K>(g: Graph<S, K>, root: S, t: S)
    requires g.Valid() && KeyDecides(g, root) && Reaches(g, root, t)
    ensures g.key(t) in Keys(g, Visit(g, root, []))
  {
    VisitIsDepthFirst(g, root);
    var steps: nat :| ReachesIn(g, root, t, steps);
    ReachedIsMet(g, root, Visit(g, root, []), t, steps);
  }

  lemma {:induction false} ReachedIsMet<S(!new), K>(g: Graph<S, K>, root: S, order: seq<S>, t: S, steps: nat)
    requires KeyDecides(g, root) && IsDepthFirst(g, root, order)
    requires forall i | 0 <= i < |order| :: Reaches(g, root, order[i])
    requires ReachesIn(g, root, t, steps)
    ensures g.key(t) in Keys(g, order)
  {
    if steps == 0 {
      assert g.key(order[0]) in Keys(g, order);
    } else {
      var s :| ReachesIn(g, root, s, steps - 1) && t in g.succ(s);
      ReachedIsMet(g, root, order, s, steps - 1);
      var i :| 0 <= i < |order| && g.key(order[i]) == g.key(s);
      assert Reaches(g, root, s);
      assert Covers(g, order[i], s);
      CoveredIsMet(g, order, order[i], s, t);
    }
  }
}
