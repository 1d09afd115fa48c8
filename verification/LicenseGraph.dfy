/** The dependency walk of scripts/license_ip_evidence.py. */
module LicenseGraph {
  import opened Wrappers
  import opened Packaging
  import opened Search

  /** Installed distributions by canonical name; None stands for a requirement text that does not parse. */
  type Index = map<string, seq<Option<Requirement>>>

  datatype Root = Root(name: string, extras: seq<string>, group: string)

  /** A package together with the extras it is visited under. */
  datatype Package = Package(name: string, extras: seq<string>)

  predicate Applies(req: Requirement, extras: seq<string>, env: Environment) {
    match req.marker
    case None => true
    case Some(marker) =>
      if extras == [] then env(marker, "")
      else exists i | 0 <= i < |extras| :: env(marker, extras[i])
  }

  /** The requirements that apply under `extras`, as packages to visit, in order. */
  function Targets(reqs: seq<Option<Requirement>>, extras: seq<string>, env: Environment): seq<Package> {
    if reqs == [] then []
    else
      var rest := Targets(reqs[1..], extras, env);
      if reqs[0].Some? && Applies(reqs[0].value, extras, env)
      then [Package(Canonical(reqs[0].value.name), reqs[0].value.extras)] + rest
      else rest
  }

  function TargetsOf(index: Index, env: Environment, p: Package): seq<Package> {
    if p.name in index then Targets(index[p.name], p.extras, env) else []
  }

  ghost function DependencyGraph(index: Index, env: Environment): (g: Graph<Package, string>)
    ensures g.Valid()
  {
    Graph((p: Package) => TargetsOf(index, env, p), (p: Package) => p.name, index.Keys)
  }

  /** The walk from a root: packages in the order, and under the extras, of their first visit. */
  ghost function FirstVisits(index: Index, env: Environment, root: Root): seq<Package> {
    Visit(DependencyGraph(index, env), Package(Canonical(root.name), root.extras), [])
  }

  ghost function Visited(index: Index, env: Environment, root: Root): set<string> {
    Keys(DependencyGraph(index, env), FirstVisits(index, env, root))
  }

  /** `p` can be reached from the root through applicable requirements. */
  ghost predicate Reachable(index: Index, env: Environment, root: Root, p: Package) {
    Reaches(DependencyGraph(index, env), Package(Canonical(root.name), root.extras), p)
  }

  /** `group` is added to the groups of every package in `names`. */
  ghost function Grant(m: map<string, set<string>>, names: set<string>, group: string): map<string, set<string>> {
    map n | n in m.Keys + names ::
      (if n in m then m[n] else {}) + (if n in names then {group} else {})
  }

  lemma GrantNone(m: map<string, set<string>>, group: string)
    ensures Grant(m, {}, group) == m
  {
    forall n | n in m
      ensures Grant(m, {}, group)[n] == m[n]
    {
      assert m[n] + {} == m[n];
    }
  }

  lemma GrantOne(m: map<string, set<string>>, name: string, group: string)
    ensures Grant(m, {name}, group) == m[name := (if name in m then m[name] else {}) + {group}]
  {
    var r := Grant(m, {name}, group);
    forall n | n in m && n != name
      ensures r[n] == m[n]
    {
      assert m[n] + {} == m[n];
    }
  }

  lemma GrantTwice(m: map<string, set<string>>, some: set<string>, more: set<string>, group: string)
    ensures Grant(Grant(m, some, group), more, group) == Grant(m, some + more, group)
  {
    var r, r' := Grant(Grant(m, some, group), more, group), Grant(m, some + more, group);
    forall n
      ensures n in r <==> n in r'
      ensures n in r ==> r[n] == r'[n]
    {
      GrantTwiceAt(m, some, more, group, n);
    }
  }

  lemma GrantTwiceAt(m: map<string, set<string>>, some: set<string>, more: set<string>, group: string, n: string)
    ensures var r, r' := Grant(Grant(m, some, group), more, group), Grant(m, some + more, group);
            (n in r <==> n in r') && (n in r ==> r[n] == r'[n])
  {
    var r, r' := Grant(Grant(m, some, group), more, group), Grant(m, some + more, group);
    hide Grant;
    GrantedTo(m, some, group, n, group);
    GrantedTo(Grant(m, some, group), more, group, n, group);
    GrantedTo(m, some + more, group, n, group);
    if n in r {
      forall other
        ensures other in r[n] <==> other in r'[n]
      {
        GrantedTo(m, some, group, n, other);
        GrantedTo(Grant(m, some, group), more, group, n, other);
        GrantedTo(m, some + more, group, n, other);
      }
    }
  }

  class Walker {
    const index: Index
    const env: Environment
    var membership: map<string, set<string>>
    var visited: set<string>
    ghost var order: seq<Package>

    constructor (index: Index, env: Environment, membership: map<string, set<string>>)
      ensures this.index == index && this.env == env
      ensures this.membership == membership && visited == {} && order == []
    {
      this.index, this.env := index, env;
      this.membership, visited, order := membership, {}, [];
    }

    ghost predicate Valid()
      reads this
    {
      visited == Keys(DependencyGraph(index, env), order)
    }

    method Walk(packageName: string, group: string, extras: seq<string>)
      requires Valid()
      modifies this
      ensures Valid()
      ensures order == Visit(DependencyGraph(index, env), Package(Canonical(packageName), extras), old(order))
      ensures membership == Grant(old(membership), visited - old(visited), group)
      decreases index.Keys - visited
    {
      hide Grant, Canonical, Applies, Visit, VisitAll;
      ghost var g := DependencyGraph(index, env);
      var name := Canonical(packageName);
      ghost var here := Package(name, extras);
      assert g.key(here) == name;
      VisitUnfolds(g, here, order);
      if name in visited {
        assert visited - old(visited) == {};
        GrantNone(membership, group);
        return;
      }
      KeysAppend(g, order, [here]);
      assert Keys(g, [here]) == {name} by {
        assert g.key([here][0]) == name;
      }
      visited := visited + {name};
      order := order + [here];
      membership := membership[name := (if name in membership then membership[name] else {}) + {group}];
      GrantOne(old(membership), name, group);
      assert visited - old(visited) == {name};
      if name !in index {
        return;
      }
      var reqs := index[name];
      ghost var start := order;
      var i := 0;
      while i < |reqs|
        invariant 0 <= i <= |reqs|
        invariant Valid() && old(visited) + {name} <= visited
        invariant VisitAll(g, Targets(reqs[i..], extras, env), order)
               == VisitAll(g, Targets(reqs, extras, env), start)
        invariant membership == Grant(old(membership), visited - old(visited), group)
      {
        assert reqs[i..][1..] == reqs[i + 1..];
        if reqs[i].Some? && Applies(reqs[i].value, extras, env) {
          ghost var before := visited;
          ghost var todo := Targets(reqs[i..], extras, env);
          ghost var next := Package(Canonical(reqs[i].value.name), reqs[i].value.extras);
          assert todo[0] == next && todo[1..] == Targets(reqs[i + 1..], extras, env);
          VisitAllUnfolds(g, todo, order);
          KeysGrow(g, order, Visit(g, next, order));
          Walk(reqs[i].value.name, group, reqs[i].value.extras);
          assert (before - old(visited)) + (visited - before) == visited - old(visited);
          GrantTwice(old(membership), before - old(visited), visited - before, group);
        }
        i := i + 1;
      }
      assert reqs[|reqs|..] == [];
      VisitAllUnfolds(g, [], order);
    }
  }

  ghost predicate Marked(index: Index, env: Environment, roots: seq<Root>, name: string) {
    exists r :: r in roots && name in Visited(index, env, r)
  }

  ghost predicate MarkedFor(index: Index, env: Environment, roots: seq<Root>, name: string, group: string) {
    exists r :: r in roots && r.group == group && name in Visited(index, env, r)
  }

  /** `m` records, for each package, exactly the groups of the roots whose walks visit it. */
  ghost predicate IsMembership(index: Index, env: Environment, roots: seq<Root>, m: map<string, set<string>>) {
    && (forall n :: n in m <==> Marked(index, env, roots, n))
    && (forall n, group | n in m :: group in m[n] <==> MarkedFor(index, env, roots, n, group))
  }

  /** One root, walked with an empty visited set. */
  method WalkRoot(root: Root, index: Index, env: Environment, membership: map<string, set<string>>)
    returns (r: map<string, set<string>>)
    ensures r == Grant(membership, Visited(index, env, root), root.group)
  {
    var walker := new Walker(index, env, membership);
    walker.Walk(root.name, root.group, root.extras);
    assert walker.visited - {} == walker.visited;
    r := walker.membership;
  }

  method DependencyGraphMembership(roots: seq<Root>, index: Index, env: Environment)
    returns (membership: map<string, set<string>>)
    ensures IsMembership(index, env, roots, membership)
  {
    hide *;
    membership := map[];
    NoRoots(index, env);
    var i := 0;
    assert roots[..0] == [];
    while i < |roots|
      invariant 0 <= i <= |roots|
      invariant IsMembership(index, env, roots[..i], membership)
    {
      GrantExtends(index, env, roots[..i], roots[i], membership);
      membership := WalkRoot(roots[i], index, env, membership);
      assert roots[..i] + [roots[i]] == roots[..i + 1];
      i := i + 1;
    }
    assert roots[..|roots|] == roots;
  }

  lemma NoRoots(index: Index, env: Environment)
    ensures IsMembership(index, env, [], map[])
  {
  }

  lemma GrantExtends(index: Index, env: Environment, roots: seq<Root>, root: Root, m: map<string, set<string>>)
    requires IsMembership(index, env, roots, m)
    ensures IsMembership(index, env, roots + [root], Grant(m, Visited(index, env, root), root.group))
  {
    hide Visited;
    var names := Visited(index, env, root);
    var m' := Grant(m, names, root.group);
    var all := roots + [root];
    forall n
      ensures n in m' <==> Marked(index, env, all, n)
      ensures n in m' ==> forall group :: group in m'[n] <==> MarkedFor(index, env, all, n, group)
    {
      MarkedAppend(index, env, roots, root, n);
      if n in m' {
        forall group
          ensures group in m'[n] <==> MarkedFor(index, env, all, n, group)
        {
          MarkedForAppend(index, env, roots, root, n, group);
          GrantedTo(m, names, root.group, n, group);
          assert n in m || !MarkedFor(index, env, roots, n, group) by {
            assert MarkedFor(index, env, roots, n, group) ==> Marked(index, env, roots, n);
          }
        }
      }
    }
  }

  lemma GrantedTo(m: map<string, set<string>>, names: set<string>, group: string, n: string, other: string)
    ensures n in Grant(m, names, group) <==> n in m || n in names
    ensures n in Grant(m, names, group) ==>
              (other in Grant(m, names, group)[n] <==> (n in m && other in m[n]) || (n in names && other == group))
  {
  }

  lemma MarkedAppend(index: Index, env: Environment, roots: seq<Root>, root: Root, n: string)
    ensures Marked(index, env, roots + [root], n) <==> Marked(index, env, roots, n) || n in Visited(index, env, root)
  {
    hide Visited;
    assert forall r :: r in roots + [root] <==> r in roots || r == root;
  }

  lemma MarkedForAppend(index: Index, env: Environment, roots: seq<Root>, root: Root, n: string, group: string)
    ensures MarkedFor(index, env, roots + [root], n, group)
       <==> MarkedFor(index, env, roots, n, group) || (root.group == group && n in Visited(index, env, root))
  {
    hide Visited;
    assert forall r :: r in roots + [root] <==> r in roots || r == root;
  }

  // ----- what the walk guarantees -----

  /** Root order (and repetition) does not matter. */
  lemma RootOrderIrrelevant(index: Index, env: Environment, roots: seq<Root>, others: seq<Root>,
                            m: map<string, set<string>>, m': map<string, set<string>>)
    requires forall r :: r in roots <==> r in others
    requires IsMembership(index, env, roots, m) && IsMembership(index, env, others, m')
    ensures m == m'
  {
    hide Visited;
    forall n
      ensures Marked(index, env, roots, n) == Marked(index, env, others, n)
    {
    }
    forall n, group
      ensures MarkedFor(index, env, roots, n, group) == MarkedFor(index, env, others, n, group)
    {
    }
    forall n | n in m
      ensures m[n] == m'[n]
    {
      assert forall group :: group in m[n] <==> group in m'[n];
    }
  }

  /**
   Everything the walk marks is reachable; each package is met once; the targets that apply under the
   extras of a package's first visit are visited too; and packages are met in depth-first preorder.
   */
  lemma WalkSoundAndClosed(index: Index, env: Environment, root: Root)
    ensures var first := FirstVisits(index, env, root);
            && (forall i | 0 <= i < |first| :: Reachable(index, env, root, first[i]))
            && (forall i, j | 0 <= i < j < |first| :: first[i].name != first[j].name)
            && (forall i, t | 0 <= i < |first| && t in TargetsOf(index, env, first[i]) ::
                  t.name in Visited(index, env, root))
            && IsDepthFirst(DependencyGraph(index, env), Package(Canonical(root.name), root.extras), first)
  {
    var g := DependencyGraph(index, env);
    var first := FirstVisits(index, env, root);
    VisitIsDepthFirst(g, Package(Canonical(root.name), root.extras));
    forall i, j | 0 <= i < j < |first|
      ensures first[i].name != first[j].name
    {
      assert g.key(first[i]) != g.key(first[j]);
    }
    forall i, t | 0 <= i < |first| && t in TargetsOf(index, env, first[i])
      ensures t.name in Visited(index, env, root)
    {
      SettledMet(g, first[i], first, t);
    }
  }

  // ----- which requirements lead on -----

  /** The requirement asks for `t`, without a marker or with one that holds for the extras (or for "", if there are none). */
  predicate Selects(requirement: Option<Requirement>, extras: seq<string>, env: Environment, t: Package) {
    && requirement.Some?
    && t == Package(Canonical(requirement.value.name), requirement.value.extras)
    && (|| requirement.value.marker == None
        || (extras == [] && env(requirement.value.marker.value, ""))
        || (exists extra :: extra in extras && env(requirement.value.marker.value, extra)))
  }

  lemma {:induction false} TargetSelected(reqs: seq<Option<Requirement>>, extras: seq<string>, env: Environment, t: Package)
    ensures t in Targets(reqs, extras, env) <==> exists i | 0 <= i < |reqs| :: Selects(reqs[i], extras, env, t)
  {
    hide Canonical;
    if reqs == [] {
      assert Targets(reqs, extras, env) == [];
    } else {
      TargetSelected(reqs[1..], extras, env, t);
      AppliesExact(reqs[0], extras, env, t);
      hide Applies, Selects;
      assert forall i | 1 <= i < |reqs| :: reqs[i] == reqs[1..][i - 1];
      assert (exists i | 0 <= i < |reqs| :: Selects(reqs[i], extras, env, t))
          == (Selects(reqs[0], extras, env, t) || exists i | 0 <= i < |reqs[1..]| :: Selects(reqs[1..][i], extras, env, t));
    }
  }

  lemma AppliesExact(requirement: Option<Requirement>, extras: seq<string>, env: Environment, t: Package)
    ensures Selects(requirement, extras, env, t)
       <==> && requirement.Some? && t == Package(Canonical(requirement.value.name), requirement.value.extras)
            && Applies(requirement.value, extras, env)
  {
    hide Canonical;
    assert forall extra :: extra in extras <==> exists i | 0 <= i < |extras| :: extras[i] == extra;
  }

  /** A package leads to exactly what the requirements of its index entry select. */
  lemma TargetExact(index: Index, env: Environment, p: Package, t: Package)
    ensures t in TargetsOf(index, env, p)
       <==> p.name in index && exists i | 0 <= i < |index[p.name]| :: Selects(index[p.name][i], p.extras, env, t)
  {
    hide Selects;
    if p.name in index {
      TargetSelected(index[p.name], p.extras, env, t);
    }
  }

  /**
   What a marked package requires without a marker, or with one that holds whatever the extra is, is marked as well,
   under whichever extras the package was met first.
   */
  lemma UnconditionalMarked(index: Index, env: Environment, root: Root, name: string, i: nat)
    requires name in Visited(index, env, root) && name in index && i < |index[name]| && index[name][i].Some?
    requires var marker := index[name][i].value.marker; marker == None || forall extra :: env(marker.value, extra)
    ensures Canonical(index[name][i].value.name) in Visited(index, env, root)
  {
    hide Canonical;
    var g, first := DependencyGraph(index, env), FirstVisits(index, env, root);
    var k :| 0 <= k < |first| && g.key(first[k]) == name;
    var p, t := first[k], Package(Canonical(index[name][i].value.name), index[name][i].value.extras);
    assert Selects(index[name][i], p.extras, env, t) by {
      if p.extras != [] {
        assert p.extras[0] in p.extras;
      }
    }
    TargetExact(index, env, p, t);
    WalkSoundAndClosed(index, env, root);
  }

  // ----- when the walk is complete -----

  /** Reachable variants of one package, under different extras, lead to packages of the same names. */
  ghost predicate VariantsAgree(index: Index, env: Environment, root: Root) {
    KeyDecides(DependencyGraph(index, env), Package(Canonical(root.name), root.extras))
  }

  /** When reachable variants agree, a name is marked exactly when it is reachable. */
  lemma VisitedExact(index: Index, env: Environment, root: Root, name: string)
    requires VariantsAgree(index, env, root)
    ensures name in Visited(index, env, root) <==> exists p :: Reachable(index, env, root, p) && p.name == name
  {
    var g := DependencyGraph(index, env);
    var start := Package(Canonical(root.name), root.extras);
    WalkSoundAndClosed(index, env, root);
    if name in Visited(index, env, root) {
      var first := FirstVisits(index, env, root);
      var i :| 0 <= i < |first| && g.key(first[i]) == name;
      assert Reachable(index, env, root, first[i]);
    }
    if p :| Reachable(index, env, root, p) && p.name == name {
      VisitComplete(g, start, p);
    }
  }

  /** The index or the roots ask for the package under these extras. */
  predicate Mentioned(index: Index, roots: seq<Root>, p: Package) {
    || (exists i | 0 <= i < |roots| :: p == Package(Canonical(roots[i].name), roots[i].extras))
    || (exists n, i | n in index && 0 <= i < |index[n]| :: MentionedBy(index[n][i], p))
  }

  predicate MentionedBy(requirement: Option<Requirement>, p: Package) {
    requirement.Some? && p == Package(Canonical(requirement.value.name), requirement.value.extras)
  }

  function TargetNames(index: Index, env: Environment, p: Package): set<string> {
    set t | t in TargetsOf(index, env, p) :: t.name
  }

  /** A condition on the index and the roots alone: the extras mentioned for a package select the same targets. */
  ghost predicate ExtrasAgree(index: Index, env: Environment, roots: seq<Root>) {
    forall p: Package, q: Package | p.name == q.name && Mentioned(index, roots, p) && Mentioned(index, roots, q) ::
      TargetNames(index, env, p) == TargetNames(index, env, q)
  }

  lemma {:induction false} TargetsMentioned(reqs: seq<Option<Requirement>>, extras: seq<string>, env: Environment, t: Package)
    requires t in Targets(reqs, extras, env)
    ensures exists i | 0 <= i < |reqs| :: MentionedBy(reqs[i], t)
  {
    hide Canonical, Applies;
    if reqs[0].Some? && t == Package(Canonical(reqs[0].value.name), reqs[0].value.extras) {
      assert MentionedBy(reqs[0], t);
    } else {
      TargetsMentioned(reqs[1..], extras, env, t);
      var i :| 0 <= i < |reqs[1..]| && MentionedBy(reqs[1..][i], t);
      assert MentionedBy(reqs[i + 1], t);
    }
  }

  lemma {:induction false} ReachedMentioned(index: Index, env: Environment, roots: seq<Root>, root: Root, p: Package, steps: nat)
    requires root in roots
    requires ReachesIn(DependencyGraph(index, env), Package(Canonical(root.name), root.extras), p, steps)
    ensures Mentioned(index, roots, p)
  {
    hide Canonical;
    var g, start := DependencyGraph(index, env), Package(Canonical(root.name), root.extras);
    if steps == 0 {
      var i :| 0 <= i < |roots| && roots[i] == root;
    } else {
      var s :| ReachesIn(g, start, s, steps - 1) && p in g.succ(s);
      TargetsMentioned(index[s.name], s.extras, env, p);
      var i :| 0 <= i < |index[s.name]| && MentionedBy(index[s.name][i], p);
    }
  }

  /** The condition on the index and the roots is enough for the walk from each root. */
  lemma MentionedVariantsAgree(index: Index, env: Environment, roots: seq<Root>, root: Root)
    requires root in roots && ExtrasAgree(index, env, roots)
    ensures VariantsAgree(index, env, root)
  {
    hide Mentioned, TargetsOf;
    var g, start := DependencyGraph(index, env), Package(Canonical(root.name), root.extras);
    forall s, t | Reaches(g, start, s) && Reaches(g, start, t) && g.key(s) == g.key(t)
      ensures Covers(g, t, s)
    {
      var m: nat :| ReachesIn(g, start, s, m);
      ReachedMentioned(index, env, roots, root, s, m);
      var n: nat :| ReachesIn(g, start, t, n);
      ReachedMentioned(index, env, roots, root, t, n);
      forall u | u in g.succ(s)
        ensures exists v :: v in g.succ(t) && g.key(u) == g.key(v)
      {
        assert u.name in TargetNames(index, env, t);
      }
    }
  }

  /** No marker in the index distinguishes between extras. */
  ghost predicate ExtrasIrrelevant(index: Index, env: Environment) {
    forall n, i, x, y | n in index && 0 <= i < |index[n]| && index[n][i].Some? ::
      Applies(index[n][i].value, x, env) == Applies(index[n][i].value, y, env)
  }

  lemma {:induction false} TargetsAgree(reqs: seq<Option<Requirement>>, x: seq<string>, y: seq<string>, env: Environment)
    requires forall i | 0 <= i < |reqs| && reqs[i].Some? ::
               Applies(reqs[i].value, x, env) == Applies(reqs[i].value, y, env)
    ensures Targets(reqs, x, env) == Targets(reqs, y, env)
  {
    if reqs == [] {
      assert Targets(reqs, x, env) == [];
    } else {
      forall i | 0 <= i < |reqs[1..]| && reqs[1..][i].Some?
        ensures Applies(reqs[1..][i].value, x, env) == Applies(reqs[1..][i].value, y, env)
      {
        assert reqs[1..][i] == reqs[i + 1];
      }
      TargetsAgree(reqs[1..], x, y, env);
    }
  }

  /** It holds in particular when no marker looks at extras at all. */
  lemma IrrelevantExtrasAgree(index: Index, env: Environment, roots: seq<Root>)
    requires ExtrasIrrelevant(index, env)
    ensures ExtrasAgree(index, env, roots)
  {
    forall p: Package, q: Package | p.name == q.name && Mentioned(index, roots, p) && Mentioned(index, roots, q)
      ensures TargetNames(index, env, p) == TargetNames(index, env, q)
    {
      if p.name in index {
        TargetsAgree(index[p.name], p.extras, q.extras, env);
      }
    }
  }

  ghost predicate ReachesFromGroup(index: Index, env: Environment, roots: seq<Root>, name: string, group: string) {
    exists r, p :: r in roots && r.group == group && Reachable(index, env, r, p) && p.name == name
  }

  /** When the variants reachable from each root agree, the groups of a package are exactly those of the roots that reach it. */
  lemma MembershipExact(index: Index, env: Environment, roots: seq<Root>, m: map<string, set<string>>,
                        name: string, group: string)
    requires (forall r | r in roots :: VariantsAgree(index, env, r)) && IsMembership(index, env, roots, m)
    ensures name in m && group in m[name] <==> ReachesFromGroup(index, env, roots, name, group)
  {
    if MarkedFor(index, env, roots, name, group) {
      var r :| r in roots && r.group == group && name in Visited(index, env, r);
      VisitedExact(index, env, r, name);
      assert Marked(index, env, roots, name);
    }
    if ReachesFromGroup(index, env, roots, name, group) {
      var r, p :| r in roots && r.group == group && Reachable(index, env, r, p) && p.name == name;
      VisitedExact(index, env, r, name);
      assert Marked(index, env, roots, name);
      assert MarkedFor(index, env, roots, name, group);
    }
  }

  /**
   In general a package met again under other extras is dropped.  The walk marks everything reachable
   exactly when each dropped visit had only targets that were marked anyway.
   */
  lemma WalkCompleteIff(index: Index, env: Environment, root: Root)
    ensures (forall p | Reachable(index, env, root, p) :: p.name in Visited(index, env, root))
       <==> (forall p, t | && Reachable(index, env, root, p)
                           && p !in FirstVisits(index, env, root)
                           && t in TargetsOf(index, env, p) :: t.name in Visited(index, env, root))
  {
    var g := DependencyGraph(index, env);
    var start := Package(Canonical(root.name), root.extras);
    var first := FirstVisits(index, env, root);
    WalkSoundAndClosed(index, env, root);
    if forall p | Reachable(index, env, root, p) :: p.name in Visited(index, env, root) {
      forall p, t | Reachable(index, env, root, p) && p !in first && t in TargetsOf(index, env, p)
        ensures t.name in Visited(index, env, root)
      {
        ReachesThen(g, start, p, t);
        assert Reachable(index, env, root, t);
      }
    }
    if forall p, t | Reachable(index, env, root, p) && p !in first && t in TargetsOf(index, env, p) ::
         t.name in Visited(index, env, root) {
      forall p | Reachable(index, env, root, p)
        ensures p.name in Visited(index, env, root)
      {
        var steps: nat :| ReachesIn(g, start, p, steps);
        if steps == 0 {
          assert first[0] == start && g.key(first[0]) == p.name;
        } else {
          var s :| ReachesIn(g, start, s, steps - 1) && p in g.succ(s);
          assert Reachable(index, env, root, s);
          assert p in TargetsOf(index, env, s);
        }
      }
    }
  }

  // ----- an index where a dropped visit matters: a -> b, a -> b[tls], b[tls] -> c -----

  const DROPPING_INDEX: Index := map[
    "a" := [Some(Requirement("b", [], None)), Some(Requirement("b", ["tls"], None))],
    "b" := [Some(Requirement("c", [], Some("extra == 'tls'")))]
  ]

  function TlsOnly(marker: string, extra: string): bool {
    extra == "tls"
  }

  lemma DroppingTargets()
    ensures TargetsOf(DROPPING_INDEX, TlsOnly, Package("a", [])) == [Package("b", []), Package("b", ["tls"])]
    ensures TargetsOf(DROPPING_INDEX, TlsOnly, Package("b", [])) == []
    ensures TargetsOf(DROPPING_INDEX, TlsOnly, Package("b", ["tls"])) == [Package("c", [])]
  {
    assert Canonical("b") == "b" && Canonical("c") == "c";
    var reqs, need := DROPPING_INDEX["a"], DROPPING_INDEX["b"];
    assert reqs[1..][1..] == [] && need[1..] == [];
    assert Targets(reqs[1..], [], TlsOnly) == [Package("b", ["tls"])];
    assert TlsOnly("extra == 'tls'", ["tls"][0]);
  }

  lemma DroppingVisits(g: Graph<Package, string>, a: Package, b: Package, bTls: Package)
    requires g == DependencyGraph(DROPPING_INDEX, TlsOnly)
    requires a == Package("a", []) && b == Package("b", []) && bTls == Package("b", ["tls"])
    ensures Visit(g, a, []) == [a, b] && Keys(g, [a, b]) == {"a", "b"}
  {
    DroppingTargets();
    assert Keys(g, [a]) == {"a"} by { assert g.key([a][0]) == "a"; }
    assert Keys(g, [b]) == {"b"} by { assert g.key([b][0]) == "b"; }
    KeysAppend(g, [a], [b]);
    assert [a] + [b] == [a, b];
    assert VisitAll(g, [], [a, b]) == [a, b];
    assert Visit(g, b, [a]) == [a, b];
    assert Visit(g, bTls, [a, b]) == [a, b];
    assert [b, bTls][1..] == [bTls] && [bTls][1..] == [];
    assert VisitAll(g, [bTls], [a, b]) == [a, b];
    assert VisitAll(g, [b, bTls], [a]) == [a, b];
    assert [] + [a] == [a];
  }

  /** `b[tls]` is dropped because `b` was met first, so its dependency `c` is reachable but never marked. */
  lemma SecondVisitDropped()
    ensures Reachable(DROPPING_INDEX, TlsOnly, Root("a", [], "runtime"), Package("c", []))
    ensures "c" !in Visited(DROPPING_INDEX, TlsOnly, Root("a", [], "runtime"))
  {
    var g := DependencyGraph(DROPPING_INDEX, TlsOnly);
    var a, b, bTls, c := Package("a", []), Package("b", []), Package("b", ["tls"]), Package("c", []);
    assert Canonical("a") == "a";
    DroppingTargets();
    ReachesSelf(g, c);
    assert c in [c] && bTls in [b, bTls];
    ReachesVia(g, bTls, c, c);
    ReachesVia(g, a, bTls, c);
    DroppingVisits(g, a, b, bTls);
  }
}
