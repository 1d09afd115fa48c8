/** Comparing a committed license inventory with a regenerated one, of scripts/license_ip_evidence.py. */
module LicenseFreshness {
  import opened Wrappers
  import opened Text
  import opened Sorting
  import opened Json
  import opened LicenseInventory
  import opened LicenseMeaning

  // ----- the parts that are compared -----

  const UNCOMPARED := {"generated_at_utc", "git_commit_sha", "image_digest", "packages", "summary", "direct_packages"}

  predicate IsDirect(v: Value) {
    v.Obj? && Get(v.m, "relationship") == Str("direct")
  }

  predicate IsTransitive(v: Value, rt: Runtime) {
    v.Obj? && Get(v.m, "relationship") == Str("transitive") && NameOf(v.m, rt) != ""
  }

  function Filtered(packages: seq<Value>, keep: Value -> bool): seq<Value> {
    if packages == [] then []
    else (if keep(packages[0]) then [packages[0]] else []) + Filtered(packages[1..], keep)
  }

  predicate NameBefore(a: Value, b: Value, rt: Runtime) {
    LexLe(if a.Obj? then NameOf(a.m, rt) else "", if b.Obj? then NameOf(b.m, rt) else "")
  }

  /** `_normalized_inventory`: the top-level keys that are compared, and the direct packages sorted by name. */
  function Normalized(inventory: Fields, rt: Runtime): (Fields, seq<Value>) {
    (map k | k in inventory && k !in UNCOMPARED :: inventory[k],
     Sort((a, b) => NameBefore(a, b, rt), Filtered(Packages(inventory), v => IsDirect(v))))
  }

  /** The fields of a transitive package that governance looks at; its versions are kept beside them. */
  datatype Governed = Governed(groups: seq<string>, term: Value, class_: Value, id: Value, owner: Value, expires: Value)

  datatype Transitive = Transitive(version: Value, installed: Value, governed: Governed)

  function Groups(v: Value, rt: Runtime): seq<string> {
    if v.List? then Sort(LexLe, Mapped(v.items, item => rt.shown(item))) else []
  }

  function TransitiveOf(package: Fields, rt: Runtime): Transitive {
    Transitive(Get(package, "version"), Get(package, "installed_version"),
               Governed(Groups(Get(package, "dependency_groups"), rt), Get(package, "license_term"),
                        Get(package, "policy_classification"), Get(package, "exception_id"),
                        Get(package, "exception_owner"), Get(package, "exception_expires_on")))
  }

  /** `_transitive_package_freshness_map`: a later package of the same name replaces an earlier one. */
  function TransitiveMap(packages: seq<Value>, rt: Runtime): map<string, Transitive> {
    if packages == [] then map[]
    else
      var last := packages[|packages| - 1];
      var before := TransitiveMap(packages[..|packages| - 1], rt);
      if IsTransitive(last, rt) then before[NameOf(last.m, rt) := TransitiveOf(last.m, rt)] else before
  }

  method TransitivePackages(packages: seq<Value>, rt: Runtime) returns (found: map<string, Transitive>)
    ensures found == TransitiveMap(packages, rt)
  {
    found := map[];
    for i := 0 to |packages|
      invariant found == TransitiveMap(packages[..i], rt)
    {
      assert packages[..i + 1][..i] == packages[..i];
      if !IsTransitive(packages[i], rt) {
        continue;
      }
      found := found[NameOf(packages[i].m, rt) := TransitiveOf(packages[i].m, rt)];
    }
    assert packages[..|packages|] == packages;
  }

  /** What governance knows of the transitive packages, whatever their versions. */
  function Governance(inventory: Fields, rt: Runtime): map<string, Governed> {
    var found := TransitiveMap(Packages(inventory), rt);
    map name | name in found :: found[name].governed
  }

  /** A transitive package of that name. */
  predicate IsNamed(v: Value, name: string, rt: Runtime) {
    IsTransitive(v, rt) && NameOf(v.m, rt) == name
  }

  lemma TransitiveMapStep(packages: seq<Value>, name: string, rt: Runtime)
    requires packages != []
    ensures var init, last := packages[..|packages| - 1], packages[|packages| - 1];
            && (name in TransitiveMap(packages, rt) <==> IsNamed(last, name, rt) || name in TransitiveMap(init, rt))
            && (IsNamed(last, name, rt) ==> TransitiveMap(packages, rt)[name] == TransitiveOf(last.m, rt))
            && (!IsNamed(last, name, rt) && name in TransitiveMap(init, rt) ==>
                  TransitiveMap(packages, rt)[name] == TransitiveMap(init, rt)[name])
  {
    hide TransitiveOf, NameOf;
  }

  /** The last transitive package of a name is the one that counts. */
  lemma {:induction false} TransitiveMapExact(packages: seq<Value>, name: string, rt: Runtime)
    ensures name in TransitiveMap(packages, rt) <==> exists i | 0 <= i < |packages| :: IsNamed(packages[i], name, rt)
    ensures forall i | 0 <= i < |packages| && IsNamed(packages[i], name, rt)
                       && (forall j | i < j < |packages| :: !IsNamed(packages[j], name, rt)) ::
              name in TransitiveMap(packages, rt) && TransitiveMap(packages, rt)[name] == TransitiveOf(packages[i].m, rt)
  {
    if packages == [] {
    } else {
      TransitiveMapStep(packages, name, rt);
      hide *;
      var n := |packages| - 1;
      var init := packages[..n];
      TransitiveMapExact(init, name, rt);
      assert forall i | 0 <= i < n :: init[i] == packages[i];
      forall i | 0 <= i < |packages| && IsNamed(packages[i], name, rt) && (forall j | i < j < |packages| :: !IsNamed(packages[j], name, rt))
        ensures name in TransitiveMap(packages, rt) && TransitiveMap(packages, rt)[name] == TransitiveOf(packages[i].m, rt)
      {
        if i < n {
          assert !IsNamed(packages[n], name, rt);
          assert IsNamed(init[i], name, rt);
        }
      }
    }
  }

  // ----- the comparison -----

  datatype Staleness =
    | Stale
    | MissingTransitive(names: seq<string>)
    | GovernanceDrift(name: string)

  /** `_missing_expected_transitive_package_names` */
  method MissingTransitivePackages(current: map<string, Transitive>, expected: map<string, Transitive>) returns (names: seq<string>)
    ensures Enumerates(names, expected.Keys - current.Keys)
  {
    names := SortedList(expected.Keys - current.Keys);
  }

  predicate Drifts(name: string, current: map<string, Transitive>, expected: map<string, Transitive>) {
    name in current && name in expected && current[name].governed != expected[name].governed
  }

  /** `_transitive_governance_drift` */
  method GovernanceDrifts(current: map<string, Transitive>, expected: map<string, Transitive>) returns (failures: seq<Staleness>)
    ensures forall f :: f in failures <==> f.GovernanceDrift? && Drifts(f.name, current, expected)
  {
    hide LexLe;
    failures := [];
    var names := SortedList(current.Keys * expected.Keys);
    for i := 0 to |names|
      invariant forall f :: f in failures <==> f.GovernanceDrift? && f.name in names[..i] && Drifts(f.name, current, expected)
    {
      assert names[..i + 1] == names[..i] + [names[i]];
      assert names[i] in current.Keys * expected.Keys;
      if current[names[i]].governed != expected[names[i]].governed {
        failures := failures + [GovernanceDrift(names[i])];
      }
    }
    assert names[..|names|] == names;
    forall name | Drifts(name, current, expected)
      ensures name in names
    {
      assert name in current.Keys * expected.Keys;
    }
  }

  /** The expected governance is part of the current one. */
  predicate Covers(current: map<string, Governed>, expected: map<string, Governed>) {
    forall name | name in expected :: name in current && current[name] == expected[name]
  }

  /** The committed inventory is as good as the regenerated one. */
  predicate Fresh(inventory: Fields, expected: Fields, rt: Runtime) {
    && Normalized(inventory, rt) == Normalized(expected, rt)
    && Covers(Governance(inventory, rt), Governance(expected, rt))
  }

  /**
   What `validate_license_inventory_against_expected` adds to validation: nothing exactly when the compared keys and
   direct packages are equal and the expected governance of transitive packages is a sub-map of the current one.
   */
  method CompareWithExpected(inventory: Fields, expected: Fields, rt: Runtime) returns (failures: seq<Staleness>)
    ensures failures == [] <==> Fresh(inventory, expected, rt)
    ensures Stale in failures <==> Normalized(inventory, rt) != Normalized(expected, rt)
    ensures forall name :: GovernanceDrift(name) in failures <==>
              name in Governance(inventory, rt) && name in Governance(expected, rt)
              && Governance(inventory, rt)[name] != Governance(expected, rt)[name]
    ensures forall names :: MissingTransitive(names) in failures <==>
              names != [] && Enumerates(names, Governance(expected, rt).Keys - Governance(inventory, rt).Keys)
  {
    hide Normalized, TransitiveMap, Enumerates;
    var current := TransitivePackages(Packages(inventory), rt);
    var regenerated := TransitivePackages(Packages(expected), rt);
    assert Governance(inventory, rt).Keys == current.Keys && Governance(expected, rt).Keys == regenerated.Keys;
    var missing := MissingTransitivePackages(current, regenerated);
    forall names | Enumerates(names, regenerated.Keys - current.Keys)
      ensures names == missing
    {
      EnumerationUnique(names, missing, regenerated.Keys - current.Keys);
    }
    EmptyEnumeration(missing, regenerated.Keys - current.Keys);
    var drifts := GovernanceDrifts(current, regenerated);
    var stale := if Normalized(inventory, rt) != Normalized(expected, rt) then [Stale] else [];
    var absent := if missing != [] then [MissingTransitive(missing)] else [];
    failures := stale + absent + drifts;
    NoDriftIff(current, regenerated, drifts);
    CoversIff(inventory, expected, rt);
  }

  lemma CoversIff(inventory: Fields, expected: Fields, rt: Runtime)
    ensures var current, regenerated := TransitiveMap(Packages(inventory), rt), TransitiveMap(Packages(expected), rt);
            Covers(Governance(inventory, rt), Governance(expected, rt)) <==>
            regenerated.Keys - current.Keys == {} && forall name :: !Drifts(name, current, regenerated)
  {
    hide TransitiveMap;
    var current, regenerated := TransitiveMap(Packages(inventory), rt), TransitiveMap(Packages(expected), rt);
    if Covers(Governance(inventory, rt), Governance(expected, rt)) {
      assert forall name | name in regenerated :: name in Governance(expected, rt);
    }
    if regenerated.Keys - current.Keys == {} && forall name :: !Drifts(name, current, regenerated) {
      forall name | name in Governance(expected, rt)
        ensures name in Governance(inventory, rt) && Governance(inventory, rt)[name] == Governance(expected, rt)[name]
      {
        assert name !in regenerated.Keys - current.Keys;
        assert !Drifts(name, current, regenerated);
      }
    }
  }

  lemma NoDriftIff(current: map<string, Transitive>, expected: map<string, Transitive>, drifts: seq<Staleness>)
    requires forall f :: f in drifts <==> f.GovernanceDrift? && Drifts(f.name, current, expected)
    ensures drifts == [] <==> forall name :: !Drifts(name, current, expected)
  {
    if drifts == [] {
      forall name
        ensures !Drifts(name, current, expected)
      {
        assert GovernanceDrift(name) !in drifts;
      }
    } else {
      assert drifts[0] in drifts;
    }
  }

  lemma EmptyEnumeration(names: seq<string>, s: set<string>)
    requires Enumerates(names, s)
    ensures names == [] <==> s == {}
  {
    if names != [] {
      assert names[0] in s;
    }
  }

  lemma EnumerationUnique(a: seq<string>, b: seq<string>, s: set<string>)
    requires Enumerates(a, s) && Enumerates(b, s)
    ensures a == b
  {
    LexIsTotalPreorder();
    NoRepeatsPermute(a, b);
    forall x, y | x in a && y in a && LexLe(x, y) && LexLe(y, x)
      ensures x == y
    {
      LexAntisymmetric(x, y);
    }
    SortedUnique(LexLe, a, b);
  }

  /** Freshness is a preorder: what was just regenerated is fresh, and being fresh passes on. */
  lemma FreshIsPreorder(a: Fields, b: Fields, c: Fields, rt: Runtime)
    ensures Fresh(a, a, rt)
    ensures Fresh(a, b, rt) && Fresh(b, c, rt) ==> Fresh(a, c, rt)
    ensures Fresh(a, b, rt) && Fresh(b, a, rt) ==> Governance(a, rt) == Governance(b, rt)
  {
  }

  /** A version bump of transitive packages alone keeps an inventory fresh. */
  lemma VersionsDoNotMatter(a: Fields, b: Fields, rt: Runtime)
    requires forall k | k !in UNCOMPARED :: Get(a, k) == Get(b, k) && (k in a <==> k in b)
    requires |Packages(a)| == |Packages(b)|
    requires forall i | 0 <= i < |Packages(a)| ::
               var p, q := Packages(a)[i], Packages(b)[i];
               p == q || (IsTransitive(p, rt) && IsTransitive(q, rt) && NameOf(p.m, rt) == NameOf(q.m, rt)
                          && TransitiveOf(p.m, rt).governed == TransitiveOf(q.m, rt).governed)
    ensures Fresh(a, b, rt) && Fresh(b, a, rt)
  {
    hide TransitiveOf;
    SameDirect(Packages(a), Packages(b), rt);
    SameGoverned(Packages(a), Packages(b), rt);
    assert Normalized(a, rt).0 == Normalized(b, rt).0;
  }

  lemma {:induction false} SameDirect(p: seq<Value>, q: seq<Value>, rt: Runtime)
    requires |p| == |q| && forall i | 0 <= i < |p| :: p[i] == q[i] || (IsTransitive(p[i], rt) && IsTransitive(q[i], rt))
    ensures Filtered(p, v => IsDirect(v)) == Filtered(q, v => IsDirect(v))
  {
    if p == [] {
    } else {
      SameDirect(p[1..], q[1..], rt);
      assert IsTransitive(p[0], rt) ==> !IsDirect(p[0]) by {
        assert "direct"[0] == 'd' && "transitive"[0] == 't';
      }
      assert IsTransitive(q[0], rt) ==> !IsDirect(q[0]) by {
        assert "direct"[0] == 'd' && "transitive"[0] == 't';
      }
    }
  }

  lemma {:induction false} SameGoverned(p: seq<Value>, q: seq<Value>, rt: Runtime)
    requires |p| == |q|
    requires forall i | 0 <= i < |p| ::
               p[i] == q[i] || (IsTransitive(p[i], rt) && IsTransitive(q[i], rt) && NameOf(p[i].m, rt) == NameOf(q[i].m, rt)
                                && TransitiveOf(p[i].m, rt).governed == TransitiveOf(q[i].m, rt).governed)
    ensures TransitiveMap(p, rt).Keys == TransitiveMap(q, rt).Keys
    ensures forall name | name in TransitiveMap(p, rt) :: TransitiveMap(p, rt)[name].governed == TransitiveMap(q, rt)[name].governed
  {
    hide TransitiveOf, NameOf;
    if p == [] {
    } else {
      SameGoverned(p[..|p| - 1], q[..|q| - 1], rt);
    }
  }

  // ----- the comparison on the packages' own keys -----

  /** A package object with this relationship. */
  predicate Related(v: Value, relationship: string) {
    v.Obj? && "relationship" in v.m && v.m["relationship"] == Str(relationship)
  }

  /** The package at `i` is the last transitive one that shows this name, which is not empty. */
  ghost predicate LastAt(packages: seq<Value>, i: nat, name: string, rt: Runtime) {
    && i < |packages| && name != "" && Related(packages[i], "transitive") && Shows(packages[i].m, "name", name, rt)
    && forall j | i < j < |packages| :: !Related(packages[j], "transitive") || !Shows(packages[j].m, "name", name, rt)
  }

  /** Two lists of groups show the same texts, each equally often; what is no list shows none. */
  predicate SameGroups(a: Value, b: Value, rt: Runtime) {
    multiset(ShownGroups(a, rt)) == multiset(ShownGroups(b, rt))
  }

  function ShownGroups(v: Value, rt: Runtime): seq<string> {
    if v.List? then seq(|v.items|, i requires 0 <= i < |v.items| => rt.shown(v.items[i])) else []
  }

  /** The keys that governance looks at agree; versions are not among them. */
  predicate SameGovernance(a: Fields, b: Fields, rt: Runtime) {
    && SameGroups(Get(a, "dependency_groups"), Get(b, "dependency_groups"), rt)
    && Get(a, "license_term") == Get(b, "license_term")
    && Get(a, "policy_classification") == Get(b, "policy_classification")
    && Get(a, "exception_id") == Get(b, "exception_id")
    && Get(a, "exception_owner") == Get(b, "exception_owner")
    && Get(a, "exception_expires_on") == Get(b, "exception_expires_on")
  }

  lemma GroupsExact(a: Value, b: Value, rt: Runtime)
    ensures Groups(a, rt) == Groups(b, rt) <==> SameGroups(a, b, rt)
  {
    var x, y := ShownGroups(a, rt), ShownGroups(b, rt);
    assert Groups(a, rt) == Sort(LexLe, x) && Groups(b, rt) == Sort(LexLe, y) by {
      GroupsAreSorted(a, rt);
      GroupsAreSorted(b, rt);
    }
    hide *;
    SameGroupsIs(a, b, rt);
    SortedTextsEqualIff(x, y);
  }

  lemma SameGroupsIs(a: Value, b: Value, rt: Runtime)
    ensures SameGroups(a, b, rt) <==> multiset(ShownGroups(a, rt)) == multiset(ShownGroups(b, rt))
  {
  }

  lemma GroupsAreSorted(v: Value, rt: Runtime)
    ensures Groups(v, rt) == Sort(LexLe, ShownGroups(v, rt))
  {
    if v.List? {
      assert Mapped(v.items, item => rt.shown(item)) == ShownGroups(v, rt);
    }
  }

  lemma SortedTextsEqualIff(x: seq<string>, y: seq<string>)
    ensures Sort(LexLe, x) == Sort(LexLe, y) <==> multiset(x) == multiset(y)
  {
    hide Sort;
    LexIsTotalPreorder();
    SortPermutes(LexLe, x);
    SortPermutes(LexLe, y);
    if multiset(x) == multiset(y) {
      SortSorted(LexLe, x);
      SortSorted(LexLe, y);
      forall a, b | LexLe(a, b) && LexLe(b, a)
        ensures a == b
      {
        LexAntisymmetric(a, b);
      }
      SortedUnique(LexLe, Sort(LexLe, x), Sort(LexLe, y));
    }
  }

  lemma GovernedExact(a: Fields, b: Fields, rt: Runtime)
    ensures TransitiveOf(a, rt).governed == TransitiveOf(b, rt).governed <==> SameGovernance(a, b, rt)
  {
    hide Groups, SameGroups;
    GroupsExact(Get(a, "dependency_groups"), Get(b, "dependency_groups"), rt);
  }

  lemma NamedExact(v: Value, name: string, rt: Runtime)
    requires name != ""
    ensures IsNamed(v, name, rt) <==> Related(v, "transitive") && Shows(v.m, "name", name, rt)
  {
    if v.Obj? {
      ShowsExact(v.m, "name", name, rt);
    }
    hide Shows, TextOf;
  }

  lemma NeverNamed(v: Value, rt: Runtime)
    ensures !IsNamed(v, "", rt)
  {
  }

  /** The packages that governance compares are the last transitive ones of each name. */
  lemma LastNamed(packages: seq<Value>, i: nat, name: string, rt: Runtime)
    requires LastAt(packages, i, name, rt)
    ensures name in TransitiveMap(packages, rt) && TransitiveMap(packages, rt)[name] == TransitiveOf(packages[i].m, rt)
    ensures TransitiveMap(packages, rt)[name].version == Get(packages[i].m, "version")
    ensures TransitiveMap(packages, rt)[name].installed == Get(packages[i].m, "installed_version")
    ensures TransitiveMap(packages, rt)[name].governed.term == Get(packages[i].m, "license_term")
    ensures TransitiveMap(packages, rt)[name].governed.class_ == Get(packages[i].m, "policy_classification")
  {
    hide TransitiveMap, Shows, IsNamed, Groups;
    forall j | i <= j < |packages|
      ensures IsNamed(packages[j], name, rt) <==> Related(packages[j], "transitive") && Shows(packages[j].m, "name", name, rt)
    {
      NamedExact(packages[j], name, rt);
    }
    TransitiveMapExact(packages, name, rt);
  }

  lemma {:induction false} FindLast(packages: seq<Value>, name: string, rt: Runtime) returns (i: nat)
    requires name in TransitiveMap(packages, rt)
    ensures LastAt(packages, i, name, rt)
    decreases |packages|
  {
    hide TransitiveOf, Shows, IsNamed;
    var n := |packages| - 1;
    TransitiveMapStep(packages, name, rt);
    NeverNamed(packages[n], rt);
    if IsNamed(packages[n], name, rt) {
      NamedExact(packages[n], name, rt);
      i := n;
    } else {
      i := FindLast(packages[..n], name, rt);
      NamedExact(packages[n], name, rt);
      assert forall j | 0 <= j < n :: packages[..n][j] == packages[j];
    }
  }

  /** The packages of an inventory: none when there is no such list. */
  predicate Has(inventory: Fields, packages: seq<Value>) {
    if "packages" in inventory && inventory["packages"].List? then packages == inventory["packages"].items else packages == []
  }

  /** Governance drifts exactly for the names whose last transitive packages differ in a key that it looks at. */
  lemma DriftExact(inventory: Fields, expected: Fields, packages: seq<Value>, others: seq<Value>, name: string, rt: Runtime)
    requires Has(inventory, packages) && Has(expected, others)
    ensures var a, b := Governance(inventory, rt), Governance(expected, rt);
            (name in a && name in b && a[name] != b[name])
            <==> exists i: nat, j: nat ::
                   LastAt(packages, i, name, rt) && LastAt(others, j, name, rt) && !SameGovernance(packages[i].m, others[j].m, rt)
  {
    hide TransitiveMap, TransitiveOf, SameGovernance, Shows;
    assert Packages(inventory) == packages && Packages(expected) == others;
    if name in TransitiveMap(packages, rt) && name in TransitiveMap(others, rt) {
      var i := FindLast(packages, name, rt);
      var j := FindLast(others, name, rt);
      LastNamed(packages, i, name, rt);
      LastNamed(others, j, name, rt);
      AtIsPackage(packages, i, name, rt);
      AtIsPackage(others, j, name, rt);
      GovernedExact(packages[i].m, others[j].m, rt);
    }
    forall i: nat, j: nat | LastAt(packages, i, name, rt) && LastAt(others, j, name, rt)
      ensures packages[i].Obj? && others[j].Obj?
      ensures var a, b := Governance(inventory, rt), Governance(expected, rt);
              name in a && name in b && (a[name] != b[name] <==> !SameGovernance(packages[i].m, others[j].m, rt))
    {
      LastNamed(packages, i, name, rt);
      LastNamed(others, j, name, rt);
      AtIsPackage(packages, i, name, rt);
      AtIsPackage(others, j, name, rt);
      GovernedExact(packages[i].m, others[j].m, rt);
    }
  }

  lemma AtIsPackage(packages: seq<Value>, i: nat, name: string, rt: Runtime)
    requires LastAt(packages, i, name, rt)
    ensures i < |packages| && packages[i].Obj?
  {
  }

  // ----- the direct packages -----

  lemma {:induction false} FilteredCount(packages: seq<Value>, v: Value)
    ensures multiset(Filtered(packages, w => IsDirect(w)))[v] == if Related(v, "direct") then multiset(packages)[v] else 0
  {
    if packages == [] {
      assert Filtered(packages, w => IsDirect(w)) == [];
    } else {
      FilteredCount(packages[1..], v);
      assert packages == [packages[0]] + packages[1..];
    }
  }

  /** What is compared of the direct packages are those packages, each as often as it is listed, in order of names. */
  lemma DirectExact(inventory: Fields, packages: seq<Value>, rt: Runtime)
    requires Has(inventory, packages)
    ensures forall v :: multiset(Normalized(inventory, rt).1)[v] == if Related(v, "direct") then multiset(packages)[v] else 0
    ensures Sorted((a, b) => NameBefore(a, b, rt), Normalized(inventory, rt).1)
  {
    var le := (a, b) => NameBefore(a, b, rt);
    var direct := Filtered(packages, w => IsDirect(w));
    SortPermutes(le, direct);
    forall v
      ensures multiset(direct)[v] == if Related(v, "direct") then multiset(packages)[v] else 0
    {
      FilteredCount(packages, v);
    }
    NamesAreOrdered(rt);
    SortSorted(le, direct);
  }

  lemma NamesAreOrdered(rt: Runtime)
    ensures TotalPreorder((a, b) => NameBefore(a, b, rt))
  {
    hide LexLe, NameOf;
    LexIsTotalPreorder();
    forall a, b
      ensures NameBefore(a, b, rt) || NameBefore(b, a, rt)
    {
      LexTotal(if a.Obj? then NameOf(a.m, rt) else "", if b.Obj? then NameOf(b.m, rt) else "");
    }
    forall a, b, c | NameBefore(a, b, rt) && NameBefore(b, c, rt)
      ensures NameBefore(a, c, rt)
    {
      LexTransitive(if a.Obj? then NameOf(a.m, rt) else "", if b.Obj? then NameOf(b.m, rt) else "",
                    if c.Obj? then NameOf(c.m, rt) else "");
    }
  }

  /** The keys that are compared at the top: all but those that change with every build, and the package lists. */
  lemma ComparedExact(inventory: Fields, expected: Fields, rt: Runtime)
    ensures Normalized(inventory, rt).0 == Normalized(expected, rt).0
       <==> forall k | k != "generated_at_utc" && k != "git_commit_sha" && k != "image_digest" && k != "packages" && k != "summary"
                       && k != "direct_packages" ::
              (k in inventory <==> k in expected) && (k in inventory ==> inventory[k] == expected[k])
  {
    hide IsDirect, Filtered, Sort;
    var a, b := Normalized(inventory, rt).0, Normalized(expected, rt).0;
    if a == b {
      forall k | k !in UNCOMPARED
        ensures (k in inventory <==> k in expected) && (k in inventory ==> inventory[k] == expected[k])
      {
        assert (k in a <==> k in inventory) && (k in b <==> k in expected);
      }
    }
  }
}
