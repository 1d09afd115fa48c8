/** Exact constraints projected from the lock, and the installed graph they govern, of scripts/dependency_constraint_evidence.py. */
module DependencyConstraints {
  import opened Wrappers
  import opened Text
  import opened Sorting
  import opened Packaging

  type Constraints = map<string, string>

  /** A package table: `name` and `version` as `str(value or "")`, `direct` when it is a boolean. */
  datatype Package = Malformed | Package(name: string, version: string, direct: Option<bool>)

  datatype Error =
    | MalformedPackage
    | NoNameOrVersion
    | NeedsBooleanDirect(name: string)
    | ConflictingVersions(name: string)
    | NoConstraints
    | AbsentFromLock(name: string)
    | NotDirect(name: string)
    | VersionMismatch(name: string)
    | InvalidRequirement
    | AbsentFromInstalled(name: string)

  predicate HasIdentity(p: Package) {
    p.Package? && Canonical(p.name) != "" && p.version != ""
  }

  /** `_package_identity` */
  function Identity(p: Package): Result<(string, string), Error> {
    if p.Malformed? then Err(MalformedPackage)
    else if Canonical(p.name) == "" || p.version == "" then Err(NoNameOrVersion)
    else Ok((Canonical(p.name), p.version))
  }

  predicate Names(p: Package, name: string) {
    HasIdentity(p) && Canonical(p.name) == name
  }

  // ----- reading the lock -----

  predicate SoundPackage(p: Package) {
    HasIdentity(p) && p.direct.Some?
  }

  /** Packages of one name agree on the version. */
  predicate Consistent(packages: seq<Package>) {
    forall i, j | 0 <= i < j < |packages| ::
      HasIdentity(packages[i]) && HasIdentity(packages[j]) && Canonical(packages[i].name) == Canonical(packages[j].name) ==>
        packages[i].version == packages[j].version
  }

  predicate SoundLock(packages: seq<Package>) {
    packages != [] && (forall i | 0 <= i < |packages| :: SoundPackage(packages[i])) && Consistent(packages)
  }

  /** The constraints are exactly the names of the packages with their versions. */
  ghost predicate Pins(constraints: Constraints, packages: seq<Package>) {
    && (forall name :: name in constraints <==> exists i | 0 <= i < |packages| :: Names(packages[i], name))
    && forall i | 0 <= i < |packages| && HasIdentity(packages[i]) ::
         Canonical(packages[i].name) in constraints && constraints[Canonical(packages[i].name)] == packages[i].version
  }

  ghost predicate DirectNames(direct: set<string>, packages: seq<Package>) {
    forall name :: name in direct <==> exists i | 0 <= i < |packages| :: Names(packages[i], name) && packages[i].direct == Some(true)
  }

  /** What each error says of the package at `i`. */
  predicate ErrorAt(e: Error, packages: seq<Package>, i: nat)
    requires i < |packages|
  {
    match e
    case MalformedPackage => packages[i].Malformed?
    case NoNameOrVersion => packages[i].Package? && (Canonical(packages[i].name) == "" || packages[i].version == "")
    case NeedsBooleanDirect(name) => Names(packages[i], name) && packages[i].direct == None
    case ConflictingVersions(name) =>
      && Names(packages[i], name) && packages[i].direct.Some?
      && exists k | 0 <= k < i :: Names(packages[k], name) && packages[k].version != packages[i].version
    case _ => false
  }

  /** The error is that of the first package that is not in order; or there are no packages. */
  ghost predicate FirstError(e: Error, packages: seq<Package>) {
    || (packages == [] && e == NoConstraints)
    || exists i: nat | i < |packages| ::
         && (forall k | 0 <= k < i :: SoundPackage(packages[k])) && Consistent(packages[..i]) && ErrorAt(e, packages, i)
  }

  /** `_read_authoritative_lock` on the parsed package list. */
  method ReadLock(packages: seq<Package>) returns (outcome: Result<(Constraints, set<string>), Error>)
    ensures outcome.Ok? <==> SoundLock(packages)
    ensures outcome.Ok? ==> Pins(outcome.value.0, packages) && DirectNames(outcome.value.1, packages)
    ensures outcome.Err? ==> FirstError(outcome.error, packages)
  {
    hide Canonical, Pins, DirectNames, Consistent;
    var constraints: Constraints, direct: set<string> := map[], {};
    NothingPinned();
    for i := 0 to |packages|
      invariant forall k | 0 <= k < i :: SoundPackage(packages[k])
      invariant constraints == map[] <==> i == 0
      invariant Consistent(packages[..i]) && Pins(constraints, packages[..i]) && DirectNames(direct, packages[..i])
    {
      var p := packages[i];
      assert packages[..i + 1] == packages[..i] + [p];
      var identity := Identity(p);
      if identity.Err? {
        return Err(identity.error);
      }
      var (name, version) := identity.value;
      if p.direct.None? {
        return Err(NeedsBooleanDirect(name));
      }
      if name in constraints && constraints[name] != version {
        Conflict(constraints, packages, i, name);
        return Err(ConflictingVersions(name));
      }
      PinsOneMore(constraints, packages[..i], p, name, version);
      DirectOneMore(direct, packages[..i], p, name);
      constraints := constraints[name := version];
      if p.direct.value {
        direct := direct + {name};
      }
    }
    assert packages[..|packages|] == packages;
    if constraints == map[] {
      return Err(NoConstraints);
    }
    return Ok((constraints, direct));
  }

  lemma NothingPinned()
    ensures Pins(map[], []) && DirectNames({}, []) && Consistent([])
  {
  }

  lemma Conflict(constraints: Constraints, packages: seq<Package>, i: nat, name: string)
    requires i < |packages| && Pins(constraints, packages[..i]) && name in constraints
    requires Names(packages[i], name) && constraints[name] != packages[i].version
    ensures !Consistent(packages)
    ensures exists k | 0 <= k < i :: Names(packages[k], name) && packages[k].version != packages[i].version
  {
    var k :| 0 <= k < i && Names(packages[..i][k], name);
    assert packages[..i][k] == packages[k];
  }

  lemma PinsOneMore(constraints: Constraints, before: seq<Package>, p: Package, name: string, version: string)
    requires Pins(constraints, before) && Consistent(before)
    requires Names(p, name) && p.version == version && (name in constraints ==> constraints[name] == version)
    ensures Pins(constraints[name := version], before + [p]) && Consistent(before + [p])
  {
    hide Canonical;
    var after := before + [p];
    assert after[|before|] == p && forall i | 0 <= i < |before| :: after[i] == before[i];
    var now := constraints[name := version];
    forall x
      ensures x in now <==> exists i | 0 <= i < |after| :: Names(after[i], x)
    {
      if x in constraints {
        var i :| 0 <= i < |before| && Names(before[i], x);
        assert Names(after[i], x);
      }
      if x == name {
        assert Names(after[|before|], x);
      }
    }
  }

  lemma DirectOneMore(direct: set<string>, before: seq<Package>, p: Package, name: string)
    requires DirectNames(direct, before) && Names(p, name) && p.direct.Some?
    ensures DirectNames(if p.direct.value then direct + {name} else direct, before + [p])
  {
    hide Canonical;
    var after, now := before + [p], if p.direct.value then direct + {name} else direct;
    assert after[|before|] == p && forall i | 0 <= i < |before| :: after[i] == before[i];
    forall x
      ensures x in now <==> exists i | 0 <= i < |after| :: Names(after[i], x) && after[i].direct == Some(true)
    {
      if x in direct {
        var i :| 0 <= i < |before| && Names(before[i], x) && before[i].direct == Some(true);
        assert Names(after[i], x) && after[i].direct == Some(true);
      }
    }
  }

  // ----- writing refreshed constraints -----

  const HEADER := "# Generated at runtime from uv.lock; do not edit."

  function ConstraintLine(constraints: Constraints, name: string): string {
    name + "==" + if name in constraints then constraints[name] else ""
  }

  /** The lines below the notice are those of the names, in order. */
  ghost predicate LinesOf(lines: seq<string>, constraints: Constraints, names: seq<string>) {
    && Enumerates(names, constraints.Keys)
    && |lines| == 1 + |names| && lines[0] == HEADER
    && forall i | 0 <= i < |names| :: lines[i + 1] == ConstraintLine(constraints, names[i])
  }

  /** A header, then one line for each name in order. */
  ghost predicate IsConstraintFile(lines: seq<string>, constraints: Constraints) {
    exists names :: LinesOf(lines, constraints, names)
  }


  method PrintConstraints(constraints: Constraints) returns (lines: seq<string>)
    ensures IsConstraintFile(lines, constraints)
  {
    hide Enumerates, ConstraintLine;
    var names := SortedList(constraints.Keys);
    lines := [HEADER];
    for i := 0 to |names|
      invariant |lines| == 1 + i && lines[0] == HEADER
      invariant forall k | 0 <= k < i :: lines[k + 1] == ConstraintLine(constraints, names[k])
    {
      lines := lines + [ConstraintLine(constraints, names[i])];
    }
    assert LinesOf(lines, constraints, names);
  }

  /** The lock with the refreshed versions in place. */
  function Refreshed(constraints: Constraints, refreshed: Constraints): Constraints {
    constraints + refreshed
  }

  /**
   `write_authoritative_lock_constraints`: refreshing pins of direct packages changes versions only, never the set of
   names; anything else is refused.  `lines` is the written file.
   */
  method WriteConstraints(packages: seq<Package>, refreshed: Constraints)
    returns (outcome: Result<Constraints, Error>, lines: seq<string>)
    ensures !SoundLock(packages) ==> outcome.Err? && FirstError(outcome.error, packages)
    ensures SoundLock(packages) ==>
              (outcome.Ok? <==> forall name | name in refreshed :: exists i | 0 <= i < |packages| ::
                                  Names(packages[i], name) && packages[i].direct == Some(true))
    ensures outcome.Ok? ==>
              exists constraints :: Pins(constraints, packages) && outcome.value == Refreshed(constraints, refreshed)
                                    && outcome.value.Keys == constraints.Keys
    ensures outcome.Ok? ==> IsConstraintFile(lines, outcome.value)
    ensures SoundLock(packages) && outcome.Err? ==>
              || (outcome.error.AbsentFromLock? && outcome.error.name in refreshed
                  && forall i | 0 <= i < |packages| :: !Names(packages[i], outcome.error.name))
              || (outcome.error.NotDirect? && outcome.error.name in refreshed
                  && (exists i | 0 <= i < |packages| :: Names(packages[i], outcome.error.name))
                  && forall i | 0 <= i < |packages| && Names(packages[i], outcome.error.name) :: packages[i].direct != Some(true))
  {
    hide Canonical, SoundLock, IsConstraintFile, FirstError;
    lines := [];
    var lock := ReadLock(packages);
    if lock.Err? {
      return Err(lock.error), lines;
    }
    var (constraints, direct) := lock.value;
    var todo := refreshed.Keys;
    while todo != {}
      invariant todo <= refreshed.Keys
      invariant forall name | name in refreshed.Keys - todo :: name in constraints && name in direct
    {
      var name :| name in todo;
      todo := todo - {name};
      if name !in constraints {
        AbsentIsNotDirect(constraints, packages, name);
        return Err(AbsentFromLock(name)), lines;
      }
      if name !in direct {
        return Err(NotDirect(name)), lines;
      }
    }
    var updated := Refreshed(constraints, refreshed);
    assert updated.Keys == constraints.Keys;
    lines := PrintConstraints(updated);
    return Ok(updated), lines;
  }

  lemma AbsentIsNotDirect(constraints: Constraints, packages: seq<Package>, name: string)
    requires Pins(constraints, packages) && name !in constraints
    ensures !exists i | 0 <= i < |packages| :: Names(packages[i], name) && packages[i].direct == Some(true)
  {
  }

  lemma FirstEquals(a: string, x: string, b: string, y: string)
    requires '=' !in a && '=' !in b && a + "==" + x == b + "==" + y
    ensures a == b && x == y
  {
    var s := a + "==" + x;
    assert s == a + ['='] + ("=" + x) && s == b + ['='] + ("=" + y);
    IndexOfAppend(a, '=', "=" + x);
    IndexOfAppend(b, '=', "=" + y);
    assert s[..|a|] == a && s[..|b|] == b && s[|a| + 2..] == x && s[|b| + 2..] == y;
  }

  /** The names and versions of one file are among those of the other. */
  lemma NamesAmong(lines: seq<string>, a: Constraints, names: seq<string>, b: Constraints, others: seq<string>, name: string)
    requires LinesOf(lines, a, names) && LinesOf(lines, b, others) && name in a
    requires (forall name | name in a :: '=' !in name) && (forall name | name in b :: '=' !in name)
    ensures name in b && a[name] == b[name]
  {
    hide LexLe;
    assert name in a.Keys;
    var i :| 0 <= i < |names| && names[i] == name;
    assert others[i] in b.Keys;
    assert lines[i + 1] == ConstraintLine(a, names[i]) == ConstraintLine(b, others[i]);
    FirstEquals(names[i], a[names[i]], others[i], b[others[i]]);
  }

  /** A constraint file starts with the notice, and its lines determine every name and its version. */
  lemma FileDetermines(lines: seq<string>, a: Constraints, b: Constraints)
    requires IsConstraintFile(lines, a) && IsConstraintFile(lines, b)
    requires (forall name | name in a :: '=' !in name) && (forall name | name in b :: '=' !in name)
    ensures lines[0] == "# Generated at runtime from uv.lock; do not edit."
    ensures a == b
  {
    var names :| LinesOf(lines, a, names);
    var others :| LinesOf(lines, b, others);
    hide LinesOf, IsConstraintFile;
    forall name
      ensures name in a ==> name in b && a[name] == b[name]
      ensures name in b ==> name in a
    {
      if name in a {
        NamesAmong(lines, a, names, b, others, name);
      }
      if name in b {
        NamesAmong(lines, b, others, a, names, name);
      }
    }
  }

  // ----- the installed graph -----

  /** A requirement of an installed package; `active` says that it has no marker or its marker holds. */
  datatype Dependency = Unparseable | Dependency(name: string, active: bool)

  predicate RequiresName(metadata: seq<seq<Dependency>>, name: string, active: bool) {
    exists i, j | 0 <= i < |metadata| && 0 <= j < |metadata[i]| :: Targets(metadata[i][j], name, active)
  }

  predicate Targets(d: Dependency, name: string, active: bool) {
    d.Dependency? && Canonical(d.name) == name && d.active == active
  }

  predicate Installed(packages: seq<Package>, name: string) {
    exists i | 0 <= i < |packages| :: Names(packages[i], name)
  }

  /** An installed package is locked at its version. */
  predicate Locked(p: Package, constraints: Constraints) {
    HasIdentity(p) && Canonical(p.name) in constraints && constraints[Canonical(p.name)] == p.version
  }

  predicate Parses(metadata: seq<seq<Dependency>>) {
    forall i, j | 0 <= i < |metadata| && 0 <= j < |metadata[i]| :: metadata[i][j].Dependency?
  }

  /** A locked package may be missing only if some inactive requirement names it, and no active or direct one. */
  predicate MayBeMissing(metadata: seq<seq<Dependency>>, direct: set<string>, name: string) {
    RequiresName(metadata, name, false) && !RequiresName(metadata, name, true) && name !in direct
  }

  predicate Accepts(packages: seq<Package>, constraints: Constraints, metadata: seq<seq<Dependency>>, direct: set<string>) {
    && (forall i | 0 <= i < |packages| :: Locked(packages[i], constraints))
    && Parses(metadata)
    && forall name | name in constraints :: Installed(packages, name) || MayBeMissing(metadata, direct, name)
  }

  /** The targets of the active requirements, and of the inactive ones; None when a requirement does not parse. */
  method CollectTargets(metadata: seq<seq<Dependency>>) returns (targets: Option<(set<string>, set<string>)>)
    ensures targets.Some? <==> Parses(metadata)
    ensures targets.Some? ==> forall name :: name in targets.value.0 <==> RequiresName(metadata, name, true)
    ensures targets.Some? ==> forall name :: name in targets.value.1 <==> RequiresName(metadata, name, false)
  {
    hide Canonical;
    var active: set<string>, inactive: set<string> := {}, {};
    for i := 0 to |metadata|
      invariant Parses(metadata[..i])
      invariant forall name :: name in active <==> RequiresName(metadata[..i], name, true)
      invariant forall name :: name in inactive <==> RequiresName(metadata[..i], name, false)
    {
      for j := 0 to |metadata[i]|
        invariant forall k | 0 <= k < j :: metadata[i][k].Dependency?
        invariant forall name :: name in active <==>
                    RequiresName(metadata[..i], name, true) || exists k | 0 <= k < j :: Targets(metadata[i][k], name, true)
        invariant forall name :: name in inactive <==>
                    RequiresName(metadata[..i], name, false) || exists k | 0 <= k < j :: Targets(metadata[i][k], name, false)
      {
        var d := metadata[i][j];
        if d.Unparseable? {
          return None;
        }
        if d.active {
          active := active + {Canonical(d.name)};
        } else {
          inactive := inactive + {Canonical(d.name)};
        }
      }
      forall name, flag
        ensures RequiresName(metadata[..i + 1], name, flag) <==>
                RequiresName(metadata[..i], name, flag) || exists k | 0 <= k < |metadata[i]| :: Targets(metadata[i][k], name, flag)
      {
        RequiresOneMore(metadata, i, name, flag);
      }
    }
    assert metadata[..|metadata|] == metadata;
    return Some((active, inactive));
  }

  lemma RequiresOneMore(metadata: seq<seq<Dependency>>, i: nat, name: string, active: bool)
    requires i < |metadata|
    ensures RequiresName(metadata[..i + 1], name, active) <==>
            RequiresName(metadata[..i], name, active) || exists k | 0 <= k < |metadata[i]| :: Targets(metadata[i][k], name, active)
  {
  }

  /** What each error says of an installed package. */
  predicate InstalledError(e: Error, p: Package, constraints: Constraints) {
    match e
    case MalformedPackage => p.Malformed?
    case NoNameOrVersion => p.Package? && (Canonical(p.name) == "" || p.version == "")
    case AbsentFromLock(name) => Names(p, name) && name !in constraints
    case VersionMismatch(name) => Names(p, name) && name in constraints && constraints[name] != p.version
    case _ => false
  }

  /** `validate_installed_packages_against_lock`; None when it accepts.  A missing package is the first by name. */
  method ValidateInstalled(packages: seq<Package>, constraints: Constraints, metadata: seq<seq<Dependency>>, direct: set<string>)
    returns (error: Option<Error>)
    ensures error.None? <==> Accepts(packages, constraints, metadata, direct)
    ensures error.Some? && error.value.AbsentFromInstalled? ==>
              var name := error.value.name;
              && name in constraints && !Installed(packages, name) && !MayBeMissing(metadata, direct, name)
              && forall other | other in constraints && !Installed(packages, other) && !MayBeMissing(metadata, direct, other) ::
                   LexLe(name, other)
    ensures error.Some? && !error.value.AbsentFromInstalled? ==>
              || (error.value == InvalidRequirement && !Parses(metadata) && forall i | 0 <= i < |packages| :: Locked(packages[i], constraints))
              || exists i: nat | i < |packages| ::
                   (forall k | 0 <= k < i :: Locked(packages[k], constraints)) && InstalledError(error.value, packages[i], constraints)
  {
    hide Canonical, Parses, RequiresName;
    var installed: set<string> := {};
    for i := 0 to |packages|
      invariant forall k | 0 <= k < i :: Locked(packages[k], constraints)
      invariant forall name :: name in installed <==> exists k | 0 <= k < i :: Names(packages[k], name)
    {
      var identity := Identity(packages[i]);
      if identity.Err? {
        return Some(identity.error);
      }
      var (name, version) := identity.value;
      installed := installed + {name};
      if name !in constraints {
        return Some(AbsentFromLock(name));
      }
      if version != constraints[name] {
        return Some(VersionMismatch(name));
      }
    }
    var targets := CollectTargets(metadata);
    if targets.None? {
      return Some(InvalidRequirement);
    }
    var applicable, inactive := direct + targets.value.0, targets.value.1;
    var missing := constraints.Keys - installed - (inactive - applicable);
    assert forall name :: name in missing <==>
                            name in constraints && !Installed(packages, name) && !MayBeMissing(metadata, direct, name);
    var names := SortedList(missing);
    if names != [] {
      assert names[0] in missing;
      LexReflexive(names[0]);
      forall other | other in missing
        ensures LexLe(names[0], other)
      {
        var k :| 0 <= k < |names| && names[k] == other;
      }
      return Some(AbsentFromInstalled(names[0]));
    }
    return None;
  }

  lemma {:induction false} LexReflexive(s: string)
    ensures LexLe(s, s)
  {
    LexTotal(s, s);
  }

  /** Every locked target of a direct or active requirement is installed, at the locked version. */
  lemma ActiveTargetsInstalled(packages: seq<Package>, constraints: Constraints, metadata: seq<seq<Dependency>>,
                               direct: set<string>, name: string)
    requires Accepts(packages, constraints, metadata, direct) && name in constraints
    requires name in direct || RequiresName(metadata, name, true)
    ensures exists i | 0 <= i < |packages| :: Names(packages[i], name) && packages[i].version == constraints[name]
  {
  }

  /**
   Refresh, then validate: an environment accepted against refreshed constraints has every refreshed package at its
   refreshed version, and has nothing outside the lock.
   */
  lemma RefreshedPinsInstalled(lock: seq<Package>, constraints: Constraints, refreshed: Constraints,
                               packages: seq<Package>, metadata: seq<seq<Dependency>>, direct: set<string>)
    requires Pins(constraints, lock) && refreshed.Keys <= constraints.Keys && refreshed.Keys <= direct
    requires Accepts(packages, Refreshed(constraints, refreshed), metadata, direct)
    ensures forall name | name in refreshed ::
              exists i | 0 <= i < |packages| :: Names(packages[i], name) && packages[i].version == refreshed[name]
    ensures forall i | 0 <= i < |packages| ::
              && Canonical(packages[i].name) != ""
              && exists j | 0 <= j < |lock| ::
                   && Names(lock[j], Canonical(packages[i].name))
                   && (Canonical(packages[i].name) !in refreshed ==> packages[i].version == lock[j].version)
  {
    hide Canonical;
  }
}
