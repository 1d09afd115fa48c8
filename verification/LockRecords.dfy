/** The package records and the summary of the lock, of scripts/dependency_lock_evidence.py. */
module LockRecords {
  import opened Wrappers
  import opened Text
  import opened Sorting
  import opened Packaging
  import opened DependencyLock

  /** A direct requirement with its exact pin. */
  datatype Entry = Entry(name: string, group: string, version: string, sourceFile: string, extras: seq<string>, hash: string)

  /** A package of the license inventory; an absent version is empty. */
  datatype Listed = Listed(name: string, version: string, groups: seq<string>)

  datatype LockError = DirectMismatch(name: string) | DirectMissing(name: string)

  function EntriesOf(entries: seq<Entry>, name: string): seq<Entry> {
    if entries == [] then []
    else
      var last := entries[|entries| - 1];
      EntriesOf(entries[..|entries| - 1], name) + if last.name == name then [last] else []
  }

  predicate Agree(entries: seq<Entry>) {
    forall i, j | 0 <= i < j < |entries| :: entries[i].version == entries[j].version
  }

  /** `str(package.get("version") or _direct_version(direct_entries))`, for entries that agree. */
  function VersionOf(p: Listed, entries: seq<Entry>): string {
    if p.version != "" then p.version else if entries == [] then "" else entries[0].version
  }

  predicate Names(p: Listed, name: string) {
    Canonical(p.name) == name && name != ""
  }

  /** A record joins an inventory package with the direct requirements of its name; its lists are sorted sets. */
  ghost predicate RecordFor(r: LockedPackage, p: Listed, entries: seq<Entry>) {
    && Names(p, r.name) && r.version == VersionOf(p, entries) && (r.direct <==> entries != [])
    && Enumerates(r.groups, (set g | g in p.groups) + (set e | e in entries :: e.group))
    && Enumerates(r.requirementFiles, set e | e in entries :: e.sourceFile)
    && Enumerates(r.extras, set e, x | e in entries && x in e.extras :: x)
    && Enumerates(r.requirementHashes, set e | e in entries :: e.hash)
  }

  /** The last package of a name is the one whose record is kept. */
  function LastNamed(inventory: seq<Listed>, name: string): Option<Listed> {
    if inventory == [] then None
    else if Names(inventory[|inventory| - 1], name) then Some(inventory[|inventory| - 1])
    else LastNamed(inventory[..|inventory| - 1], name)
  }

  lemma {:induction false} LastNamedIff(inventory: seq<Listed>, name: string)
    ensures LastNamed(inventory, name).Some? <==> ListedName(inventory, name)
  {
    hide Names;
    if inventory == [] {
    } else {
      var init := inventory[..|inventory| - 1];
      LastNamedIff(init, name);
      if ListedName(init, name) {
        var i :| 0 <= i < |init| && Names(init[i], name);
        assert Names(inventory[i], name);
      }
    }
  }

  ghost predicate RecordsFor(records: map<string, LockedPackage>, inventory: seq<Listed>, entries: seq<Entry>) {
    forall name :: IsRecord(records, LastNamed(inventory, name), entries, name)
  }

  /** The name has a record exactly when the inventory lists it, and then the one of the package that counts. */
  ghost predicate IsRecord(records: map<string, LockedPackage>, listed: Option<Listed>, entries: seq<Entry>, name: string) {
    && (name in records <==> listed.Some?)
    && (name in records ==> records[name].name == name && RecordFor(records[name], listed.value, EntriesOf(entries, name)))
  }

  /** A package without a version whose direct requirements disagree on theirs. */
  predicate Disagrees(p: Listed, entries: seq<Entry>) {
    Canonical(p.name) != "" && p.version == "" && !Agree(EntriesOf(entries, Canonical(p.name)))
  }

  predicate ListedName(inventory: seq<Listed>, name: string) {
    exists i | 0 <= i < |inventory| :: Names(inventory[i], name)
  }

  method RecordOf(p: Listed, entries: seq<Entry>) returns (r: LockedPackage)
    requires Canonical(p.name) != ""
    ensures RecordFor(r, p, entries) && r.name == Canonical(p.name)
  {
    hide Enumerates, Canonical;
    var groups := SortedList((set g | g in p.groups) + (set e | e in entries :: e.group));
    var files := SortedList(set e | e in entries :: e.sourceFile);
    var extras := SortedList(set e, x | e in entries && x in e.extras :: x);
    var hashes := SortedList(set e | e in entries :: e.hash);
    r := LockedPackage(Canonical(p.name), VersionOf(p, entries), entries != [], groups, files, extras, hashes);
  }

  lemma RecordsOneMore(records: map<string, LockedPackage>, before: seq<Listed>, entries: seq<Entry>, p: Listed, r: LockedPackage)
    requires RecordsFor(records, before, entries)
    requires RecordFor(r, p, EntriesOf(entries, r.name))
    ensures RecordsFor(records[r.name := r], before + [p], entries)
  {
  }

  lemma RecordsSkip(records: map<string, LockedPackage>, before: seq<Listed>, entries: seq<Entry>, p: Listed)
    requires RecordsFor(records, before, entries) && Canonical(p.name) == ""
    ensures RecordsFor(records, before + [p], entries)
  {
  }

  /** The records sorted by name, each name once. */
  ghost predicate SortedRecords(packages: seq<LockedPackage>, records: map<string, LockedPackage>) {
    && |packages| == |records|
    && (forall i | 0 <= i < |packages| :: packages[i].name in records && packages[i] == records[packages[i].name])
    && forall i, j | 0 <= i < j < |packages| :: LexLe(packages[i].name, packages[j].name) && packages[i].name != packages[j].name
  }

  /**
   `_package_records`: one record for each name of the inventory, in order of names; an error exactly when direct
   requirements disagree where their version is needed, or one of them is missing from the inventory.
   */
  method PackageRecords(direct: seq<Entry>, inventory: seq<Listed>) returns (outcome: Result<seq<LockedPackage>, LockError>)
    ensures outcome.Ok? <==>
              && (forall i | 0 <= i < |inventory| :: !Disagrees(inventory[i], direct))
              && (forall i | 0 <= i < |direct| :: ListedName(inventory, direct[i].name))
    ensures outcome.Ok? ==> exists records :: RecordsFor(records, inventory, direct) && SortedRecords(outcome.value, records)
    ensures outcome.Err? && outcome.error.DirectMismatch? ==>
              exists i | 0 <= i < |inventory| :: Canonical(inventory[i].name) == outcome.error.name && Disagrees(inventory[i], direct)
    ensures outcome.Err? && outcome.error.DirectMissing? ==>
              !ListedName(inventory, outcome.error.name) && exists i | 0 <= i < |direct| :: direct[i].name == outcome.error.name
  {
    hide Canonical, RecordFor, RecordsFor, EntriesOf, Enumerates;
    var records: map<string, LockedPackage> := map[];
    NoRecords(direct);
    for i := 0 to |inventory|
      invariant RecordsFor(records, inventory[..i], direct)
      invariant forall k | 0 <= k < i :: !Disagrees(inventory[k], direct)
    {
      var p := inventory[i];
      assert inventory[..i + 1] == inventory[..i] + [p];
      var name := Canonical(p.name);
      if name == "" {
        RecordsSkip(records, inventory[..i], direct, p);
        continue;
      }
      var entries := EntriesOf(direct, name);
      if p.version == "" && !Agree(entries) {
        return Err(DirectMismatch(name));
      }
      var r := RecordOf(p, entries);
      RecordsOneMore(records, inventory[..i], direct, p, r);
      records := records[name := r];
    }
    assert inventory[..|inventory|] == inventory;
    RecordsListed(records, inventory, direct);
    for i := 0 to |direct|
      invariant forall k | 0 <= k < i :: ListedName(inventory, direct[k].name)
    {
      if direct[i].name !in records {
        return Err(DirectMissing(direct[i].name));
      }
    }
    var packages := SortedPackages(records, inventory, direct);
    return Ok(packages);
  }

  lemma NoRecords(entries: seq<Entry>)
    ensures RecordsFor(map[], [], entries)
  {
  }

  lemma RecordsListed(records: map<string, LockedPackage>, inventory: seq<Listed>, entries: seq<Entry>)
    requires RecordsFor(records, inventory, entries)
    ensures forall name :: name in records <==> ListedName(inventory, name)
    ensures forall name | name in records :: records[name].name == name
  {
    hide RecordFor;
    forall name
      ensures name in records <==> ListedName(inventory, name)
      ensures name in records ==> records[name].name == name
    {
      LastNamedIff(inventory, name);
      assert IsRecord(records, LastNamed(inventory, name), entries, name);
    }
  }

  /** `[records[name] for name in sorted(records)]` */
  method SortedPackages(records: map<string, LockedPackage>, ghost inventory: seq<Listed>, ghost entries: seq<Entry>)
    returns (packages: seq<LockedPackage>)
    requires forall name | name in records :: records[name].name == name
    ensures SortedRecords(packages, records)
  {
    hide LexLe;
    var names := SortedList(records.Keys);
    packages := [];
    for i := 0 to |names|
      invariant |packages| == i
      invariant forall k | 0 <= k < i :: names[k] in records && packages[k] == records[names[k]]
    {
      assert names[i] in records.Keys;
      packages := packages + [records[names[i]]];
    }
    EnumerationSize(names, records.Keys);
    assert |records.Keys| == |records|;
  }

  lemma {:induction false} EnumerationSize(names: seq<string>, s: set<string>)
    requires Enumerates(names, s)
    ensures |names| == |s|
    decreases names
  {
    hide LexLe;
    if names == [] {
      assert s == {} by {
        assert forall x :: x !in s;
      }
    } else {
      var init, last := names[..|names| - 1], names[|names| - 1];
      assert names == init + [last] && last in s;
      forall x | x in s - {last}
        ensures x in init
      {
        assert x in names;
      }
      assert Enumerates(init, s - {last});
      EnumerationSize(init, s - {last});
    }
  }

  // ----- what a record says -----

  lemma {:induction false} EntriesOfExact(entries: seq<Entry>, name: string, e: Entry)
    ensures e in EntriesOf(entries, name) <==> e in entries && e.name == name
  {
    if entries == [] {
      assert EntriesOf(entries, name) == [];
    } else {
      EntriesOfExact(entries[..|entries| - 1], name, e);
      assert entries == entries[..|entries| - 1] + [entries[|entries| - 1]];
    }
  }

  /** Direct requirements of one name disagree exactly when two of them pin different versions. */
  lemma DisagreesExact(p: Listed, entries: seq<Entry>)
    ensures Disagrees(p, entries)
       <==> && Canonical(p.name) != "" && p.version == ""
            && exists e, f :: e in entries && f in entries && e.name == f.name == Canonical(p.name) && e.version != f.version
  {
    hide Canonical;
    var own := EntriesOf(entries, Canonical(p.name));
    forall e
      ensures e in own <==> e in entries && e.name == Canonical(p.name)
    {
      EntriesOfExact(entries, Canonical(p.name), e);
    }
    if e, f :| e in own && f in own && e.version != f.version {
      var i :| 0 <= i < |own| && own[i] == e;
      var j :| 0 <= j < |own| && own[j] == f;
    }
  }

  /** The package at `i` is the last one of the inventory that goes by this name. */
  ghost predicate LastAt(inventory: seq<Listed>, name: string, i: nat) {
    && i < |inventory| && name != "" && IsCanonical(name) && SameName(inventory[i].name, name)
    && forall j | i < j < |inventory| :: !SameName(inventory[j].name, name)
  }

  lemma NamesExact(p: Listed, name: string)
    ensures Names(p, name) <==> name != "" && IsCanonical(name) && SameName(p.name, name)
  {
    CanonicalFixed(p.name);
    CanonicalFixed(name);
    CanonicalEqualIff(p.name, name);
    hide SameName, Canonical, IsCanonical;
  }

  lemma {:induction false} LastNamedExact(inventory: seq<Listed>, name: string)
    ensures forall i: nat | LastAt(inventory, name, i) :: LastNamed(inventory, name) == Some(inventory[i])
    ensures LastNamed(inventory, name).Some? <==> exists i: nat :: LastAt(inventory, name, i)
  {
    hide SameName, IsCanonical, Names;
    if inventory == [] {
      assert LastNamed(inventory, name).None?;
    } else {
      var init, last := inventory[..|inventory| - 1], inventory[|inventory| - 1];
      NamesExact(last, name);
      LastNamedExact(init, name);
      if Names(last, name) {
        assert LastAt(inventory, name, |init|);
      } else if name != "" && IsCanonical(name) {
        assert !SameName(last.name, name);
        forall i: nat
          ensures LastAt(inventory, name, i) <==> LastAt(init, name, i)
        {
          assert forall j | 0 <= j < |init| :: init[j] == inventory[j];
        }
      }
    }
  }

  /**
   The record of a name: its version is that of the last package of the name or else of the direct requirements; it is
   direct when there are any; its lists hold exactly their groups, files, extras and hashes, in strict order.
   */
  ghost predicate Joins(r: LockedPackage, p: Listed, direct: seq<Entry>) {
    && (p.version != "" ==> r.version == p.version)
    && (p.version == "" ==> forall e | e in direct && e.name == r.name :: r.version == e.version)
    && (p.version == "" && (forall e | e in direct :: e.name != r.name) ==> r.version == "")
    && (r.direct <==> exists e :: e in direct && e.name == r.name)
    && (forall x :: x in r.groups <==> x in p.groups || exists e :: e in direct && e.name == r.name && e.group == x)
    && (forall x :: x in r.requirementFiles <==> exists e :: e in direct && e.name == r.name && e.sourceFile == x)
    && (forall x :: x in r.extras <==> exists e :: e in direct && e.name == r.name && x in e.extras)
    && (forall x :: x in r.requirementHashes <==> exists e :: e in direct && e.name == r.name && e.hash == x)
  }

  lemma RecordJoins(records: map<string, LockedPackage>, inventory: seq<Listed>, direct: seq<Entry>, name: string, i: nat)
    requires RecordsFor(records, inventory, direct) && LastAt(inventory, name, i) && !Disagrees(inventory[i], direct)
    ensures name in records && records[name].name == name && Joins(records[name], inventory[i], direct)
  {
    hide SameName, IsCanonical, LexLe, Canonical;
    LastNamedExact(inventory, name);
    assert IsRecord(records, LastNamed(inventory, name), direct, name);
    var p, own := inventory[i], EntriesOf(direct, name);
    NamesExact(p, name);
    DisagreesExact(p, direct);
    forall e
      ensures e in own <==> e in direct && e.name == name
    {
      EntriesOfExact(direct, name, e);
    }
    assert own != [] ==> own[0] in own;
  }

  // ----- the summary -----

  function CountDirect(packages: seq<LockedPackage>, direct: bool): nat {
    if packages == [] then 0
    else CountDirect(packages[..|packages| - 1], direct) + if packages[|packages| - 1].direct == direct then 1 else 0
  }

  /** The two counts of the summary make up the whole. */
  lemma {:induction false} CountsAddUp(packages: seq<LockedPackage>)
    ensures CountDirect(packages, true) + CountDirect(packages, false) == |packages|
  {
    if packages == [] {
    } else {
      CountsAddUp(packages[..|packages| - 1]);
    }
  }

  function NamesOf(packages: seq<LockedPackage>, direct: bool): set<string> {
    if packages == [] then {}
    else
      var last := packages[|packages| - 1];
      NamesOf(packages[..|packages| - 1], direct) + if last.direct == direct then {last.name} else {}
  }

  predicate HasRecord(packages: seq<LockedPackage>, direct: bool, name: string) {
    exists i | 0 <= i < |packages| :: packages[i].name == name && packages[i].direct == direct
  }

  lemma {:induction false} NamesOfMember(packages: seq<LockedPackage>, direct: bool, name: string)
    ensures name in NamesOf(packages, direct) <==> HasRecord(packages, direct, name)
  {
    if packages == [] {
    } else {
      var init := packages[..|packages| - 1];
      NamesOfMember(init, direct, name);
      if HasRecord(init, direct, name) {
        var i :| 0 <= i < |init| && init[i].name == name && init[i].direct == direct;
        assert packages[i] == init[i];
      }
    }
  }

  lemma {:induction false} CountIsNames(packages: seq<LockedPackage>, direct: bool)
    requires forall i, j | 0 <= i < j < |packages| :: packages[i].name != packages[j].name
    ensures CountDirect(packages, direct) == |NamesOf(packages, direct)|
  {
    if packages == [] {
    } else {
      var init, last := packages[..|packages| - 1], packages[|packages| - 1];
      assert forall i | 0 <= i < |init| :: init[i] == packages[i];
      CountIsNames(init, direct);
      NamesOfMember(init, direct, last.name);
    }
  }

  function DirectNames(entries: seq<Entry>): set<string> {
    set e | e in entries :: e.name
  }

  lemma {:induction false} EntriesOfSome(entries: seq<Entry>, name: string)
    ensures EntriesOf(entries, name) != [] <==> name in DirectNames(entries)
  {
    if entries == [] {
    } else {
      var init, last := entries[..|entries| - 1], entries[|entries| - 1];
      assert entries == init + [last];
      EntriesOfSome(init, name);
    }
  }

  /**
   The summary conserves packages: the direct count is the number of distinct direct requirements, and with the
   transitive count it makes up all packages.
   */
  lemma SummaryConserves(direct: seq<Entry>, inventory: seq<Listed>, records: map<string, LockedPackage>, packages: seq<LockedPackage>)
    requires RecordsFor(records, inventory, direct) && SortedRecords(packages, records)
    requires forall i | 0 <= i < |direct| :: ListedName(inventory, direct[i].name)
    ensures CountDirect(packages, true) == |DirectNames(direct)|
    ensures CountDirect(packages, true) + CountDirect(packages, false) == |packages| == |records|
  {
    hide LexLe, CountDirect, EntriesOf, Canonical, NamesOf, RecordFor, DirectNames, IsRecord;
    CountsAddUp(packages);
    CountIsNames(packages, true);
    RecordsListed(records, inventory, direct);
    forall name
      ensures name in NamesOf(packages, true) <==> name in DirectNames(direct)
    {
      NamesOfMember(packages, true, name);
      DirectListed(direct, inventory, name);
      assert IsRecord(records, LastNamed(inventory, name), direct, name);
      if name in records {
        RecordDirect(records, LastNamed(inventory, name), direct, name);
        SortedHasAll(packages, records, name);
      }
    }
    assert NamesOf(packages, true) == DirectNames(direct);
  }

  lemma DirectListed(direct: seq<Entry>, inventory: seq<Listed>, name: string)
    requires forall i | 0 <= i < |direct| :: ListedName(inventory, direct[i].name)
    ensures name in DirectNames(direct) ==> ListedName(inventory, name)
  {
  }

  lemma RecordDirect(records: map<string, LockedPackage>, listed: Option<Listed>, direct: seq<Entry>, name: string)
    requires IsRecord(records, listed, direct, name) && name in records
    ensures records[name].direct <==> name in DirectNames(direct)
  {
    EntriesOfSome(direct, name);
  }

  lemma SortedHasAll(packages: seq<LockedPackage>, records: map<string, LockedPackage>, name: string)
    requires SortedRecords(packages, records) && name in records
    ensures exists i | 0 <= i < |packages| :: packages[i].name == name && packages[i] == records[name]
  {
    hide LexLe, NamesOf, CountDirect;
    var found := NamesOf(packages, true) + NamesOf(packages, false);
    CountIsNames(packages, true);
    CountIsNames(packages, false);
    CountsAddUp(packages);
    forall x
      ensures x in NamesOf(packages, true) <==> HasRecord(packages, true, x)
      ensures x in NamesOf(packages, false) <==> HasRecord(packages, false, x)
    {
      NamesOfMember(packages, true, x);
      NamesOfMember(packages, false, x);
    }
    assert NamesOf(packages, true) !! NamesOf(packages, false);
    assert |found| == |packages| == |records.Keys|;
    assert found <= records.Keys;
    SubsetOfSameSize(found, records.Keys);
    assert name in found;
  }

  lemma SubsetOfSameSize(a: set<string>, b: set<string>)
    requires a <= b && |a| == |b|
    ensures a == b
  {
    assert |b - a| == 0;
  }
}
