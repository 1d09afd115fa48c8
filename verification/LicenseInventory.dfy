/** Building, validating and comparing license inventories, of scripts/license_ip_evidence.py. */
module LicenseInventory {
  import opened Wrappers
  import opened Text
  import opened Sorting
  import opened Packaging
  import opened Json
  import opened LicenseTerms

  type Fields = map<string, Value>

  /** `shown` is `str` of a loaded value, `date` is `date.fromisoformat` to a day number. */
  datatype Runtime = Runtime(shown: Value -> string, date: string -> Option<int>)

  ghost predicate Faithful(rt: Runtime) {
    forall s :: rt.shown(Str(s)) == s
  }

  /** Such a runtime exists. */
  lemma FaithfulExists() returns (rt: Runtime)
    ensures Faithful(rt)
  {
    rt := Runtime((v: Value) => if v.Str? then v.s else "", s => None);
  }

  /** `str(v or "")` */
  function TextOf(v: Value, rt: Runtime): string {
    if Truthy(v) then rt.shown(v) else ""
  }

  // ----- classification -----

  datatype Policy = Policy(allowed: set<string>, review: set<string>, prohibited: set<string>, exceptions: seq<Fields>)

  predicate Matches(exception: Fields, name: string, term: string, rt: Runtime) {
    && Canonical(TextOf(Get(exception, "package"), rt)) == Canonical(name)
    && (TextOf(Get(exception, "license_term"), rt) == "*" || TextOf(Get(exception, "license_term"), rt) == term)
  }

  /** `_matching_exception`: the first that matches. */
  function Matching(exceptions: seq<Fields>, name: string, term: string, rt: Runtime): Option<Fields> {
    if exceptions == [] then None
    else if Matches(exceptions[0], name, term, rt) then Some(exceptions[0])
    else Matching(exceptions[1..], name, term, rt)
  }

  /** `_exception_expiry`; None when the date is malformed. */
  function Expiry(exception: Fields, rt: Runtime): Option<int> {
    var expires := Get(exception, "expires_on");
    rt.date(if Truthy(expires) then rt.shown(expires) else "1970-01-01")
  }

  datatype Class = ApprovedException | Prohibited | ReviewRequired | Allowed

  function ClassName(c: Class): string {
    match c
    case ApprovedException => "APPROVED_EXCEPTION"
    case Prohibited => "PROHIBITED"
    case ReviewRequired => "REVIEW_REQUIRED"
    case Allowed => "ALLOWED"
  }

  lemma ClassNamesDistinct(a: Class, b: Class)
    ensures ClassName(a) == ClassName(b) ==> a == b
    ensures ClassName(a) != ""
  {
  }

  /** The class of a term to which no unexpired exception applies. */
  function ClassOfTerm(term: string, policy: Policy): (c: Class)
    ensures c != ApprovedException
  {
    if term in policy.prohibited then Prohibited
    else if term == "" || term == "UNKNOWN" || term in policy.review then ReviewRequired
    else if AllTermsAllowed(term, policy.allowed) then Allowed
    else ReviewRequired
  }

  /** `_classify_license`; None when it raises. */
  function Classify(name: string, term: string, policy: Policy, today: int, rt: Runtime): Option<(Class, Option<Fields>)> {
    match Matching(policy.exceptions, name, term, rt)
    case None => Some((ClassOfTerm(term, policy), None))
    case Some(exception) =>
      match Expiry(exception, rt)
      case None => None
      case Some(expires) =>
        Some((if expires >= today then ApprovedException else ClassOfTerm(term, policy), Some(exception)))
  }

  // ----- exception evidence -----

  function Evident(v: Value, rt: Runtime): Option<string> {
    if Truthy(v) then Some(rt.shown(v)) else None
  }

  function Either(fields: Fields, first: string, second: string): Value {
    if Truthy(Get(fields, first)) then Get(fields, first) else Get(fields, second)
  }

  /** `_exception_evidence`, of a package record or of a policy's exception. */
  function Evidence(fields: Fields, rt: Runtime): (Option<string>, Option<string>, Option<string>) {
    (Evident(Either(fields, "exception_id", "id"), rt),
     Evident(Either(fields, "exception_owner", "owner"), rt),
     Evident(Either(fields, "exception_expires_on", "expires_on"), rt))
  }

  /** An exception of the policy carries a key of its own that a package record would show otherwise. */
  predicate Conflicts(exception: Fields, rt: Runtime) {
    || (Truthy(Get(exception, "exception_id")) && Evident(Get(exception, "exception_id"), rt) != Evident(Get(exception, "id"), rt))
    || (Truthy(Get(exception, "exception_owner")) && Evident(Get(exception, "exception_owner"), rt) != Evident(Get(exception, "owner"), rt))
    || (Truthy(Get(exception, "exception_expires_on"))
        && Evident(Get(exception, "exception_expires_on"), rt) != Evident(Get(exception, "expires_on"), rt))
  }

  // ----- building records -----

  datatype Root = Root(declaredName: string, pinned: Option<string>, sourceFile: string)

  /** An installed distribution: its version, and the license term that its metadata gives. */
  datatype Distribution = Distribution(version: string, term: string)

  /** `_metadata_matches_requirement_pin` */
  predicate MatchesPin(root: Option<Root>, distribution: Option<Distribution>) {
    && distribution.Some?
    && (root.Some? && root.value.pinned.Some? ==> distribution.value.version == root.value.pinned.value)
  }

  /** `_package_version` */
  function VersionOf(root: Option<Root>, distribution: Option<Distribution>): Value {
    if root.Some? && root.value.pinned.Some? && root.value.pinned.value != "" then Str(root.value.pinned.value)
    else if distribution.Some? then Str(distribution.value.version)
    else Null
  }

  function TermOf(root: Option<Root>, distribution: Option<Distribution>): string {
    if MatchesPin(root, distribution) then distribution.value.term else "UNKNOWN"
  }

  function IdentityFields(name: string, root: Option<Root>, distribution: Option<Distribution>, groups: Value): Fields {
    map["name" := Str(name),
        "declared_name" := Str(if root.Some? then root.value.declaredName else name),
        "version" := VersionOf(root, distribution),
        "installed_version" := if distribution.Some? then Str(distribution.value.version) else Null,
        "relationship" := Str(if root.Some? then "direct" else "transitive"),
        "dependency_groups" := groups,
        "source_files" := List(if root.Some? then [Str(root.value.sourceFile)] else [])]
  }

  function LicenseFields(term: string, class_: Class, exception: Fields, matches: bool): Fields {
    map["license_term" := Str(term),
        "policy_classification" := Str(ClassName(class_)),
        "exception_id" := Get(exception, "id"),
        "exception_owner" := Get(exception, "owner"),
        "exception_expires_on" := Get(exception, "expires_on"),
        "metadata_available" := Bool(matches),
        "metadata_matches_requirement_pin" := Bool(matches)]
  }

  /** One record of `_package_license_records`; None when classification raises. */
  function RecordOf(name: string, root: Option<Root>, distribution: Option<Distribution>, groups: Value,
                    policy: Policy, today: int, rt: Runtime): Option<Fields> {
    var term := TermOf(root, distribution);
    match Classify(name, term, policy, today, rt)
    case None => None
    case Some((class_, exception)) =>
      Some(IdentityFields(name, root, distribution, groups)
           + LicenseFields(term, class_, if exception.Some? then exception.value else map[], MatchesPin(root, distribution)))
  }

  /** `_package_license_records` */
  method PackageLicenseRecords(roots: map<string, Root>, membership: map<string, Value>, index: map<string, Distribution>,
                               policy: Policy, today: int, rt: Runtime)
    returns (records: Option<seq<Fields>>, ghost names: seq<string>)
    ensures records.None? <==> exists name | name in membership :: RecordFor(name, roots, membership, index, policy, today, rt).None?
    ensures records.Some? ==> BuiltRecords(records.value, names, roots, membership, index, policy, today, rt)
  {
    hide RecordOf, LexLe;
    var sorted := SortedList(membership.Keys);
    names := sorted;
    var built: seq<Fields> := [];
    for i := 0 to |sorted|
      invariant |built| == i
      invariant forall k | 0 <= k < i :: Some(built[k]) == RecordFor(sorted[k], roots, membership, index, policy, today, rt)
    {
      var name := sorted[i];
      assert name in membership;
      var record := RecordFor(name, roots, membership, index, policy, today, rt);
      if record.None? {
        return None, names;
      }
      built := built + [record.value];
    }
    forall name | name in membership
      ensures RecordFor(name, roots, membership, index, policy, today, rt).Some?
    {
      var k :| 0 <= k < |sorted| && sorted[k] == name;
    }
    return Some(built), names;
  }

  /** One record for each package of the graph, in strict order of names. */
  predicate BuiltRecords(records: seq<Fields>, names: seq<string>, roots: map<string, Root>, membership: map<string, Value>,
                         index: map<string, Distribution>, policy: Policy, today: int, rt: Runtime)
  {
    && Enumerates(names, membership.Keys)
    && |records| == |names|
    && forall i | 0 <= i < |names| :: Some(records[i]) == RecordFor(names[i], roots, membership, index, policy, today, rt)
  }

  function Lookup<T>(m: map<string, T>, name: string): Option<T> {
    if name in m then Some(m[name]) else None
  }

  function RecordFor(name: string, roots: map<string, Root>, membership: map<string, Value>, index: map<string, Distribution>,
                     policy: Policy, today: int, rt: Runtime): Option<Fields> {
    RecordOf(name, Lookup(roots, name), Lookup(index, name), Get(membership, name), policy, today, rt)
  }

  lemma IdentityReads(name: string, root: Option<Root>, distribution: Option<Distribution>, groups: Value)
    ensures var fields := IdentityFields(name, root, distribution, groups);
            && Get(fields, "name") == Str(name)
            && "id" !in fields && "owner" !in fields && "expires_on" !in fields
  {
  }

  lemma LicenseReads(term: string, class_: Class, exception: Fields, matches: bool)
    ensures var fields := LicenseFields(term, class_, exception, matches);
            && Get(fields, "license_term") == Str(term) && Get(fields, "policy_classification") == Str(ClassName(class_))
            && Get(fields, "metadata_matches_requirement_pin") == Bool(matches)
            && "name" !in fields && "id" !in fields && "owner" !in fields && "expires_on" !in fields
  {
  }

  lemma LicenseReadsException(term: string, class_: Class, exception: Fields, matches: bool)
    ensures var fields := LicenseFields(term, class_, exception, matches);
            && "exception_id" in fields && Get(fields, "exception_id") == Get(exception, "id")
            && "exception_owner" in fields && Get(fields, "exception_owner") == Get(exception, "owner")
            && "exception_expires_on" in fields && Get(fields, "exception_expires_on") == Get(exception, "expires_on")
  {
  }

  /** What a built record shows of its exception, against what the exception shows of itself. */
  lemma RecordEvidenceIff(record: Fields, exception: Fields, rt: Runtime)
    requires Get(record, "id") == Null && Get(record, "owner") == Null && Get(record, "expires_on") == Null
    requires Get(record, "exception_id") == Get(exception, "id") && Get(record, "exception_owner") == Get(exception, "owner")
    requires Get(record, "exception_expires_on") == Get(exception, "expires_on")
    ensures Evidence(record, rt) == Evidence(exception, rt) <==> !Conflicts(exception, rt)
  {
  }

  // ----- validation -----

  datatype Failure =
    | SchemaVersion
    | ServiceName
    | NoCommit
    | NoDigest
    | NoPackages
    | PinMismatch(name: string)
    | ClassMismatch(name: string)
    | StaleException(name: string)
    | IsProhibited(name: string)
    | NeedsReview(name: string)
    | Expired(name: string)

  function NameOf(package: Fields, rt: Runtime): string {
    TextOf(Get(package, "name"), rt)
  }

  function Expected(package: Fields, policy: Policy, today: int, rt: Runtime): Option<(Class, Option<Fields>)> {
    Classify(NameOf(package, rt), TextOf(Get(package, "license_term"), rt), policy, today, rt)
  }

  function ExpectedEvidence(expected: (Class, Option<Fields>), rt: Runtime): (Option<string>, Option<string>, Option<string>) {
    Evidence(if expected.1.Some? then expected.1.value else map[], rt)
  }

  /** What the checks on one package find. */
  datatype Findings = Findings(pin: bool, class_: bool, stale: bool, prohibited: bool, review: bool, expired: bool)

  function FindingsOf(package: Fields, expected: (Class, Option<Fields>), today: int, rt: Runtime): Findings {
    var shownClass := TextOf(Get(package, "policy_classification"), rt);
    Findings(
      Get(package, "metadata_matches_requirement_pin") == Bool(false),
      shownClass != ClassName(expected.0),
      Evidence(package, rt) != ExpectedEvidence(expected, rt),
      shownClass == ClassName(Prohibited),
      shownClass == ClassName(ReviewRequired),
      expected.1.Some? && Expiry(expected.1.value, rt).Some? && Expiry(expected.1.value, rt).value < today)
  }

  predicate Finds(f: Failure, name: string, found: Findings) {
    match f
    case PinMismatch(n) => n == name && found.pin
    case ClassMismatch(n) => n == name && found.class_
    case StaleException(n) => n == name && found.stale
    case IsProhibited(n) => n == name && found.prohibited
    case NeedsReview(n) => n == name && found.review
    case Expired(n) => n == name && found.expired
    case _ => false
  }

  /** What is reported for a package, given its expected class and exception. */
  predicate Reported(f: Failure, package: Fields, expected: (Class, Option<Fields>), today: int, rt: Runtime) {
    Finds(f, NameOf(package, rt), FindingsOf(package, expected, today, rt))
  }

  function When(holds: bool, f: Failure): seq<Failure> {
    if holds then [f] else []
  }

  lemma InWhen(holds: bool, g: Failure, rest: seq<Failure>, f: Failure)
    ensures f in When(holds, g) + rest <==> (holds && f == g) || f in rest
  {
  }

  /** One failure for each check that finds something, in the order of the checks. */
  method Collect(name: string, found: Findings) returns (failures: seq<Failure>)
    ensures forall f :: f in failures <==> Finds(f, name, found)
  {
    hide When;
    var expired := When(found.expired, Expired(name)) + [];
    var review := When(found.review, NeedsReview(name)) + expired;
    var prohibited := When(found.prohibited, IsProhibited(name)) + review;
    var stale := When(found.stale, StaleException(name)) + prohibited;
    var class_ := When(found.class_, ClassMismatch(name)) + stale;
    failures := When(found.pin, PinMismatch(name)) + class_;
    forall f
      ensures f in failures <==> Finds(f, name, found)
    {
      InWhen(found.expired, Expired(name), [], f);
      InWhen(found.review, NeedsReview(name), expired, f);
      InWhen(found.prohibited, IsProhibited(name), review, f);
      InWhen(found.stale, StaleException(name), prohibited, f);
      InWhen(found.class_, ClassMismatch(name), stale, f);
      InWhen(found.pin, PinMismatch(name), class_, f);
    }
  }

  /** One round of the loop of `validate_license_inventory`; None when it raises. */
  method ValidatePackage(package: Fields, policy: Policy, today: int, rt: Runtime) returns (failures: Option<seq<Failure>>)
    ensures failures.None? <==> Expected(package, policy, today, rt).None?
    ensures failures.Some? ==>
              forall f :: f in failures.value <==> Reported(f, package, Expected(package, policy, today, rt).value, today, rt)
  {
    hide FindingsOf, NameOf, Expected, Evidence;
    var name := NameOf(package, rt);
    var expected := Expected(package, policy, today, rt);
    if expected.None? {
      return None;
    }
    var found := Collect(name, FindingsOf(package, expected.value, today, rt));
    return Some(found);
  }

  function Packages(inventory: Fields): seq<Value> {
    if Get(inventory, "packages").List? then Get(inventory, "packages").items else []
  }

  predicate SoundHeader(inventory: Fields, rt: Runtime) {
    && Get(inventory, "schema_version") == Str("lotus.license-ip-inventory.v1")
    && Get(inventory, "service_name") == Str("lotus-advise")
    && Strip(TextOf(Get(inventory, "git_commit_sha"), rt)) != ""
    && Strip(TextOf(Get(inventory, "image_digest"), rt)) != ""
    && Packages(inventory) != []
  }

  /** A package that nothing is reported for. */
  predicate ValidPackage(package: Fields, policy: Policy, today: int, rt: Runtime) {
    var expected := Expected(package, policy, today, rt);
    && expected.Some?
    && Get(package, "metadata_matches_requirement_pin") != Bool(false)
    && TextOf(Get(package, "policy_classification"), rt) == ClassName(expected.value.0)
    && (expected.value.0 == ApprovedException || expected.value.0 == Allowed)
    && Evidence(package, rt) == ExpectedEvidence(expected.value, rt)
    && (expected.value.1.Some? ==> Expiry(expected.value.1.value, rt).Some? && today <= Expiry(expected.value.1.value, rt).value)
  }

  predicate ValidInventory(inventory: Fields, policy: Policy, today: int, rt: Runtime) {
    && SoundHeader(inventory, rt)
    && forall i | 0 <= i < |Packages(inventory)| ::
         Packages(inventory)[i].Obj? && ValidPackage(Packages(inventory)[i].m, policy, today, rt)
  }

  lemma ExpectedExpires(package: Fields, policy: Policy, today: int, rt: Runtime)
    requires Expected(package, policy, today, rt).Some?
    ensures Expected(package, policy, today, rt).value.1.Some? ==>
              Expiry(Expected(package, policy, today, rt).value.1.value, rt).Some?
  {
  }

  /** What is reported for the inventory itself. */
  predicate HeaderReported(f: Failure, inventory: Fields, rt: Runtime) {
    match f
    case SchemaVersion => Get(inventory, "schema_version") != Str("lotus.license-ip-inventory.v1")
    case ServiceName => Get(inventory, "service_name") != Str("lotus-advise")
    case NoCommit => Strip(TextOf(Get(inventory, "git_commit_sha"), rt)) == ""
    case NoDigest => Strip(TextOf(Get(inventory, "image_digest"), rt)) == ""
    case NoPackages => Packages(inventory) == []
    case _ => false
  }

  predicate PackageReported(f: Failure, v: Value, policy: Policy, today: int, rt: Runtime) {
    v.Obj? && Expected(v.m, policy, today, rt).Some? && Reported(f, v.m, Expected(v.m, policy, today, rt).value, today, rt)
  }

  /** All that is reported: for the header, and for the packages. */
  predicate InventoryReported(f: Failure, inventory: Fields, policy: Policy, today: int, rt: Runtime) {
    || HeaderReported(f, inventory, rt)
    || exists i | 0 <= i < |Packages(inventory)| :: PackageReported(f, Packages(inventory)[i], policy, today, rt)
  }

  /** Every package can be read and classified. */
  predicate Readable(inventory: Fields, policy: Policy, today: int, rt: Runtime) {
    forall i | 0 <= i < |Packages(inventory)| ::
      Packages(inventory)[i].Obj? && Expected(Packages(inventory)[i].m, policy, today, rt).Some?
  }

  method ValidateHeader(inventory: Fields, rt: Runtime) returns (found: seq<Failure>)
    ensures forall f :: f in found <==> HeaderReported(f, inventory, rt)
  {
    hide TextOf, Strip;
    found := [];
    if Get(inventory, "schema_version") != Str("lotus.license-ip-inventory.v1") {
      found := found + [SchemaVersion];
    }
    if Get(inventory, "service_name") != Str("lotus-advise") {
      found := found + [ServiceName];
    }
    if Strip(TextOf(Get(inventory, "git_commit_sha"), rt)) == "" {
      found := found + [NoCommit];
    }
    if Strip(TextOf(Get(inventory, "image_digest"), rt)) == "" {
      found := found + [NoDigest];
    }
    if Packages(inventory) == [] {
      found := found + [NoPackages];
    }
  }

  /** `validate_license_inventory`; None when it raises.  It reports exactly what there is to report. */
  method ValidateInventory(inventory: Fields, policy: Policy, today: int, rt: Runtime) returns (failures: Option<seq<Failure>>)
    ensures failures.Some? <==> Readable(inventory, policy, today, rt)
    ensures failures.Some? ==> forall f :: f in failures.value <==> InventoryReported(f, inventory, policy, today, rt)
    ensures failures.Some? ==> (failures.value == [] <==> ValidInventory(inventory, policy, today, rt))
  {
    hide Reported, Expected, ValidPackage, HeaderReported, SoundHeader;
    var found := ValidateHeader(inventory, rt);
    var packages := Packages(inventory);
    HeaderSoundIff(inventory, rt);
    ghost var header := found;
    if packages == [] {
      NothingListedIff(header, inventory, policy, today, rt);
      return Some(found);
    }
    for i := 0 to |packages|
      invariant forall k | 0 <= k < i :: packages[k].Obj? && Expected(packages[k].m, policy, today, rt).Some?
      invariant forall f :: f in found <==>
                  f in header || exists k | 0 <= k < i :: PackageReported(f, packages[k], policy, today, rt)
    {
      if !packages[i].Obj? {
        return None;
      }
      var more := ValidatePackage(packages[i].m, policy, today, rt);
      if more.None? {
        return None;
      }
      found := found + more.value;
    }
    NothingListedIff(found, inventory, policy, today, rt);
    return Some(found);
  }

  lemma HeaderSoundIff(inventory: Fields, rt: Runtime)
    ensures SoundHeader(inventory, rt) <==> forall f :: !HeaderReported(f, inventory, rt)
  {
    hide TextOf, Strip;
    if forall f :: !HeaderReported(f, inventory, rt) {
      assert !HeaderReported(SchemaVersion, inventory, rt) && !HeaderReported(ServiceName, inventory, rt);
      assert !HeaderReported(NoCommit, inventory, rt) && !HeaderReported(NoDigest, inventory, rt);
      assert !HeaderReported(NoPackages, inventory, rt);
    }
  }

  lemma NothingListedIff(failures: seq<Failure>, inventory: Fields, policy: Policy, today: int, rt: Runtime)
    requires Readable(inventory, policy, today, rt)
    requires forall f :: f in failures <==> InventoryReported(f, inventory, policy, today, rt)
    ensures failures == [] <==> ValidInventory(inventory, policy, today, rt)
  {
    hide Reported, Expected, ValidPackage, HeaderReported, SoundHeader;
    HeaderSoundIff(inventory, rt);
    forall i | 0 <= i < |Packages(inventory)|
      ensures ValidPackage(Packages(inventory)[i].m, policy, today, rt)
         <==> forall f :: !PackageReported(f, Packages(inventory)[i], policy, today, rt)
    {
      PackageSilentIff(Packages(inventory)[i], policy, today, rt);
    }
    forall i, f | 0 <= i < |Packages(inventory)| && PackageReported(f, Packages(inventory)[i], policy, today, rt)
      ensures InventoryReported(f, inventory, policy, today, rt)
    {
    }
    if failures == [] {
      forall f
        ensures !InventoryReported(f, inventory, policy, today, rt)
      {
        assert f !in failures;
      }
      assert forall f :: HeaderReported(f, inventory, rt) ==> InventoryReported(f, inventory, policy, today, rt);
      assert SoundHeader(inventory, rt);
      forall i | 0 <= i < |Packages(inventory)|
        ensures ValidPackage(Packages(inventory)[i].m, policy, today, rt)
      {
        assert forall f :: PackageReported(f, Packages(inventory)[i], policy, today, rt) ==> InventoryReported(f, inventory, policy, today, rt);
      }
    } else {
      assert failures[0] in failures;
    }
  }

  /** Nothing is reported for a package exactly when it is valid. */
  lemma PackageSilentIff(v: Value, policy: Policy, today: int, rt: Runtime)
    requires v.Obj? && Expected(v.m, policy, today, rt).Some?
    ensures ValidPackage(v.m, policy, today, rt) <==> forall f :: !PackageReported(f, v, policy, today, rt)
  {
    hide *;
    if forall f :: !PackageReported(f, v, policy, today, rt) {
      SilentIsValid(v, policy, today, rt);
    }
    if ValidPackage(v.m, policy, today, rt) {
      forall f
        ensures !PackageReported(f, v, policy, today, rt)
      {
        ValidIsSilent(v, policy, today, rt, f);
      }
    }
  }

  lemma SilentIsValid(v: Value, policy: Policy, today: int, rt: Runtime)
    requires v.Obj? && Expected(v.m, policy, today, rt).Some?
    requires forall f :: !PackageReported(f, v, policy, today, rt)
    ensures ValidPackage(v.m, policy, today, rt)
  {
    hide Evidence, TextOf, ClassName, Truthy, Classify;
    var expected, n := Expected(v.m, policy, today, rt).value, NameOf(v.m, rt);
    ExpectedExpires(v.m, policy, today, rt);
    assert !PackageReported(PinMismatch(n), v, policy, today, rt) && !PackageReported(ClassMismatch(n), v, policy, today, rt);
    assert !PackageReported(StaleException(n), v, policy, today, rt) && !PackageReported(Expired(n), v, policy, today, rt);
    assert !PackageReported(IsProhibited(n), v, policy, today, rt) && !PackageReported(NeedsReview(n), v, policy, today, rt);
  }

  lemma ValidIsSilent(v: Value, policy: Policy, today: int, rt: Runtime, f: Failure)
    requires v.Obj? && ValidPackage(v.m, policy, today, rt)
    ensures !PackageReported(f, v, policy, today, rt)
  {
    hide Evidence, TextOf, ClassName, Truthy, Classify;
    ClassNamesDistinct(ApprovedException, Prohibited);
    ClassNamesDistinct(ApprovedException, ReviewRequired);
    ClassNamesDistinct(Allowed, Prohibited);
    ClassNamesDistinct(Allowed, ReviewRequired);
  }

  // ----- build, then validate -----

  /**
   A record that is built and validated under one policy on one day never shows a class that differs from the
   policy's; it shows stale exception evidence exactly when its exception carries conflicting keys; and it is valid
   exactly when moreover its metadata matches the pin, its class is good and its exception, if any, has not expired.
   */
  lemma BuildThenValidate(name: string, root: Option<Root>, distribution: Option<Distribution>, groups: Value,
                          policy: Policy, today: int, rt: Runtime)
    requires Faithful(rt) && RecordOf(name, root, distribution, groups, policy, today, rt).Some?
    ensures var record := RecordOf(name, root, distribution, groups, policy, today, rt).value;
            var classified := Classify(name, TermOf(root, distribution), policy, today, rt).value;
            var exception := if classified.1.Some? then classified.1.value else map[];
            && Expected(record, policy, today, rt) == Some(classified)
            && (forall f | Reported(f, record, classified, today, rt) :: !f.ClassMismatch?)
            && (Reported(StaleException(name), record, classified, today, rt) <==> Conflicts(exception, rt))
            && (ValidPackage(record, policy, today, rt) <==>
                  && MatchesPin(root, distribution) && !Conflicts(exception, rt)
                  && (classified.0 == ApprovedException || (classified.0 == Allowed && classified.1.None?)))
  {
    hide Evidence, Conflicts, IdentityFields, LicenseFields, ClassName, Matching, ClassOfTerm;
    var record := RecordOf(name, root, distribution, groups, policy, today, rt).value;
    var term := TermOf(root, distribution);
    var (class_, found) := Classify(name, term, policy, today, rt).value;
    var exception := if found.Some? then found.value else map[];
    IdentityReads(name, root, distribution, groups);
    LicenseReads(term, class_, exception, MatchesPin(root, distribution));
    LicenseReadsException(term, class_, exception, MatchesPin(root, distribution));
    RecordEvidenceIff(record, exception, rt);
    ClassNamesDistinct(class_, class_);
    TextOfString(name, rt);
    TextOfString(term, rt);
    TextOfString(ClassName(class_), rt);
    assert Get(record, "name") == Str(name) && Get(record, "license_term") == Str(term);
    assert Expected(record, policy, today, rt) == Some((class_, found));
    assert Get(record, "id") == Null && Get(record, "owner") == Null && Get(record, "expires_on") == Null;
    assert Evidence(record, rt) == Evidence(exception, rt) <==> !Conflicts(exception, rt);
    assert TextOf(Get(record, "policy_classification"), rt) == ClassName(class_);
  }

  /** How the policy classifies a package of the graph on that day. */
  function ClassifiedFor(name: string, roots: map<string, Root>, index: map<string, Distribution>, policy: Policy, today: int, rt: Runtime)
    : Option<(Class, Option<Fields>)>
  {
    Classify(name, TermOf(Lookup(roots, name), Lookup(index, name)), policy, today, rt)
  }

  /** The exception that the policy has for the package carries conflicting keys. */
  predicate ConflictsFor(name: string, roots: map<string, Root>, index: map<string, Distribution>, policy: Policy, today: int, rt: Runtime) {
    var classified := ClassifiedFor(name, roots, index, policy, today, rt);
    classified.Some? && classified.value.1.Some? && Conflicts(classified.value.1.value, rt)
  }

  /** The package's metadata matches its pin, its exception has no conflicting keys, and its class is good. */
  predicate GoodFor(name: string, roots: map<string, Root>, index: map<string, Distribution>, policy: Policy, today: int, rt: Runtime) {
    var classified := ClassifiedFor(name, roots, index, policy, today, rt);
    && MatchesPin(Lookup(roots, name), Lookup(index, name)) && !ConflictsFor(name, roots, index, policy, today, rt)
    && classified.Some?
    && (classified.value.0 == ApprovedException || (classified.value.0 == Allowed && classified.value.1.None?))
  }

  /** `BuildThenValidate` for the record of one package of the graph. */
  lemma RecordReported(name: string, roots: map<string, Root>, membership: map<string, Value>, index: map<string, Distribution>,
                       policy: Policy, today: int, rt: Runtime, record: Fields)
    requires Faithful(rt) && Some(record) == RecordFor(name, roots, membership, index, policy, today, rt)
    ensures Expected(record, policy, today, rt).Some? && NameOf(record, rt) == name
    ensures forall n :: !PackageReported(ClassMismatch(n), Obj(record), policy, today, rt)
    ensures forall n :: PackageReported(StaleException(n), Obj(record), policy, today, rt) <==>
                          n == name && ConflictsFor(name, roots, index, policy, today, rt)
    ensures ValidPackage(record, policy, today, rt) <==> GoodFor(name, roots, index, policy, today, rt)
  {
    hide ValidPackage, FindingsOf, Expected, Classify, Evidence, Conflicts, TextOf;
    var root, distribution := Lookup(roots, name), Lookup(index, name);
    BuildThenValidate(name, root, distribution, Get(membership, name), policy, today, rt);
    RecordName(name, root, distribution, Get(membership, name), policy, today, rt);
    NoConflicts(rt);
  }

  lemma RecordName(name: string, root: Option<Root>, distribution: Option<Distribution>, groups: Value, policy: Policy, today: int, rt: Runtime)
    requires Faithful(rt) && RecordOf(name, root, distribution, groups, policy, today, rt).Some?
    ensures NameOf(RecordOf(name, root, distribution, groups, policy, today, rt).value, rt) == name
  {
    hide IdentityFields, LicenseFields, Classify;
    var (class_, found) := Classify(name, TermOf(root, distribution), policy, today, rt).value;
    IdentityReads(name, root, distribution, groups);
    LicenseReads(TermOf(root, distribution), class_, if found.Some? then found.value else map[], MatchesPin(root, distribution));
    TextOfString(name, rt);
  }

  lemma NoConflicts(rt: Runtime)
    ensures !Conflicts(map[], rt)
  {
  }

  /** The inventory lists these records. */
  predicate Lists(inventory: Fields, records: seq<Fields>) {
    && |Packages(inventory)| == |records|
    && forall i | 0 <= i < |records| :: Packages(inventory)[i] == Obj(records[i])
  }

  /**
   An inventory that is built and validated under one policy on one day never shows class drift; it shows stale
   exception evidence for exactly the packages whose exceptions carry conflicting keys; and it is valid exactly when
   its header is sound and every package of the graph is good.
   */
  lemma BuildInventoryThenValidate(inventory: Fields, records: seq<Fields>, names: seq<string>, roots: map<string, Root>,
                                   membership: map<string, Value>, index: map<string, Distribution>, policy: Policy, today: int, rt: Runtime)
    requires Faithful(rt) && Lists(inventory, records)
    requires BuiltRecords(records, names, roots, membership, index, policy, today, rt)
    ensures Readable(inventory, policy, today, rt)
    ensures forall n :: !InventoryReported(ClassMismatch(n), inventory, policy, today, rt)
    ensures forall n :: InventoryReported(StaleException(n), inventory, policy, today, rt) <==>
                          n in membership && ConflictsFor(n, roots, index, policy, today, rt)
    ensures ValidInventory(inventory, policy, today, rt) <==>
            SoundHeader(inventory, rt) && forall n | n in membership :: GoodFor(n, roots, index, policy, today, rt)
  {
    hide PackageReported, ConflictsFor, GoodFor, ValidPackage, Expected, RecordFor, SoundHeader, LexLe;
    forall i | 0 <= i < |records|
      ensures Expected(records[i], policy, today, rt).Some?
      ensures forall n :: !PackageReported(ClassMismatch(n), Packages(inventory)[i], policy, today, rt)
      ensures forall n :: PackageReported(StaleException(n), Packages(inventory)[i], policy, today, rt) <==>
                            n == names[i] && ConflictsFor(names[i], roots, index, policy, today, rt)
      ensures ValidPackage(records[i], policy, today, rt) <==> GoodFor(names[i], roots, index, policy, today, rt)
      ensures names[i] in membership
    {
      RecordReported(names[i], roots, membership, index, policy, today, rt, records[i]);
      assert names[i] in membership.Keys;
    }
    forall n | n in membership
      ensures exists i | 0 <= i < |names| :: names[i] == n
    {
      assert n in names;
    }
  }

  /** Evidence can be stale from the start: an exception with an `exception_id` of its own. */
  lemma OwnExceptionIdIsStale(name: string, root: Root, version: string, groups: Value, today: int, expires: string, rt: Runtime)
    requires Faithful(rt) && name != "" && expires != "" && root.pinned == Some(version)
    requires rt.date(expires).Some? && today <= rt.date(expires).value
    ensures var exception := map["package" := Str(name), "license_term" := Str("*"), "id" := Str("A"), "exception_id" := Str("B"),
                                 "expires_on" := Str(expires)];
            var policy := Policy({}, {}, {}, [exception]);
            var record := RecordOf(name, Some(root), Some(Distribution(version, "MIT")), groups, policy, today, rt);
            record.Some? && PackageReported(StaleException(name), Obj(record.value), policy, today, rt)
  {
    hide Canonical, ClassOfTerm, IdentityFields, LicenseFields, Evidence, ClassName;
    var exception := map["package" := Str(name), "license_term" := Str("*"), "id" := Str("A"), "exception_id" := Str("B"),
                         "expires_on" := Str(expires)];
    var policy := Policy({}, {}, {}, [exception]);
    var root', distribution := Some(root), Some(Distribution(version, "MIT"));
    assert Get(exception, "package") == Str(name) && Get(exception, "license_term") == Str("*");
    assert Get(exception, "id") == Str("A") && Get(exception, "exception_id") == Str("B") && Get(exception, "expires_on") == Str(expires);
    hide *;
    SoleExceptionApplies(exception, name, "MIT", expires, policy, today, rt);
    assert TermOf(root', distribution) == "MIT" by {
      TermOfMatching(root, version, "MIT");
    }
    OwnIdConflicts(exception, rt);
    RecordWhenClassified(name, root', distribution, groups, policy, today, rt);
    BuildThenValidate(name, root', distribution, groups, policy, today, rt);
    var record := RecordOf(name, root', distribution, groups, policy, today, rt).value;
    ReportedOfPackage(record, policy, today, rt, StaleException(name));
  }

  lemma SoleExceptionApplies(exception: Fields, name: string, term: string, expires: string, policy: Policy, today: int, rt: Runtime)
    requires Faithful(rt) && policy.exceptions == [exception]
    requires Get(exception, "package") == Str(name) && Get(exception, "license_term") == Str("*") && Get(exception, "expires_on") == Str(expires)
    requires expires != ""
    requires rt.date(expires).Some? && today <= rt.date(expires).value
    ensures Classify(name, term, policy, today, rt) == Some((ApprovedException, Some(exception)))
  {
    hide Canonical;
    TextOfString(name, rt);
    TextOfString("*", rt);
  }

  lemma TermOfMatching(root: Root, version: string, term: string)
    requires root.pinned == Some(version)
    ensures TermOf(Some(root), Some(Distribution(version, term))) == term
  {
  }

  lemma OwnIdConflicts(exception: Fields, rt: Runtime)
    requires Faithful(rt) && Get(exception, "id") == Str("A") && Get(exception, "exception_id") == Str("B")
    ensures Conflicts(exception, rt)
  {
    assert "A"[0] != "B"[0];
  }

  lemma RecordWhenClassified(name: string, root: Option<Root>, distribution: Option<Distribution>, groups: Value,
                             policy: Policy, today: int, rt: Runtime)
    requires Classify(name, TermOf(root, distribution), policy, today, rt).Some?
    ensures RecordOf(name, root, distribution, groups, policy, today, rt).Some?
  {
  }

  lemma ReportedOfPackage(package: Fields, policy: Policy, today: int, rt: Runtime, f: Failure)
    requires Expected(package, policy, today, rt).Some?
    ensures PackageReported(f, Obj(package), policy, today, rt)
       <==> Reported(f, package, Expected(package, policy, today, rt).value, today, rt)
  {
  }

  lemma TextOfString(s: string, rt: Runtime)
    requires Faithful(rt)
    ensures TextOf(Str(s), rt) == s
  {
  }

  // ----- validity over time -----

  /** The exception that applies to a package, if any, has not expired. */
  predicate Unexpired(package: Fields, policy: Policy, today: int, rt: Runtime) {
    var exception := Matching(policy.exceptions, NameOf(package, rt), TextOf(Get(package, "license_term"), rt), rt);
    exception.Some? ==> Expiry(exception.value, rt).Some? && today <= Expiry(exception.value, rt).value
  }

  lemma PackageValidThroughIff(package: Fields, policy: Policy, day: int, other: int, rt: Runtime)
    requires ValidPackage(package, policy, day, rt)
    ensures ValidPackage(package, policy, other, rt) <==> Unexpired(package, policy, other, rt)
    ensures other <= day ==> ValidPackage(package, policy, other, rt)
  {
  }

  /**
   An inventory that is valid on some day is valid on every earlier day, and on a later one exactly when no exception
   that applies to one of its packages has expired by then.
   */
  lemma {:induction false} ValidThroughIff(inventory: Fields, policy: Policy, day: int, other: int, rt: Runtime)
    requires ValidInventory(inventory, policy, day, rt)
    ensures ValidInventory(inventory, policy, other, rt) <==>
            forall i | 0 <= i < |Packages(inventory)| :: Unexpired(Packages(inventory)[i].m, policy, other, rt)
    ensures other <= day ==> ValidInventory(inventory, policy, other, rt)
  {
    hide ValidPackage, Unexpired, SoundHeader;
    forall i | 0 <= i < |Packages(inventory)|
      ensures ValidPackage(Packages(inventory)[i].m, policy, other, rt) <==> Unexpired(Packages(inventory)[i].m, policy, other, rt)
      ensures other <= day ==> ValidPackage(Packages(inventory)[i].m, policy, other, rt)
    {
      PackageValidThroughIff(Packages(inventory)[i].m, policy, day, other, rt);
    }
  }
}
