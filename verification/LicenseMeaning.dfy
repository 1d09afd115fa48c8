/** What license classes, evidence and failures mean in terms of the policy's sets and exceptions alone. */
module LicenseMeaning {
  import opened Wrappers
  import opened Text
  import opened Sorting
  import opened Packaging
  import opened Json
  import opened LicenseTerms
  import opened LicenseInventory

  // ----- reading JSON fields -----

  /** What counts as nothing: null, false, zero, and everything empty. */
  predicate IsNothing(v: Value) {
    || v == Null || v == Bool(false) || v == Int(0) || v == Str("") || v == List([]) || v == Obj(map[])
    || (v.Fraction? && !Truthy(v))
  }

  /** `text` is what a field shows: nothing for an absent or empty one. */
  predicate Shows(fields: Fields, key: string, text: string, rt: Runtime) {
    if key !in fields || IsNothing(fields[key]) then text == "" else text == rt.shown(fields[key])
  }

  lemma ShowsExact(fields: Fields, key: string, text: string, rt: Runtime)
    ensures Shows(fields, key, text, rt) <==> text == TextOf(Get(fields, key), rt)
    ensures key !in fields || IsNothing(fields[key]) <==> !Truthy(Get(fields, key))
  {
  }

  // ----- exceptions -----

  /** The exception is for this package, and for this term or any. */
  ghost predicate Covers(exception: Fields, name: string, term: string, rt: Runtime) {
    && (exists package: string :: Shows(exception, "package", package, rt) && SameName(package, name))
    && (Shows(exception, "license_term", "*", rt) || Shows(exception, "license_term", term, rt))
  }

  /** The i-th exception of the policy is the first one for this package and term. */
  ghost predicate First(policy: Policy, name: string, term: string, rt: Runtime, i: nat) {
    && i < |policy.exceptions|
    && Covers(policy.exceptions[i], name, term, rt)
    && forall j | 0 <= j < i :: !Covers(policy.exceptions[j], name, term, rt)
  }

  /** The last day of an exception; one without an expiry ended in 1970. */
  ghost predicate EndsOn(exception: Fields, day: int, rt: Runtime) {
    exists text: string ::
      && Shows(exception, "expires_on", text, rt)
      && rt.date(if IsNothing(Get(exception, "expires_on")) then "1970-01-01" else text) == Some(day)
  }

  /** The first exception for the package and term has not expired. */
  ghost predicate Waived(policy: Policy, name: string, term: string, today: int, rt: Runtime) {
    exists i: nat, day: int :: First(policy, name, term, rt, i) && EndsOn(policy.exceptions[i], day, rt) && today <= day
  }

  /** The term needs neither an exception nor a review: it is allowed, and nothing speaks against it. */
  predicate Harmless(policy: Policy, term: string) {
    term !in policy.prohibited && term !in policy.review && term != "" && term != "UNKNOWN" && AllTermsAllowed(term, policy.allowed)
  }

  lemma CoversExact(exception: Fields, name: string, term: string, rt: Runtime)
    ensures Covers(exception, name, term, rt) <==> Matches(exception, name, term, rt)
  {
    hide SameName, Canonical, TextOf, Shows;
    var package := TextOf(Get(exception, "package"), rt);
    ShowsExact(exception, "package", package, rt);
    ShowsExact(exception, "license_term", "*", rt);
    ShowsExact(exception, "license_term", term, rt);
    CanonicalEqualIff(package, name);
    forall other: string | Shows(exception, "package", other, rt)
      ensures other == package
    {
      ShowsExact(exception, "package", other, rt);
    }
  }

  lemma EndsExact(exception: Fields, day: int, rt: Runtime)
    ensures EndsOn(exception, day, rt) <==> Expiry(exception, rt) == Some(day)
  {
    hide Shows;
    var text := TextOf(Get(exception, "expires_on"), rt);
    ShowsExact(exception, "expires_on", text, rt);
    forall other: string | Shows(exception, "expires_on", other, rt)
      ensures other == text
    {
      ShowsExact(exception, "expires_on", other, rt);
    }
    assert IsNothing(Get(exception, "expires_on")) <==> !Truthy(Get(exception, "expires_on"));
  }

  /** The matching exception is the first one that covers package and term. */
  lemma {:induction false} MatchingExact(policy: Policy, name: string, term: string, rt: Runtime)
    ensures Matching(policy.exceptions, name, term, rt).None? <==> forall i: nat :: !First(policy, name, term, rt, i)
    ensures forall i: nat | First(policy, name, term, rt, i) :: Matching(policy.exceptions, name, term, rt) == Some(policy.exceptions[i])
    decreases |policy.exceptions|
  {
    hide Covers, Matches;
    if policy.exceptions == [] {
      assert Matching(policy.exceptions, name, term, rt).None?;
    } else {
      var rest := policy.(exceptions := policy.exceptions[1..]);
      CoversExact(policy.exceptions[0], name, term, rt);
      MatchingExact(rest, name, term, rt);
      if Covers(policy.exceptions[0], name, term, rt) {
        assert First(policy, name, term, rt, 0);
      } else {
        FirstShift(policy, rest, name, term, rt);
      }
    }
  }

  lemma FirstShift(policy: Policy, rest: Policy, name: string, term: string, rt: Runtime)
    requires policy.exceptions != [] && rest.exceptions == policy.exceptions[1..]
    requires !Covers(policy.exceptions[0], name, term, rt)
    ensures forall i: nat :: First(rest, name, term, rt, i) <==> First(policy, name, term, rt, i + 1)
    ensures !First(policy, name, term, rt, 0)
    ensures forall i: nat | First(policy, name, term, rt, i) :: First(rest, name, term, rt, i - 1)
  {
    hide Covers;
    forall i: nat
      ensures First(rest, name, term, rt, i) <==> First(policy, name, term, rt, i + 1)
    {
      if i < |rest.exceptions| {
        assert rest.exceptions[i] == policy.exceptions[i + 1];
        assert forall j | 0 <= j < i :: rest.exceptions[j] == policy.exceptions[j + 1];
        assert forall j | 1 <= j < i + 1 :: policy.exceptions[j] == rest.exceptions[j - 1];
      }
    }
    forall i: nat | First(policy, name, term, rt, i)
      ensures First(rest, name, term, rt, i - 1)
    {
      assert i != 0;
      assert First(policy, name, term, rt, (i - 1) + 1);
    }
  }

  // ----- the four classes -----

  /**
   Classification fails exactly when the first exception for package and term has no readable end.  Otherwise the
   four classes have these meanings, and the exception is the first one, expired or not.
   */
  lemma ClassExact(name: string, term: string, policy: Policy, today: int, rt: Runtime)
    ensures var r := Classify(name, term, policy, today, rt);
            && (r.None? <==> exists i: nat :: First(policy, name, term, rt, i) && forall day: int :: !EndsOn(policy.exceptions[i], day, rt))
            && (r.Some? ==>
                  && (r.value.0 == ApprovedException <==> Waived(policy, name, term, today, rt))
                  && (r.value.0 == Prohibited <==> !Waived(policy, name, term, today, rt) && term in policy.prohibited)
                  && (r.value.0 == Allowed <==> !Waived(policy, name, term, today, rt) && Harmless(policy, term))
                  && (r.value.0 == ReviewRequired <==>
                        !Waived(policy, name, term, today, rt) && term !in policy.prohibited && !Harmless(policy, term))
                  && (forall i: nat | First(policy, name, term, rt, i) :: r.value.1 == Some(policy.exceptions[i]))
                  && (r.value.1 == None <==> forall i: nat :: !First(policy, name, term, rt, i)))
  {
    hide Covers, Expiry, EndsOn, Matching, AllTermsAllowed;
    MatchingExact(policy, name, term, rt);
    if i: nat :| First(policy, name, term, rt, i) {
      var exception := policy.exceptions[i];
      forall day: int
        ensures EndsOn(exception, day, rt) <==> Expiry(exception, rt) == Some(day)
      {
        EndsExact(exception, day, rt);
      }
      OnlyOneFirst(policy, name, term, rt, i);
      if Expiry(exception, rt).Some? {
        assert EndsOn(exception, Expiry(exception, rt).value, rt);
      }
    }
  }

  lemma OnlyOneFirst(policy: Policy, name: string, term: string, rt: Runtime, i: nat)
    requires First(policy, name, term, rt, i)
    ensures forall j: nat | First(policy, name, term, rt, j) :: j == i
  {
    hide Covers;
  }

  // ----- exception evidence -----

  /** What the fields give under the first key, or else under the second. */
  predicate Cites(fields: Fields, first: string, second: string, text: Option<string>, rt: Runtime) {
    if first in fields && !IsNothing(fields[first]) then text == Some(rt.shown(fields[first]))
    else if second in fields && !IsNothing(fields[second]) then text == Some(rt.shown(fields[second]))
    else text == None
  }

  /** Package and exception give the same id, owner and expiry. */
  ghost predicate SameEvidence(package: Fields, exception: Fields, rt: Runtime) {
    && (exists text :: Cites(package, "exception_id", "id", text, rt) && Cites(exception, "exception_id", "id", text, rt))
    && (exists text :: Cites(package, "exception_owner", "owner", text, rt) && Cites(exception, "exception_owner", "owner", text, rt))
    && (exists text :: Cites(package, "exception_expires_on", "expires_on", text, rt)
                       && Cites(exception, "exception_expires_on", "expires_on", text, rt))
  }

  lemma CitesExact(fields: Fields, first: string, second: string, rt: Runtime)
    ensures forall text :: Cites(fields, first, second, text, rt) <==> text == Evident(Either(fields, first, second), rt)
  {
    ShowsExact(fields, first, "", rt);
    ShowsExact(fields, second, "", rt);
  }

  lemma EvidenceExact(package: Fields, exception: Fields, rt: Runtime)
    ensures SameEvidence(package, exception, rt) <==> Evidence(package, rt) == Evidence(exception, rt)
  {
    hide Cites, Evident, Either;
    CitesExact(package, "exception_id", "id", rt);
    CitesExact(exception, "exception_id", "id", rt);
    CitesExact(package, "exception_owner", "owner", rt);
    CitesExact(exception, "exception_owner", "owner", rt);
    CitesExact(package, "exception_expires_on", "expires_on", rt);
    CitesExact(exception, "exception_expires_on", "expires_on", rt);
    assert Cites(package, "exception_id", "id", Evident(Either(package, "exception_id", "id"), rt), rt);
    assert Cites(package, "exception_owner", "owner", Evident(Either(package, "exception_owner", "owner"), rt), rt);
    assert Cites(package, "exception_expires_on", "expires_on",
                 Evident(Either(package, "exception_expires_on", "expires_on"), rt), rt);
  }

  // ----- what is reported -----

  /** The class that the policy gives, as inventories spell it. */
  ghost function ClassWord(policy: Policy, name: string, term: string, today: int, rt: Runtime): string {
    if Waived(policy, name, term, today, rt) then "APPROVED_EXCEPTION"
    else if term in policy.prohibited then "PROHIBITED"
    else if Harmless(policy, term) then "ALLOWED"
    else "REVIEW_REQUIRED"
  }

  /** `evidence` holds what there is to cite: the first exception for package and term, or nothing. */
  ghost predicate Citable(policy: Policy, name: string, term: string, rt: Runtime, evidence: Fields) {
    || (exists i: nat :: First(policy, name, term, rt, i) && evidence == policy.exceptions[i])
    || ((forall i: nat :: !First(policy, name, term, rt, i)) && evidence == map[])
  }

  /** What each failure says of a package with this name and license term. */
  ghost predicate Means(f: Failure, package: Fields, name: string, term: string, policy: Policy, today: int, rt: Runtime) {
    match f
    case PinMismatch(n) => n == name && Get(package, "metadata_matches_requirement_pin") == Bool(false)
    case ClassMismatch(n) => n == name && !Shows(package, "policy_classification", ClassWord(policy, name, term, today, rt), rt)
    case StaleException(n) => n == name && exists e: Fields :: Citable(policy, name, term, rt, e) && !SameEvidence(package, e, rt)
    case IsProhibited(n) => n == name && Shows(package, "policy_classification", "PROHIBITED", rt)
    case NeedsReview(n) => n == name && Shows(package, "policy_classification", "REVIEW_REQUIRED", rt)
    case Expired(n) => n == name && exists i: nat, day: int :: First(policy, name, term, rt, i) && EndsOn(policy.exceptions[i], day, rt) && day < today
    case _ => false
  }

  lemma ExpectedParts(package: Fields, name: string, term: string, policy: Policy, today: int, rt: Runtime)
    requires Shows(package, "name", name, rt) && Shows(package, "license_term", term, rt)
    ensures NameOf(package, rt) == name && Expected(package, policy, today, rt) == Classify(name, term, policy, today, rt)
  {
    hide Classify, Shows;
    ShowsExact(package, "name", name, rt);
    ShowsExact(package, "license_term", term, rt);
  }

  lemma ClassWordExact(name: string, term: string, policy: Policy, today: int, rt: Runtime)
    requires Classify(name, term, policy, today, rt).Some?
    ensures ClassName(Classify(name, term, policy, today, rt).value.0) == ClassWord(policy, name, term, today, rt)
  {
    hide Classify, Waived, Harmless;
    ClassExact(name, term, policy, today, rt);
  }

  lemma CitableExact(name: string, term: string, policy: Policy, today: int, rt: Runtime)
    requires Classify(name, term, policy, today, rt).Some?
    ensures var exception := Classify(name, term, policy, today, rt).value.1;
            forall e :: Citable(policy, name, term, rt, e) <==> e == if exception.Some? then exception.value else map[]
  {
    hide Classify, Covers, Waived, Harmless;
    ClassExact(name, term, policy, today, rt);
    if i: nat :| First(policy, name, term, rt, i) {
      OnlyOneFirst(policy, name, term, rt, i);
    }
  }

  lemma ExpiredExact(name: string, term: string, policy: Policy, today: int, rt: Runtime)
    requires Classify(name, term, policy, today, rt).Some?
    ensures var exception := Classify(name, term, policy, today, rt).value.1;
            (exception.Some? && Expiry(exception.value, rt).Some? && Expiry(exception.value, rt).value < today)
            <==> exists i: nat, day: int :: First(policy, name, term, rt, i) && EndsOn(policy.exceptions[i], day, rt) && day < today
  {
    hide Classify, Covers, Waived, Harmless, EndsOn, Expiry;
    ClassExact(name, term, policy, today, rt);
    if i: nat :| First(policy, name, term, rt, i) {
      OnlyOneFirst(policy, name, term, rt, i);
      var exception := policy.exceptions[i];
      forall day: int
        ensures EndsOn(exception, day, rt) <==> Expiry(exception, rt) == Some(day)
      {
        EndsExact(exception, day, rt);
      }
      if Expiry(exception, rt).Some? {
        assert EndsOn(exception, Expiry(exception, rt).value, rt);
      }
    }
  }

  /** What the checks on a package find, kind by kind. */
  lemma FoundExact(package: Fields, name: string, term: string, policy: Policy, today: int, rt: Runtime)
    requires Shows(package, "name", name, rt) && Shows(package, "license_term", term, rt)
    requires Classify(name, term, policy, today, rt).Some?
    ensures var found := FindingsOf(package, Classify(name, term, policy, today, rt).value, today, rt);
            && (found.pin <==> Means(PinMismatch(name), package, name, term, policy, today, rt))
            && (found.class_ <==> Means(ClassMismatch(name), package, name, term, policy, today, rt))
            && (found.stale <==> Means(StaleException(name), package, name, term, policy, today, rt))
            && (found.prohibited <==> Means(IsProhibited(name), package, name, term, policy, today, rt))
            && (found.review <==> Means(NeedsReview(name), package, name, term, policy, today, rt))
            && (found.expired <==> Means(Expired(name), package, name, term, policy, today, rt))
  {
    hide Classify, Shows, Evidence, SameEvidence, Citable, First, EndsOn, ClassWord, TextOf, Expiry, ClassName, Get;
    var expected := Classify(name, term, policy, today, rt).value;
    var cited: Fields := if expected.1.Some? then expected.1.value else map[];
    ClassWordExact(name, term, policy, today, rt);
    CitableExact(name, term, policy, today, rt);
    ExpiredExact(name, term, policy, today, rt);
    EvidenceExact(package, cited, rt);
    ShowsExact(package, "policy_classification", "PROHIBITED", rt);
    ShowsExact(package, "policy_classification", "REVIEW_REQUIRED", rt);
    ShowsExact(package, "policy_classification", ClassWord(policy, name, term, today, rt), rt);
    ClassSpelling();
  }

  lemma ClassSpelling()
    ensures ClassName(Prohibited) == "PROHIBITED" && ClassName(ReviewRequired) == "REVIEW_REQUIRED"
  {
  }

  /** A failure of one package speaks of its name. */
  lemma MeansOwnName(f: Failure, package: Fields, name: string, term: string, policy: Policy, today: int, rt: Runtime)
    ensures Means(f, package, name, term, policy, today, rt) ==>
              f in {PinMismatch(name), ClassMismatch(name), StaleException(name), IsProhibited(name), NeedsReview(name), Expired(name)}
  {
    hide Shows, SameEvidence, Citable, First, EndsOn, ClassWord;
  }

  lemma FindsOwnName(f: Failure, name: string, found: Findings)
    ensures Finds(f, name, found) <==>
              || (f == PinMismatch(name) && found.pin) || (f == ClassMismatch(name) && found.class_)
              || (f == StaleException(name) && found.stale) || (f == IsProhibited(name) && found.prohibited)
              || (f == NeedsReview(name) && found.review) || (f == Expired(name) && found.expired)
  {
  }

  /** For a package that is read and classified, exactly what each failure says is reported. */
  lemma ReportedExact(f: Failure, package: Fields, name: string, term: string, policy: Policy, today: int, rt: Runtime)
    requires Shows(package, "name", name, rt) && Shows(package, "license_term", term, rt)
    requires Classify(name, term, policy, today, rt).Some?
    ensures PackageReported(f, Obj(package), policy, today, rt) <==> Means(f, package, name, term, policy, today, rt)
  {
    hide *;
    ExpectedParts(package, name, term, policy, today, rt);
    ReportedOfPackage(package, policy, today, rt, f);
    FoundExact(package, name, term, policy, today, rt);
    MeansOwnName(f, package, name, term, policy, today, rt);
    ReportedFinds(f, package, Classify(name, term, policy, today, rt).value, today, rt);
    FindsOwnName(f, name, FindingsOf(package, Classify(name, term, policy, today, rt).value, today, rt));
  }

  lemma ReportedFinds(f: Failure, package: Fields, expected: (Class, Option<Fields>), today: int, rt: Runtime)
    ensures Reported(f, package, expected, today, rt) <==> Finds(f, NameOf(package, rt), FindingsOf(package, expected, today, rt))
  {
    hide FindingsOf, NameOf, Finds;
  }

  // ----- valid packages and inventories -----

  /**
   The package shows the class of its exception, together with that exception's evidence; or, having none, shows that
   it is allowed, with a term that is, and no evidence.
   */
  ghost predicate Accepted(package: Fields, name: string, term: string, policy: Policy, today: int, rt: Runtime) {
    && Get(package, "metadata_matches_requirement_pin") != Bool(false)
    && (|| (&& Waived(policy, name, term, today, rt) && Shows(package, "policy_classification", "APPROVED_EXCEPTION", rt)
            && forall i: nat | First(policy, name, term, rt, i) :: SameEvidence(package, policy.exceptions[i], rt))
        || (&& (forall i: nat :: !First(policy, name, term, rt, i)) && Harmless(policy, term)
            && Shows(package, "policy_classification", "ALLOWED", rt) && SameEvidence(package, map[], rt)))
  }

  /** A package is valid exactly when it is accepted. */
  lemma ValidExact(package: Fields, name: string, term: string, policy: Policy, today: int, rt: Runtime)
    requires Shows(package, "name", name, rt) && Shows(package, "license_term", term, rt)
    ensures ValidPackage(package, policy, today, rt) <==> Accepted(package, name, term, policy, today, rt)
  {
    ExpectedParts(package, name, term, policy, today, rt);
    ClassExact(name, term, policy, today, rt);
    ShowsExact(package, "policy_classification", "APPROVED_EXCEPTION", rt);
    ShowsExact(package, "policy_classification", "ALLOWED", rt);
    EvidenceExact(package, map[], rt);
    if Classify(name, term, policy, today, rt).Some? {
      ExpiredExact(name, term, policy, today, rt);
      if i: nat :| First(policy, name, term, rt, i) {
        OnlyOneFirst(policy, name, term, rt, i);
        EvidenceExact(package, policy.exceptions[i], rt);
        WaivedExact(policy, name, term, today, rt, i);
      }
    }
    hide Classify, Shows, Evidence, SameEvidence, First, EndsOn, TextOf, Expiry, Harmless;
  }

  lemma WaivedExact(policy: Policy, name: string, term: string, today: int, rt: Runtime, i: nat)
    requires First(policy, name, term, rt, i)
    ensures Waived(policy, name, term, today, rt)
       <==> Expiry(policy.exceptions[i], rt).Some? && today <= Expiry(policy.exceptions[i], rt).value
  {
    hide Covers, Expiry, EndsOn;
    OnlyOneFirst(policy, name, term, rt, i);
    forall day: int
      ensures EndsOn(policy.exceptions[i], day, rt) <==> Expiry(policy.exceptions[i], rt) == Some(day)
    {
      EndsExact(policy.exceptions[i], day, rt);
    }
    if Expiry(policy.exceptions[i], rt).Some? {
      assert EndsOn(policy.exceptions[i], Expiry(policy.exceptions[i], rt).value, rt);
    }
  }

  /** The field shows something besides blanks. */
  ghost predicate Filled(fields: Fields, key: string, rt: Runtime) {
    exists text: string :: Shows(fields, key, text, rt) && exists i | 0 <= i < |text| :: !IsSpace(text[i])
  }

  lemma FilledExact(fields: Fields, key: string, rt: Runtime)
    ensures Filled(fields, key, rt) <==> Strip(TextOf(Get(fields, key), rt)) != ""
  {
    hide Shows, TextOf, Strip, IsSpace;
    var text := TextOf(Get(fields, key), rt);
    BlankIff(text);
    ShowsExact(fields, key, text, rt);
    forall other: string | Shows(fields, key, other, rt)
      ensures other == text
    {
      ShowsExact(fields, key, other, rt);
    }
  }

  /** The inventory names its schema, service, commit and image, and lists packages. */
  ghost predicate Headed(inventory: Fields, items: seq<Value>, rt: Runtime) {
    && "schema_version" in inventory && inventory["schema_version"] == Str("lotus.license-ip-inventory.v1")
    && "service_name" in inventory && inventory["service_name"] == Str("lotus-advise")
    && Filled(inventory, "git_commit_sha", rt) && Filled(inventory, "image_digest", rt)
    && "packages" in inventory && inventory["packages"] == List(items) && items != []
  }

  ghost predicate AcceptedItem(item: Value, policy: Policy, today: int, rt: Runtime) {
    item.Obj? && exists name: string, term: string ::
      && Shows(item.m, "name", name, rt) && Shows(item.m, "license_term", term, rt)
      && Accepted(item.m, name, term, policy, today, rt)
  }

  lemma HeadedExact(inventory: Fields, rt: Runtime)
    ensures SoundHeader(inventory, rt) <==> Headed(inventory, Packages(inventory), rt)
  {
    hide TextOf, Strip, Filled;
    FilledExact(inventory, "git_commit_sha", rt);
    FilledExact(inventory, "image_digest", rt);
  }

  lemma AcceptedExact(item: Value, policy: Policy, today: int, rt: Runtime)
    requires item.Obj?
    ensures AcceptedItem(item, policy, today, rt) <==> ValidPackage(item.m, policy, today, rt)
  {
    hide Shows, TextOf, ValidPackage, Accepted;
    var name, term := TextOf(Get(item.m, "name"), rt), TextOf(Get(item.m, "license_term"), rt);
    ShowsExact(item.m, "name", name, rt);
    ShowsExact(item.m, "license_term", term, rt);
    ValidExact(item.m, name, term, policy, today, rt);
    forall n: string, t: string | Shows(item.m, "name", n, rt) && Shows(item.m, "license_term", t, rt)
      ensures n == name && t == term
    {
      ShowsExact(item.m, "name", n, rt);
      ShowsExact(item.m, "license_term", t, rt);
    }
  }

  /**
   Validation is silent exactly when the header is sound and every package is accepted: so a package whose term is
   prohibited, to be reviewed, empty or unknown is never passed over unless an unexpired exception covers it.
   */
  lemma SilentIff(inventory: Fields, policy: Policy, today: int, rt: Runtime)
    ensures ValidInventory(inventory, policy, today, rt)
       <==> exists items: seq<Value> ::
              Headed(inventory, items, rt) && forall i | 0 <= i < |items| :: AcceptedItem(items[i], policy, today, rt)
  {
    hide SoundHeader, ValidPackage, Accepted, Filled, Shows;
    HeadedExact(inventory, rt);
    var packages := Packages(inventory);
    forall i | 0 <= i < |packages| && packages[i].Obj?
      ensures AcceptedItem(packages[i], policy, today, rt) <==> ValidPackage(packages[i].m, policy, today, rt)
    {
      AcceptedExact(packages[i], policy, today, rt);
    }
    if ValidInventory(inventory, policy, today, rt) {
      assert Headed(inventory, packages, rt);
    }
  }

  // ----- what a built record shows -----

  /** The version of a record: the pin, or else what is installed. */
  predicate VersionShown(root: Option<Root>, distribution: Option<Distribution>, v: Value) {
    if root.Some? && root.value.pinned.Some? && root.value.pinned.value != "" then v == Str(root.value.pinned.value)
    else v == if distribution.Some? then Str(distribution.value.version) else Null
  }

  /** Installed, and at the pinned version if there is a pin. */
  predicate AtPin(root: Option<Root>, distribution: Option<Distribution>) {
    distribution.Some? && (root.None? || root.value.pinned.None? || root.value.pinned == Some(distribution.value.version))
  }

  /** The term of a record is that of matching metadata, and unknown otherwise. */
  predicate TermShown(root: Option<Root>, distribution: Option<Distribution>, term: string) {
    if AtPin(root, distribution) then term == distribution.value.term else term == "UNKNOWN"
  }

  /** What a record says of where its package comes from. */
  predicate ShowsOrigin(fields: Fields, name: string, root: Option<Root>, distribution: Option<Distribution>, groups: Value) {
    && Get(fields, "name") == Str(name) && Get(fields, "dependency_groups") == groups
    && Get(fields, "relationship") == Str(if root.Some? then "direct" else "transitive")
    && Get(fields, "declared_name") == Str(if root.Some? then root.value.declaredName else name)
    && Get(fields, "source_files") == List(if root.Some? then [Str(root.value.sourceFile)] else [])
    && VersionShown(root, distribution, Get(fields, "version"))
    && Get(fields, "installed_version") == if distribution.Some? then Str(distribution.value.version) else Null
  }

  /** What it says of its license. */
  predicate ShowsLicense(fields: Fields, term: string, word: string, e: Fields, atPin: bool) {
    && Get(fields, "license_term") == Str(term) && Get(fields, "policy_classification") == Str(word)
    && Get(fields, "exception_id") == Get(e, "id") && Get(fields, "exception_owner") == Get(e, "owner")
    && Get(fields, "exception_expires_on") == Get(e, "expires_on")
    && Get(fields, "metadata_available") == Get(fields, "metadata_matches_requirement_pin") == Bool(atPin)
  }

  lemma OriginShown(name: string, root: Option<Root>, distribution: Option<Distribution>, groups: Value)
    ensures ShowsOrigin(IdentityFields(name, root, distribution, groups), name, root, distribution, groups)
  {
  }

  lemma LicenseShown(term: string, class_: Class, e: Fields, atPin: bool)
    ensures ShowsLicense(LicenseFields(term, class_, e, atPin), term, ClassName(class_), e, atPin)
    ensures forall k | k in LicenseFields(term, class_, e, atPin) ::
              k in {"license_term", "policy_classification", "exception_id", "exception_owner", "exception_expires_on",
                    "metadata_available", "metadata_matches_requirement_pin"}
  {
  }

  lemma KeysApart(fields: Fields)
    requires forall k | k in fields ::
               k in {"license_term", "policy_classification", "exception_id", "exception_owner", "exception_expires_on",
                     "metadata_available", "metadata_matches_requirement_pin"}
    ensures "name" !in fields && "dependency_groups" !in fields && "relationship" !in fields && "declared_name" !in fields
    ensures "source_files" !in fields && "version" !in fields && "installed_version" !in fields
  {
  }

  /** Fields of the second map win, and others come from the first. */
  lemma Merged(a: Fields, b: Fields)
    ensures forall k: string :: Get(a + b, k) == if k in b then Get(b, k) else Get(a, k)
  {
  }

  lemma MergedOrigin(a: Fields, b: Fields, name: string, root: Option<Root>, distribution: Option<Distribution>, groups: Value)
    requires ShowsOrigin(a, name, root, distribution, groups)
    requires "name" !in b && "dependency_groups" !in b && "relationship" !in b && "declared_name" !in b
    requires "source_files" !in b && "version" !in b && "installed_version" !in b
    ensures ShowsOrigin(a + b, name, root, distribution, groups)
  {
    Merged(a, b);
    hide Get;
  }

  lemma MergedLicense(a: Fields, b: Fields, term: string, word: string, e: Fields, atPin: bool)
    requires ShowsLicense(b, term, word, e, atPin)
    requires "license_term" in b && "policy_classification" in b && "exception_id" in b && "exception_owner" in b
    requires "exception_expires_on" in b && "metadata_available" in b && "metadata_matches_requirement_pin" in b
    ensures ShowsLicense(a + b, term, word, e, atPin)
  {
    Merged(a, b);
    hide Get;
  }

  lemma LicenseKeys(term: string, class_: Class, e: Fields, atPin: bool)
    ensures var b := LicenseFields(term, class_, e, atPin);
            && "license_term" in b && "policy_classification" in b && "exception_id" in b && "exception_owner" in b
            && "exception_expires_on" in b && "metadata_available" in b && "metadata_matches_requirement_pin" in b
  {
  }

  /** A record says where its package comes from and how it is licensed, and cites its exception. */
  lemma RecordShows(name: string, root: Option<Root>, distribution: Option<Distribution>, groups: Value, term: string, cited: Fields,
                    policy: Policy, today: int, rt: Runtime)
    requires TermShown(root, distribution, term) && Citable(policy, name, term, rt, cited)
    ensures var r := RecordOf(name, root, distribution, groups, policy, today, rt);
            && (r.None? <==> exists i: nat :: First(policy, name, term, rt, i) && forall day: int :: !EndsOn(policy.exceptions[i], day, rt))
            && (r.Some? ==>
                  && ShowsOrigin(r.value, name, root, distribution, groups)
                  && ShowsLicense(r.value, term, ClassWord(policy, name, term, today, rt), cited, AtPin(root, distribution)))
  {
    ClassExact(name, term, policy, today, rt);
    assert TermOf(root, distribution) == term && MatchesPin(root, distribution) == AtPin(root, distribution);
    var classified := Classify(name, term, policy, today, rt);
    if classified.Some? {
      hide *;
      ClassWordExact(name, term, policy, today, rt);
      CitableExact(name, term, policy, today, rt);
      var atPin, class_ := MatchesPin(root, distribution), classified.value.0;
      var a, b := IdentityFields(name, root, distribution, groups), LicenseFields(term, class_, cited, atPin);
      OriginShown(name, root, distribution, groups);
      LicenseShown(term, class_, cited, atPin);
      LicenseKeys(term, class_, cited, atPin);
      KeysApart(b);
      MergedOrigin(a, b, name, root, distribution, groups);
      MergedLicense(a, b, term, ClassName(class_), cited, atPin);
      RecordMerged(name, root, distribution, groups, policy, today, rt);
    }
  }

  lemma RecordMerged(name: string, root: Option<Root>, distribution: Option<Distribution>, groups: Value,
                     policy: Policy, today: int, rt: Runtime)
    requires Classify(name, TermOf(root, distribution), policy, today, rt).Some?
    ensures var (class_, exception) := Classify(name, TermOf(root, distribution), policy, today, rt).value;
            RecordOf(name, root, distribution, groups, policy, today, rt)
            == Some(IdentityFields(name, root, distribution, groups)
                    + LicenseFields(TermOf(root, distribution), class_, if exception.Some? then exception.value else map[],
                                    MatchesPin(root, distribution)))
  {
    hide Classify, IdentityFields, LicenseFields;
  }

  /** The package's requirement and its installed distribution, if there are any. */
  predicate FoundAs(name: string, roots: map<string, Root>, index: map<string, Distribution>,
                    root: Option<Root>, distribution: Option<Distribution>)
  {
    && (if name in roots then root == Some(roots[name]) else root == None)
    && (if name in index then distribution == Some(index[name]) else distribution == None)
  }

  /** Building fails for a package of the graph exactly when its first exception has no readable end. */
  lemma RecordForFails(name: string, roots: map<string, Root>, membership: map<string, Value>, index: map<string, Distribution>,
                       policy: Policy, today: int, rt: Runtime,
                       root: Option<Root>, distribution: Option<Distribution>, term: string, cited: Fields)
    requires FoundAs(name, roots, index, root, distribution)
    requires TermShown(root, distribution, term) && Citable(policy, name, term, rt, cited)
    ensures RecordFor(name, roots, membership, index, policy, today, rt).None?
       <==> exists i: nat :: First(policy, name, term, rt, i) && forall day: int :: !EndsOn(policy.exceptions[i], day, rt)
  {
    hide RecordOf, TermShown, Citable, First, EndsOn, ClassWord, AtPin, ShowsOrigin, ShowsLicense;
    RecordShows(name, root, distribution, Get(membership, name), term, cited, policy, today, rt);
  }

  /** Every package of the graph is in the built list, at its place in order, with its own origin and license. */
  lemma BuiltRecordsShow(records: seq<Fields>, names: seq<string>, roots: map<string, Root>, membership: map<string, Value>,
                         index: map<string, Distribution>, policy: Policy, today: int, rt: Runtime,
                         i: nat, root: Option<Root>, distribution: Option<Distribution>, term: string, cited: Fields)
    requires BuiltRecords(records, names, roots, membership, index, policy, today, rt) && i < |names|
    requires FoundAs(names[i], roots, index, root, distribution)
    requires TermShown(root, distribution, term) && Citable(policy, names[i], term, rt, cited)
    ensures names[i] in membership && i < |records|
    ensures ShowsOrigin(records[i], names[i], root, distribution, membership[names[i]])
    ensures ShowsLicense(records[i], term, ClassWord(policy, names[i], term, today, rt), cited, AtPin(root, distribution))
  {
    hide RecordOf, ShowsOrigin, ShowsLicense, TermShown, Citable, ClassWord, AtPin, LexLe, First, EndsOn;
    assert names[i] in membership.Keys;
    RecordShows(names[i], root, distribution, membership[names[i]], term, cited, policy, today, rt);
    assert Some(records[i]) == RecordFor(names[i], roots, membership, index, policy, today, rt);
  }
}
