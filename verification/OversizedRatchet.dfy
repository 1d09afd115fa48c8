/** The baseline ratchet of scripts/oversized_code_gate.py: findings against reviewed limits. */
module OversizedRatchet {
  import opened Wrappers
  import opened Text
  import opened Sorting
  import opened OversizedCode

  /** A reviewed baseline entry; dates are day numbers. */
  datatype Entry = Entry(fingerprint: string, maxLines: int, expiresOn: int)

  datatype GateError = DuplicateFingerprints

  datatype Failure =
    | ProvenanceExpired
    | EntryExpired(entry: Entry)
    | NewFinding(finding: Finding)
    | Grown(finding: Finding)
    | Shrunken(finding: Finding)
    | Resolved(entry: Entry)

  datatype Standing = IsNew | HasGrown | HasShrunk | Unchanged

  function StandingOf(f: Finding, baseline: map<string, Entry>): Standing {
    if f.Fingerprint() !in baseline then IsNew
    else if f.lines > baseline[f.Fingerprint()].maxLines then HasGrown
    else if f.lines < baseline[f.Fingerprint()].maxLines then HasShrunk
    else Unchanged
  }

  /** The findings of one standing, in order. */
  function WithStanding(fs: seq<Finding>, baseline: map<string, Entry>, standing: Standing): seq<Finding> {
    if fs == [] then []
    else
      var last := fs[|fs| - 1];
      WithStanding(fs[..|fs| - 1], baseline, standing) + if StandingOf(last, baseline) == standing then [last] else []
  }

  /** `_classify_live_findings` */
  method ClassifyLiveFindings(findings: seq<Finding>, baseline: map<string, Entry>)
    returns (new': seq<Finding>, grown: seq<Finding>, shrunken: seq<Finding>)
    ensures new' == WithStanding(findings, baseline, IsNew)
    ensures grown == WithStanding(findings, baseline, HasGrown)
    ensures shrunken == WithStanding(findings, baseline, HasShrunk)
  {
    new', grown, shrunken := [], [], [];
    for i := 0 to |findings|
      invariant new' == WithStanding(findings[..i], baseline, IsNew)
      invariant grown == WithStanding(findings[..i], baseline, HasGrown)
      invariant shrunken == WithStanding(findings[..i], baseline, HasShrunk)
    {
      assert findings[..i + 1][..i] == findings[..i];
      var f := findings[i];
      if f.Fingerprint() !in baseline {
        new' := new' + [f];
      } else if f.lines > baseline[f.Fingerprint()].maxLines {
        grown := grown + [f];
      } else if f.lines < baseline[f.Fingerprint()].maxLines {
        shrunken := shrunken + [f];
      }
    }
    assert findings[..|findings|] == findings;
  }

  lemma {:induction false} StandingCount(fs: seq<Finding>, baseline: map<string, Entry>, standing: Standing, f: Finding)
    ensures multiset(WithStanding(fs, baseline, standing))[f]
         == if StandingOf(f, baseline) == standing then multiset(fs)[f] else 0
  {
    hide StandingOf;
    if fs == [] {
    } else {
      StandingCount(fs[..|fs| - 1], baseline, standing, f);
      assert fs == fs[..|fs| - 1] + [fs[|fs| - 1]];
    }
  }

  /** New, grown, shrunken and unchanged findings partition the observed ones. */
  lemma StandingsPartition(fs: seq<Finding>, baseline: map<string, Entry>)
    ensures multiset(WithStanding(fs, baseline, IsNew)) + multiset(WithStanding(fs, baseline, HasGrown))
          + multiset(WithStanding(fs, baseline, HasShrunk)) + multiset(WithStanding(fs, baseline, Unchanged))
         == multiset(fs)
  {
    hide StandingOf, WithStanding;
    var a, b := WithStanding(fs, baseline, IsNew), WithStanding(fs, baseline, HasGrown);
    var c, d := WithStanding(fs, baseline, HasShrunk), WithStanding(fs, baseline, Unchanged);
    forall f
      ensures (multiset(a) + multiset(b) + multiset(c) + multiset(d))[f] == multiset(fs)[f]
    {
      StandingCount(fs, baseline, IsNew, f);
      StandingCount(fs, baseline, HasGrown, f);
      StandingCount(fs, baseline, HasShrunk, f);
      StandingCount(fs, baseline, Unchanged, f);
    }
  }

  lemma {:induction false} WithStandingExact(fs: seq<Finding>, baseline: map<string, Entry>, standing: Standing, f: Finding)
    ensures f in WithStanding(fs, baseline, standing) <==> f in fs && StandingOf(f, baseline) == standing
  {
    if fs == [] {
    } else {
      WithStandingExact(fs[..|fs| - 1], baseline, standing, f);
      assert fs == fs[..|fs| - 1] + [fs[|fs| - 1]];
    }
  }

  // ----- the whole decision -----

  /** `{entry["fingerprint"]: entry for entry in baseline}` */
  function ByFingerprint(entries: seq<Entry>): map<string, Entry> {
    if entries == [] then map[]
    else
      var last := entries[|entries| - 1];
      ByFingerprint(entries[..|entries| - 1])[last.fingerprint := last]
  }

  /** `{finding.fingerprint: finding for finding in findings}` */
  function Observed(fs: seq<Finding>): map<string, Finding> {
    if fs == [] then map[]
    else
      var last := fs[|fs| - 1];
      Observed(fs[..|fs| - 1])[last.Fingerprint() := last]
  }

  predicate DistinctFingerprints(fs: seq<Finding>) {
    forall i, j | 0 <= i < j < |fs| :: fs[i].Fingerprint() != fs[j].Fingerprint()
  }

  /** The measured lines per fingerprint, and the reviewed limits per fingerprint. */
  function Measured(fs: seq<Finding>): map<string, int> {
    map k | k in Observed(fs) :: Observed(fs)[k].lines
  }

  function Limits(entries: seq<Entry>): map<string, int> {
    map k | k in ByFingerprint(entries) :: ByFingerprint(entries)[k].maxLines
  }

  predicate NothingExpired(entries: seq<Entry>, provenanceExpiresOn: int, today: int) {
    provenanceExpiresOn >= today && forall i | 0 <= i < |entries| :: entries[i].expiresOn >= today
  }

  lemma {:induction false} ObservedMembers(fs: seq<Finding>)
    ensures forall f | f in fs :: f.Fingerprint() in Observed(fs)
    ensures forall k | k in Observed(fs) :: Observed(fs)[k] in fs && Observed(fs)[k].Fingerprint() == k
  {
    hide Finding.Fingerprint;
    if fs == [] {
    } else {
      ObservedMembers(fs[..|fs| - 1]);
      assert fs == fs[..|fs| - 1] + [fs[|fs| - 1]];
    }
  }

  lemma DistinctAppend(init: seq<Finding>, last: Finding)
    ensures DistinctFingerprints(init + [last]) <==>
            DistinctFingerprints(init) && last.Fingerprint() !in Observed(init)
  {
    hide Finding.Fingerprint, Observed;
    ObservedMembers(init);
    var all := init + [last];
    if DistinctFingerprints(all) {
      assert forall p, q | 0 <= p < q < |init| :: all[p] == init[p] && all[q] == init[q];
      forall p | 0 <= p < |init|
        ensures init[p].Fingerprint() != last.Fingerprint()
      {
        assert all[p] == init[p] && all[|init|] == last;
      }
    }
    if DistinctFingerprints(init) && last.Fingerprint() !in Observed(init) {
      forall p, q | 0 <= p < q < |all|
        ensures all[p].Fingerprint() != all[q].Fingerprint()
      {
        assert all[p] == init[p] && init[p] in init;
      }
    }
  }

  lemma {:induction false} ObservedCount(fs: seq<Finding>)
    ensures |Observed(fs)| <= |fs|
    ensures |Observed(fs)| == |fs| <==> DistinctFingerprints(fs)
  {
    hide Finding.Fingerprint, DistinctFingerprints;
    if fs == [] {
      NoFindingsDistinct(fs);
    } else {
      var init, last := fs[..|fs| - 1], fs[|fs| - 1];
      ObservedCount(init);
      DistinctAppend(init, last);
      assert fs == init + [last];
      var before, after := Observed(init), Observed(fs);
      assert after.Keys == before.Keys + {last.Fingerprint()};
      assert |after.Keys| == |after| && |before.Keys| == |before|;
      if last.Fingerprint() in before {
        assert after.Keys == before.Keys;
      }
    }
  }

  lemma NoFindingsDistinct(fs: seq<Finding>)
    requires fs == []
    ensures DistinctFingerprints(fs)
  {
  }

  /** With distinct fingerprints every finding is the one observed under its fingerprint. */
  lemma {:induction false} ObservedSelf(fs: seq<Finding>, f: Finding)
    requires DistinctFingerprints(fs) && f in fs
    ensures f.Fingerprint() in Observed(fs) && Observed(fs)[f.Fingerprint()] == f
  {
    ObservedMembers(fs);
    var g := Observed(fs)[f.Fingerprint()];
    var i, j :| 0 <= i < |fs| && 0 <= j < |fs| && fs[i] == f && fs[j] == g;
  }

  /** The entries that have expired, in order. */
  function ExpiredIn(entries: seq<Entry>, today: int): seq<Entry> {
    if entries == [] then []
    else
      var last := entries[|entries| - 1];
      ExpiredIn(entries[..|entries| - 1], today) + if last.expiresOn < today then [last] else []
  }

  /** The entries of the fingerprints that are no longer observed, in order of fingerprints. */
  predicate ResolvedIn(resolved: seq<Entry>, entries: seq<Entry>, observed: set<string>) {
    var baseline := ByFingerprint(entries);
    && (forall i | 0 <= i < |resolved| ::
          && resolved[i].fingerprint in baseline.Keys - observed
          && baseline[resolved[i].fingerprint] == resolved[i])
    && Enumerates(Fingerprints(resolved), baseline.Keys - observed)
  }

  function Fingerprints(entries: seq<Entry>): seq<string> {
    seq(|entries|, i requires 0 <= i < |entries| => entries[i].fingerprint)
  }

  lemma {:induction false} EntriesByFingerprint(entries: seq<Entry>)
    ensures forall k | k in ByFingerprint(entries) :: ByFingerprint(entries)[k].fingerprint == k
  {
    if entries == [] {
      assert ByFingerprint(entries) == map[];
    } else {
      EntriesByFingerprint(entries[..|entries| - 1]);
    }
  }

  /** `_classify_baseline_state` */
  method ClassifyBaselineState(entries: seq<Entry>, observed: set<string>, provenanceExpiresOn: int, today: int)
    returns (resolved: seq<Entry>, expired: seq<Entry>, provenanceExpired: bool)
    ensures ResolvedIn(resolved, entries, observed)
    ensures expired == ExpiredIn(entries, today)
    ensures provenanceExpired <==> provenanceExpiresOn < today
  {
    hide Enumerates, ByFingerprint;
    var baseline := ByFingerprint(entries);
    EntriesByFingerprint(entries);
    var fingerprints := SortedList(baseline.Keys - observed);
    ListedAreMembers(fingerprints, baseline.Keys - observed);
    resolved := [];
    for i := 0 to |fingerprints|
      invariant |resolved| == i
      invariant forall k | 0 <= k < i ::
                  resolved[k].fingerprint == fingerprints[k] && baseline[fingerprints[k]] == resolved[k]
    {
      resolved := resolved + [baseline[fingerprints[i]]];
    }
    assert Fingerprints(resolved) == fingerprints;
    expired := [];
    for i := 0 to |entries|
      invariant expired == ExpiredIn(entries[..i], today)
    {
      assert entries[..i + 1][..i] == entries[..i];
      if entries[i].expiresOn < today {
        expired := expired + [entries[i]];
      }
    }
    assert entries[..|entries|] == entries;
    provenanceExpired := provenanceExpiresOn < today;
  }

  lemma ListedAreMembers(names: seq<string>, s: set<string>)
    requires Enumerates(names, s)
    ensures forall i | 0 <= i < |names| :: names[i] in s
    ensures names == [] <==> s == {}
  {
    hide LexLe;
    if names != [] {
      assert names[0] in s;
    }
  }

  function Failures<T>(items: seq<T>, failure: T -> Failure): seq<Failure> {
    seq(|items|, i requires 0 <= i < |items| => failure(items[i]))
  }

  /** `_build_failures`: what is reported, in this order. */
  function BuildFailures(provenanceExpired: bool, expired: seq<Entry>, findings: seq<Finding>, baseline: map<string, Entry>,
                         resolved: seq<Entry>): seq<Failure>
  {
    (if provenanceExpired then [ProvenanceExpired] else [])
    + Failures(expired, e => EntryExpired(e))
    + Failures(WithStanding(findings, baseline, IsNew), f => NewFinding(f))
    + Failures(WithStanding(findings, baseline, HasGrown), f => Grown(f))
    + Failures(WithStanding(findings, baseline, HasShrunk), f => Shrunken(f))
    + Failures(resolved, e => Resolved(e))
  }

  /**
   `_classify_findings` and `_build_failures`: every finding and entry that calls for action is reported, and nothing
   is reported exactly when nothing has expired and the two maps are equal.
   */
  method Decide(findings: seq<Finding>, entries: seq<Entry>, provenanceExpiresOn: int, today: int)
    returns (r: Result<seq<Failure>, GateError>)
    ensures r.Err? <==> !DistinctFingerprints(findings)
    ensures r.Ok? ==> exists resolved ::
              && ResolvedIn(resolved, entries, Observed(findings).Keys)
              && r.value == BuildFailures(provenanceExpiresOn < today, ExpiredIn(entries, today), findings, ByFingerprint(entries), resolved)
    ensures r.Ok? ==> (r.value == [] <==>
                        NothingExpired(entries, provenanceExpiresOn, today) && Measured(findings) == Limits(entries))
  {
    hide ResolvedIn, DistinctFingerprints, Observed, Measured, Limits;
    var observed := Observed(findings);
    ObservedCount(findings);
    if |observed| != |findings| {
      return Err(DuplicateFingerprints);
    }
    var new', grown, shrunken := ClassifyLiveFindings(findings, ByFingerprint(entries));
    var resolved, expired, provenanceExpired :=
      ClassifyBaselineState(entries, observed.Keys, provenanceExpiresOn, today);
    var failures := (if provenanceExpired then [ProvenanceExpired] else [])
                  + Failures(expired, e => EntryExpired(e))
                  + Failures(new', f => NewFinding(f))
                  + Failures(grown, f => Grown(f))
                  + Failures(shrunken, f => Shrunken(f))
                  + Failures(resolved, e => Resolved(e));
    assert failures == BuildFailures(provenanceExpired, expired, findings, ByFingerprint(entries), resolved);
    ExpiredNone(entries, today);
    ResolvedNone(resolved, entries, observed.Keys);
    RatchetExact(findings, entries);
    return Ok(failures);
  }

  lemma ResolvedNone(resolved: seq<Entry>, entries: seq<Entry>, observed: set<string>)
    requires ResolvedIn(resolved, entries, observed)
    ensures resolved == [] <==> ByFingerprint(entries).Keys - observed == {}
  {
    hide Enumerates, ByFingerprint;
    ListedAreMembers(Fingerprints(resolved), ByFingerprint(entries).Keys - observed);
  }

  lemma {:induction false} ExpiredNone(entries: seq<Entry>, today: int)
    ensures ExpiredIn(entries, today) == [] <==> forall i | 0 <= i < |entries| :: entries[i].expiresOn >= today
  {
    if entries == [] {
      assert ExpiredIn(entries, today) == [];
    } else {
      var init := entries[..|entries| - 1];
      ExpiredNone(init, today);
      assert forall i | 0 <= i < |init| :: init[i] == entries[i];
    }
  }

  /** Nothing is new, grown, shrunken or resolved. */
  predicate AllUnchanged(fs: seq<Finding>, b: map<string, Entry>) {
    && WithStanding(fs, b, IsNew) == [] && WithStanding(fs, b, HasGrown) == []
    && WithStanding(fs, b, HasShrunk) == [] && b.Keys - Observed(fs).Keys == {}
  }

  /** No finding is new, grown or shrunken and no entry is resolved exactly when the two maps are equal. */
  lemma RatchetExact(fs: seq<Finding>, entries: seq<Entry>)
    requires DistinctFingerprints(fs)
    ensures AllUnchanged(fs, ByFingerprint(entries)) <==> Measured(fs) == Limits(entries)
  {
    hide Finding.Fingerprint, Observed, ByFingerprint, WithStanding;
    var b := ByFingerprint(entries);
    ObservedMembers(fs);
    assert Measured(fs).Keys == Observed(fs).Keys && Limits(entries).Keys == b.Keys;
    if Measured(fs) == Limits(entries) {
      forall f | f in fs
        ensures StandingOf(f, b) == Unchanged
      {
        ObservedSelf(fs, f);
        assert Measured(fs)[f.Fingerprint()] == Limits(entries)[f.Fingerprint()];
      }
      NoneStanding(fs, b, IsNew);
      NoneStanding(fs, b, HasGrown);
      NoneStanding(fs, b, HasShrunk);
    }
    if AllUnchanged(fs, b) {
      forall f | f in fs
        ensures StandingOf(f, b) == Unchanged
      {
        WithStandingExact(fs, b, IsNew, f);
        WithStandingExact(fs, b, HasGrown, f);
        WithStandingExact(fs, b, HasShrunk, f);
      }
      forall k
        ensures k in Observed(fs) <==> k in b
      {
        if k in b {
          assert k !in b.Keys - Observed(fs).Keys;
        }
      }
      assert Measured(fs).Keys == Limits(entries).Keys;
      assert Measured(fs) == Limits(entries);
    }
  }

  lemma {:induction false} NoneStanding(fs: seq<Finding>, b: map<string, Entry>, standing: Standing)
    requires forall f | f in fs :: StandingOf(f, b) != standing
    ensures WithStanding(fs, b, standing) == []
  {
    if WithStanding(fs, b, standing) != [] {
      WithStandingExact(fs, b, standing, WithStanding(fs, b, standing)[0]);
    }
  }

  // ----- what each failure says -----

  /** The entry that counts for a fingerprint: the last one. */
  ghost predicate Reviews(entries: seq<Entry>, fingerprint: string, e: Entry) {
    exists i | 0 <= i < |entries| ::
      && entries[i] == e && e.fingerprint == fingerprint
      && forall j | i < j < |entries| :: entries[j].fingerprint != fingerprint
  }

  /** One more entry for another fingerprint changes nothing. */
  lemma ReviewsEarlier(init: seq<Entry>, last: Entry, fingerprint: string, e: Entry)
    requires last.fingerprint != fingerprint
    ensures Reviews(init + [last], fingerprint, e) <==> Reviews(init, fingerprint, e)
  {
    var entries := init + [last];
    if i :| 0 <= i < |init| && init[i] == e && e.fingerprint == fingerprint && forall j | i < j < |init| :: init[j].fingerprint != fingerprint {
      assert entries[i] == e;
      assert forall j | i < j < |entries| :: entries[j] == if j < |init| then init[j] else last;
    }
    if i :| 0 <= i < |entries| && entries[i] == e && e.fingerprint == fingerprint && forall j | i < j < |entries| :: entries[j].fingerprint != fingerprint {
      assert init[i] == e;
      assert forall j | i < j < |init| :: init[j] == entries[j];
    }
  }

  lemma ReviewsLast(init: seq<Entry>, last: Entry, e: Entry)
    ensures Reviews(init + [last], last.fingerprint, e) <==> e == last
  {
    assert (init + [last])[|init|] == last;
  }

  lemma {:induction false} LastReviews(entries: seq<Entry>, fingerprint: string)
    ensures fingerprint in ByFingerprint(entries) <==> exists e :: e in entries && e.fingerprint == fingerprint
    ensures forall e :: Reviews(entries, fingerprint, e) <==>
              fingerprint in ByFingerprint(entries) && ByFingerprint(entries)[fingerprint] == e
  {
    if entries == [] {
      assert ByFingerprint(entries) == map[];
    } else {
      var init, last := entries[..|entries| - 1], entries[|entries| - 1];
      LastReviews(init, fingerprint);
      assert entries == init + [last];
      hide Reviews;
      forall e
        ensures Reviews(entries, fingerprint, e) <==> if last.fingerprint == fingerprint then e == last else Reviews(init, fingerprint, e)
      {
        if last.fingerprint == fingerprint {
          ReviewsLast(init, last, e);
        } else {
          ReviewsEarlier(init, last, fingerprint, e);
        }
      }
    }
  }

  lemma {:induction false} ExpiredExact(entries: seq<Entry>, today: int, e: Entry)
    ensures e in ExpiredIn(entries, today) <==> e in entries && e.expiresOn < today
  {
    if entries == [] {
      assert ExpiredIn(entries, today) == [];
    } else {
      ExpiredExact(entries[..|entries| - 1], today, e);
      assert entries == entries[..|entries| - 1] + [entries[|entries| - 1]];
    }
  }

  /** What each failure says of the findings, the reviewed entries and the day. */
  ghost predicate Says(f: Failure, findings: seq<Finding>, entries: seq<Entry>, provenanceExpiresOn: int, today: int) {
    match f
    case ProvenanceExpired => provenanceExpiresOn < today
    case EntryExpired(e) => e in entries && e.expiresOn < today
    case NewFinding(g) => g in findings && forall e | e in entries :: e.fingerprint != g.Fingerprint()
    case Grown(g) => g in findings && exists e :: Reviews(entries, g.Fingerprint(), e) && g.lines > e.maxLines
    case Shrunken(g) => g in findings && exists e :: Reviews(entries, g.Fingerprint(), e) && g.lines < e.maxLines
    case Resolved(e) => Reviews(entries, e.fingerprint, e) && forall g | g in findings :: g.Fingerprint() != e.fingerprint
  }

  lemma InFailures<T>(items: seq<T>, failure: T -> Failure, f: Failure)
    ensures f in Failures(items, failure) <==> exists x :: x in items && failure(x) == f
  {
    if x :| x in items && failure(x) == f {
      var i :| 0 <= i < |items| && items[i] == x;
      assert Failures(items, failure)[i] == f;
    }
  }

  lemma FailureIn(f: Failure, provenanceExpired: bool, expired: seq<Entry>, findings: seq<Finding>, baseline: map<string, Entry>,
                  resolved: seq<Entry>)
    ensures f in BuildFailures(provenanceExpired, expired, findings, baseline, resolved)
       <==> match f
            case ProvenanceExpired => provenanceExpired
            case EntryExpired(e) => e in expired
            case NewFinding(g) => g in WithStanding(findings, baseline, IsNew)
            case Grown(g) => g in WithStanding(findings, baseline, HasGrown)
            case Shrunken(g) => g in WithStanding(findings, baseline, HasShrunk)
            case Resolved(e) => e in resolved
  {
    hide Failures, WithStanding;
    InFailures(expired, e => EntryExpired(e), f);
    InFailures(WithStanding(findings, baseline, IsNew), g => NewFinding(g), f);
    InFailures(WithStanding(findings, baseline, HasGrown), g => Grown(g), f);
    InFailures(WithStanding(findings, baseline, HasShrunk), g => Shrunken(g), f);
    InFailures(resolved, e => Resolved(e), f);
  }

  lemma ResolvedMember(resolved: seq<Entry>, entries: seq<Entry>, observed: set<string>, e: Entry)
    requires ResolvedIn(resolved, entries, observed)
    ensures e in resolved <==> Reviews(entries, e.fingerprint, e) && e.fingerprint !in observed
  {
    hide ByFingerprint, Reviews, LexLe;
    var baseline := ByFingerprint(entries);
    LastReviews(entries, e.fingerprint);
    if e.fingerprint in baseline && baseline[e.fingerprint] == e && e.fingerprint !in observed {
      assert e.fingerprint in baseline.Keys - observed;
      assert e.fingerprint in Fingerprints(resolved);
      var i :| 0 <= i < |resolved| && resolved[i].fingerprint == e.fingerprint;
    }
  }

  /** The gate reports exactly what each failure says. */
  lemma DecidedExact(f: Failure, findings: seq<Finding>, entries: seq<Entry>, provenanceExpiresOn: int, today: int, resolved: seq<Entry>)
    requires ResolvedIn(resolved, entries, Observed(findings).Keys)
    ensures f in BuildFailures(provenanceExpiresOn < today, ExpiredIn(entries, today), findings, ByFingerprint(entries), resolved)
       <==> Says(f, findings, entries, provenanceExpiresOn, today)
  {
    hide ByFingerprint, Reviews, WithStanding, ExpiredIn, BuildFailures, ResolvedIn, Observed, Finding.Fingerprint;
    FailureIn(f, provenanceExpiresOn < today, ExpiredIn(entries, today), findings, ByFingerprint(entries), resolved);
    match f {
      case ProvenanceExpired =>
      case EntryExpired(e) => ExpiredExact(entries, today, e);
      case NewFinding(g) =>
        WithStandingExact(findings, ByFingerprint(entries), IsNew, g);
        LastReviews(entries, g.Fingerprint());
      case Grown(g) =>
        WithStandingExact(findings, ByFingerprint(entries), HasGrown, g);
        LastReviews(entries, g.Fingerprint());
      case Shrunken(g) =>
        WithStandingExact(findings, ByFingerprint(entries), HasShrunk, g);
        LastReviews(entries, g.Fingerprint());
      case Resolved(e) =>
        ResolvedMember(resolved, entries, Observed(findings).Keys, e);
        ObservedMembers(findings);
    }
  }

  // ----- when fingerprints are duplicated -----

  /** What a fingerprint stands for. */
  datatype Identity = OfModule(path: string) | OfFunction(path: string, symbol: string)

  function IdentityOf(f: Finding): Identity {
    if f.kind == Module then OfModule(f.path) else OfFunction(f.path, f.symbol)
  }

  function Identities(fs: seq<Finding>): seq<Identity> {
    Mapped(fs, f => IdentityOf(f))
  }

  predicate NoBarsIn(fs: seq<Finding>) {
    forall i | 0 <= i < |fs| :: '|' !in fs[i].symbol
  }

  lemma DistinctIffIdentities(fs: seq<Finding>)
    requires NoBarsIn(fs)
    ensures DistinctFingerprints(fs) <==> NoRepeats(Identities(fs))
  {
    hide Finding.Fingerprint;
    forall i, j | 0 <= i < j < |fs|
      ensures fs[i].Fingerprint() == fs[j].Fingerprint() <==> Identities(fs)[i] == Identities(fs)[j]
    {
      FingerprintExact(fs[i], fs[j]);
    }
  }

  /** The dotted path of the function at a position. */
  function SymbolAt(node: Node, p: Position): string {
    var at := At(node, p);
    Dotted(Enclosing(node, p) + [if at.Some? && at.value.FunctionDef? then at.value.name else ""])
  }

  /** Two oversized functions, at different positions if the files are one, share their dotted path. */
  ghost predicate SharesSymbol(f: SourceFile, g: SourceFile, functionMax: int, distinct: bool) {
    exists p, q ::
      && IsOversized(f.tree, p, functionMax) && IsOversized(g.tree, q, functionMax)
      && (distinct ==> p != q) && SymbolAt(f.tree, p) == SymbolAt(g.tree, q)
  }

  /** Identifiers have no bars. */
  ghost predicate NoBars(f: SourceFile, functionMax: int) {
    forall p | IsOversized(f.tree, p, functionMax) :: '|' !in SymbolAt(f.tree, p)
  }

  /** Something of two files is reported under one fingerprint. */
  ghost predicate Collides(f: SourceFile, g: SourceFile, moduleMax: int, functionMax: int) {
    f.path == g.path && ((f.lineCount > moduleMax && g.lineCount > moduleMax) || SharesSymbol(f, g, functionMax, false))
  }

  function ModuleIdentity(file: SourceFile, moduleMax: int): seq<Identity> {
    if file.lineCount > moduleMax then [OfModule(file.path)] else []
  }

  function FunctionIdentities(file: SourceFile, ps: seq<Position>): seq<Identity> {
    Mapped(ps, p => OfFunction(file.path, SymbolAt(file.tree, p)))
  }

  lemma {:induction false} NotBeforeItself(p: Position)
    ensures !Before(p, p)
  {
    if p == [] {
      assert !Before(p, p);
    } else {
      NotBeforeItself(p[1..]);
    }
  }

  /** A file's findings stand for itself, if it is too long, and for its oversized functions. */
  lemma FileIdentities(file: SourceFile, moduleMax: int, functionMax: int) returns (ps: seq<Position>)
    requires NoBars(file, functionMax)
    ensures Identities(FileFindings(file, moduleMax, functionMax)) == ModuleIdentity(file, moduleMax) + FunctionIdentities(file, ps)
    ensures NoBarsIn(FileFindings(file, moduleMax, functionMax))
    ensures NoRepeats(ps) && forall p :: IsOversized(file.tree, p, functionMax) <==> p in ps
  {
    hide Dotted, Before, Collect, Enclosing, At;
    ps := CollectIsPreorder(file.tree, [], file.path, functionMax);
    forall i, j | 0 <= i < j < |ps|
      ensures ps[i] != ps[j]
    {
      NotBeforeItself(ps[i]);
      assert Before(ps[i], ps[j]);
    }
    var functions := Collect(file.tree, [], file.path, functionMax);
    forall i | 0 <= i < |ps|
      ensures IdentityOf(functions[i]) == OfFunction(file.path, SymbolAt(file.tree, ps[i])) && '|' !in functions[i].symbol
    {
      assert [] + Enclosing(file.tree, ps[i]) == Enclosing(file.tree, ps[i]);
      assert IsOversized(file.tree, ps[i], functionMax);
    }
    MappedAppend(ModuleFindings(file, moduleMax), functions, f => IdentityOf(f));
    assert '|' !in "__module__";
  }

  /** Within a file, fingerprints are duplicated exactly when two oversized functions share their dotted path. */
  lemma FileDistinctIff(file: SourceFile, moduleMax: int, functionMax: int)
    requires NoBars(file, functionMax)
    ensures NoRepeats(Identities(FileFindings(file, moduleMax, functionMax))) <==> !SharesSymbol(file, file, functionMax, true)
  {
    hide IsOversized, SymbolAt, FileFindings;
    var ps := FileIdentities(file, moduleMax, functionMax);
    NoRepeatsAppend(ModuleIdentity(file, moduleMax), FunctionIdentities(file, ps));
    if SharesSymbol(file, file, functionMax, true) {
      var p, q :| IsOversized(file.tree, p, functionMax) && IsOversized(file.tree, q, functionMax) && p != q && SymbolAt(file.tree, p) == SymbolAt(file.tree, q);
      var i :| 0 <= i < |ps| && ps[i] == p;
      var j :| 0 <= j < |ps| && ps[j] == q;
      assert FunctionIdentities(file, ps)[i] == FunctionIdentities(file, ps)[j];
    }
    if !NoRepeats(FunctionIdentities(file, ps)) {
      var i, j :| 0 <= i < j < |ps| && FunctionIdentities(file, ps)[i] == FunctionIdentities(file, ps)[j];
      assert ps[i] in ps && ps[j] in ps && ps[i] != ps[j];
    }
  }

  ghost predicate Overlap(a: seq<Identity>, b: seq<Identity>) {
    exists x :: x in a && x in b
  }

  /** Two files share a fingerprint exactly when they collide. */
  lemma FilesShareIff(f: SourceFile, g: SourceFile, moduleMax: int, functionMax: int)
    requires NoBars(f, functionMax) && NoBars(g, functionMax)
    ensures Overlap(Identities(FileFindings(f, moduleMax, functionMax)), Identities(FileFindings(g, moduleMax, functionMax)))
       <==> Collides(f, g, moduleMax, functionMax)
  {
    hide IsOversized, SymbolAt, FileFindings, Identities;
    var ps := FileIdentities(f, moduleMax, functionMax);
    var qs := FileIdentities(g, moduleMax, functionMax);
    forall x
      ensures x in Identities(FileFindings(f, moduleMax, functionMax)) <==> IsIdentity(x, f, moduleMax, functionMax)
      ensures x in Identities(FileFindings(g, moduleMax, functionMax)) <==> IsIdentity(x, g, moduleMax, functionMax)
    {
      IdentityIff(x, f, ps, moduleMax, functionMax);
      IdentityIff(x, g, qs, moduleMax, functionMax);
    }
    if Collides(f, g, moduleMax, functionMax) {
      if f.lineCount > moduleMax && g.lineCount > moduleMax {
        assert IsIdentity(OfModule(f.path), f, moduleMax, functionMax) && IsIdentity(OfModule(f.path), g, moduleMax, functionMax);
      } else {
        var p, q :| IsOversized(f.tree, p, functionMax) && IsOversized(g.tree, q, functionMax) && SymbolAt(f.tree, p) == SymbolAt(g.tree, q);
        var x := OfFunction(f.path, SymbolAt(f.tree, p));
        assert IsIdentity(x, f, moduleMax, functionMax) && IsIdentity(x, g, moduleMax, functionMax);
      }
    }
  }

  /** What a file has under a fingerprint. */
  ghost predicate IsIdentity(x: Identity, file: SourceFile, moduleMax: int, functionMax: int) {
    match x
    case OfModule(path) => path == file.path && file.lineCount > moduleMax
    case OfFunction(path, symbol) =>
      path == file.path && exists p :: IsOversized(file.tree, p, functionMax) && SymbolAt(file.tree, p) == symbol
  }

  lemma IdentityIff(x: Identity, file: SourceFile, ps: seq<Position>, moduleMax: int, functionMax: int)
    requires forall p :: IsOversized(file.tree, p, functionMax) <==> p in ps
    ensures x in ModuleIdentity(file, moduleMax) + FunctionIdentities(file, ps) <==> IsIdentity(x, file, moduleMax, functionMax)
  {
    hide IsOversized, SymbolAt;
    if x.OfFunction? && IsIdentity(x, file, moduleMax, functionMax) {
      var p :| IsOversized(file.tree, p, functionMax) && SymbolAt(file.tree, p) == x.symbol;
      var i :| 0 <= i < |ps| && ps[i] == p;
      assert FunctionIdentities(file, ps)[i] == x;
    }
    if x in FunctionIdentities(file, ps) {
      var i :| 0 <= i < |ps| && FunctionIdentities(file, ps)[i] == x;
      assert ps[i] in ps;
    }
  }

  lemma {:induction false} AllShareIff(files: seq<SourceFile>, g: SourceFile, moduleMax: int, functionMax: int)
    requires (forall i | 0 <= i < |files| :: NoBars(files[i], functionMax)) && NoBars(g, functionMax)
    ensures Overlap(Identities(AllFindings(files, moduleMax, functionMax)), Identities(FileFindings(g, moduleMax, functionMax)))
       <==> exists i | 0 <= i < |files| :: Collides(files[i], g, moduleMax, functionMax)
    ensures NoBarsIn(AllFindings(files, moduleMax, functionMax))
  {
    hide Collides, FileFindings, NoBars, IdentityOf;
    if files == [] {
      assert Identities(AllFindings(files, moduleMax, functionMax)) == [];
    } else {
      var init, last := files[..|files| - 1], files[|files| - 1];
      assert forall i | 0 <= i < |init| :: init[i] == files[i];
      AllShareIff(init, g, moduleMax, functionMax);
      FilesShareIff(last, g, moduleMax, functionMax);
      AllFindingsLast(files, moduleMax, functionMax);
      hide AllFindings, Overlap;
      var _ := FileIdentities(last, moduleMax, functionMax);
      MappedAppend(AllFindings(init, moduleMax, functionMax), FileFindings(last, moduleMax, functionMax), f => IdentityOf(f));
      hide Identities;
      var a, b := Identities(AllFindings(init, moduleMax, functionMax)), Identities(FileFindings(last, moduleMax, functionMax));
      OverlapAppend(a, b, Identities(FileFindings(g, moduleMax, functionMax)));
    }
  }

  lemma AllFindingsLast(files: seq<SourceFile>, moduleMax: int, functionMax: int)
    requires files != []
    ensures AllFindings(files, moduleMax, functionMax)
         == AllFindings(files[..|files| - 1], moduleMax, functionMax) + FileFindings(files[|files| - 1], moduleMax, functionMax)
  {
  }

  lemma OverlapAppend(a: seq<Identity>, b: seq<Identity>, c: seq<Identity>)
    ensures Overlap(a + b, c) <==> Overlap(a, c) || Overlap(b, c)
  {
    assert forall x :: x in a + b <==> x in a || x in b;
  }

  /**
   The gate raises its duplicate error exactly when two oversized functions of one file share their dotted path, or
   two scanned files of one path are both too long or share the path of an oversized function.
   */
  lemma {:induction false} DuplicatesIff(files: seq<SourceFile>, moduleMax: int, functionMax: int)
    requires forall i | 0 <= i < |files| :: NoBars(files[i], functionMax)
    ensures !DistinctFingerprints(Sort(FingerprintLe, AllFindings(files, moduleMax, functionMax))) <==>
            || (exists i | 0 <= i < |files| :: SharesSymbol(files[i], files[i], functionMax, true))
            || (exists i, j | 0 <= i < j < |files| :: Collides(files[i], files[j], moduleMax, functionMax))
  {
    hide Collides, FileFindings, SharesSymbol, IdentityOf, Sort, FingerprintLe;
    var fs := AllFindings(files, moduleMax, functionMax);
    RepeatsIff(files, moduleMax, functionMax);
    AllShareIff(files, SourceFile("", 0, Other([])), moduleMax, functionMax);
    SortedDistinct(fs);
  }

  lemma {:induction false} RepeatsIff(files: seq<SourceFile>, moduleMax: int, functionMax: int)
    requires forall i | 0 <= i < |files| :: NoBars(files[i], functionMax)
    ensures !NoRepeats(Identities(AllFindings(files, moduleMax, functionMax))) <==>
            || (exists i | 0 <= i < |files| :: SharesSymbol(files[i], files[i], functionMax, true))
            || (exists i, j | 0 <= i < j < |files| :: Collides(files[i], files[j], moduleMax, functionMax))
  {
    hide Collides, FileFindings, NoBars, SharesSymbol, IdentityOf;
    if files == [] {
      assert Identities(AllFindings(files, moduleMax, functionMax)) == [];
    } else {
      var init, last := files[..|files| - 1], files[|files| - 1];
      assert forall i | 0 <= i < |init| :: init[i] == files[i];
      RepeatsIff(init, moduleMax, functionMax);
      FileDistinctIff(last, moduleMax, functionMax);
      AllShareIff(init, last, moduleMax, functionMax);
      MappedAppend(AllFindings(init, moduleMax, functionMax), FileFindings(last, moduleMax, functionMax), f => IdentityOf(f));
      hide Identities, NoRepeats;
      var a, b := Identities(AllFindings(init, moduleMax, functionMax)), Identities(FileFindings(last, moduleMax, functionMax));
      NoRepeatsAppend(a, b);
    }
  }

  /** Sorting does not matter to that. */
  lemma SortedDistinct(fs: seq<Finding>)
    requires NoBarsIn(fs)
    ensures DistinctFingerprints(Sort(FingerprintLe, fs)) <==> NoRepeats(Identities(fs))
  {
    hide FingerprintLe, Sort, IdentityOf, DistinctFingerprints;
    var sorted := Sort(FingerprintLe, fs);
    SortPermutes(FingerprintLe, fs);
    forall i | 0 <= i < |sorted|
      ensures '|' !in sorted[i].symbol
    {
      assert sorted[i] in multiset(fs);
    }
    DistinctIffIdentities(sorted);
    MappedPermutes(sorted, fs, f => IdentityOf(f));
    SameRepeats(Identities(sorted), Identities(fs));
  }

  lemma SameRepeats(a: seq<Identity>, b: seq<Identity>)
    requires multiset(a) == multiset(b)
    ensures NoRepeats(a) <==> NoRepeats(b)
  {
    NoRepeatsMultiset(a);
    NoRepeatsMultiset(b);
    forall x
      ensures x in a <==> x in b
    {
      assert x in a <==> x in multiset(a);
      assert x in b <==> x in multiset(b);
    }
  }
}
