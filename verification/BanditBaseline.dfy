/** The reviewed baseline of static-analysis findings, of scripts/bandit_high_severity_gate.py. */
module BanditBaseline {
  import opened Wrappers
  import opened Text
  import opened Sorting
  import opened Json

  // ----- what the script takes from Python -----

  /**
   `shown` is `str`, `whole` is `int` of a JSON value, `date` is `date.fromisoformat` to a day number and
   `isoformat` its inverse, `hash` the SHA-256 of the five fields that identify a finding.
   */
  datatype Runtime = Runtime(
    shown: Value -> string,
    whole: Value -> Option<int>,
    date: string -> Option<int>,
    isoformat: int -> string,
    hash: (string, string, string, string, string) -> string)

  ghost predicate Faithful(rt: Runtime) {
    && (forall s :: rt.shown(Str(s)) == s)
    && (forall n :: rt.whole(Int(n)) == Some(n))
    && (forall d :: rt.isoformat(d) != "" && rt.date(rt.isoformat(d)) == Some(d))
    && (forall code, filename, text, id, name :: rt.hash(code, filename, text, id, name) != "")
  }

  /** Such a runtime exists, for instance one that writes days as integers. */
  lemma FaithfulExists() returns (rt: Runtime)
    ensures Faithful(rt)
  {
    rt := Runtime(
      (v: Value) => if v.Str? then v.s else "",
      (v: Value) => if v.Int? then Some(v.n) else None,
      s => ReadInteger(s),
      d => ShowInteger(d),
      (code, filename, text, id, name) => "x");
    hide ShowInteger, ReadInteger, Strip;
    forall d
      ensures ShowInteger(d) != "" && ReadInteger(ShowInteger(d)) == Some(d)
    {
      ReadShown(d);
      BlankEmpty();
    }
  }

  lemma BlankEmpty()
    ensures Strip("") == ""
  {
  }

  // ----- findings -----

  datatype Level = Low | Medium | High

  /** `SEVERITY_ORDER` */
  function Rank(level: Level): nat {
    match level
    case Low => 1
    case Medium => 2
    case High => 3
  }

  function LevelName(level: Level): string {
    match level
    case Low => "LOW"
    case Medium => "MEDIUM"
    case High => "HIGH"
  }

  /** `str.upper` for the characters that become ASCII letters. */
  function Upper(s: string): string {
    seq(|s|, i requires 0 <= i < |s| =>
      if 'a' <= s[i] <= 'z' then (s[i] as int - 32) as char
      else if s[i] == '\U{131}' then 'I'
      else if s[i] == '\U{17F}' then 'S'
      else s[i])
  }

  /** `_normalize_severity` and `_normalize_confidence`; None when they raise. */
  function LevelOf(v: Value): Option<Level> {
    if !v.Str? then None
    else if Upper(v.s) == "LOW" then Some(Low)
    else if Upper(v.s) == "MEDIUM" then Some(Medium)
    else if Upper(v.s) == "HIGH" then Some(High)
    else None
  }

  lemma LevelOfName(level: Level)
    ensures LevelOf(Str(LevelName(level))) == Some(level) && LevelName(level) != ""
  {
  }

  /** One entry of the report's results, its code already normalised. */
  datatype RawResult = RawResult(
    severity: Value, confidence: Value, filename: string, line: int, text: string, testId: string, testName: string, code: string)

  datatype Finding = Finding(
    fingerprint: string, testId: string, testName: string, severity: Level, confidence: Level, filename: string, line: int)

  function FindingOf(r: RawResult, rt: Runtime): Option<Finding> {
    var severity, confidence, filename := LevelOf(r.severity), LevelOf(r.confidence), Replace(r.filename, '\\', '/');
    if severity.None? || confidence.None? then None
    else Some(Finding(rt.hash(r.code, filename, r.text, r.testId, r.testName),
                      r.testId, r.testName, severity.value, confidence.value, filename, r.line))
  }

  /** `parse_bandit_findings`; None when a severity or confidence is unsupported. */
  function Findings(results: seq<RawResult>, rt: Runtime): Option<seq<Finding>> {
    if exists i | 0 <= i < |results| :: FindingOf(results[i], rt).None? then None
    else Some(seq(|results|, i requires 0 <= i < |results| => FindingOf(results[i], rt).value))
  }

  // ----- loading the baseline -----

  datatype Entry = Entry(fingerprint: string, severity: Level)

  const SCHEMA_VERSION := "lotus.bandit-security-baseline.v1"

  const REQUIRED := ["fingerprint", "test_id", "severity", "confidence", "filename", "line_number", "owner",
                     "rationale", "expires_on", "linked_remediation", "compensating_control"]

  datatype Failure =
    | NotAnObject
    | SchemaVersion
    | EntriesNotList
    | EntryNotObject(index: nat)
    | EntryMissing(index: nat, field: string)
    | EntrySeverity(index: nat)
    | EntryConfidence(index: nat)
    | EntryDate(index: nat)
    | EntryExpired(index: nat)
    | DuplicateFinding(fingerprint: string)
    | DuplicateEntry(fingerprint: string)
    | HighFinding(fingerprint: string)
    | NewFinding(fingerprint: string)
    | SeverityIncreased(fingerprint: string)
    | StaleEntry(fingerprint: string)

  predicate Present(raw: map<string, Value>, field: string) {
    Get(raw, field) != Null && Get(raw, field) != Str("")
  }

  predicate Unexpired(raw: map<string, Value>, today: int, rt: Runtime) {
    var expires := rt.date(rt.shown(Get(raw, "expires_on")));
    expires.Some? && today <= expires.value
  }

  /** A reviewed entry: nothing is missing, and it has not expired. */
  predicate SoundEntry(raw: map<string, Value>, today: int, rt: Runtime) {
    && (forall field | field in REQUIRED :: Present(raw, field))
    && LevelOf(Get(raw, "severity")).Some? && LevelOf(Get(raw, "confidence")).Some?
    && Unexpired(raw, today, rt)
  }

  function EntryOf(raw: map<string, Value>, rt: Runtime): Entry
    requires LevelOf(Get(raw, "severity")).Some?
  {
    Entry(rt.shown(Get(raw, "fingerprint")), LevelOf(Get(raw, "severity")).value)
  }

  /** What each failure says of one entry. */
  predicate EntryFails(f: Failure, raw: map<string, Value>, index: nat, today: int, rt: Runtime) {
    var expires := rt.date(rt.shown(Get(raw, "expires_on")));
    match f
    case EntryMissing(i, field) => i == index && field in REQUIRED && !Present(raw, field)
    case EntrySeverity(i) => i == index && LevelOf(Get(raw, "severity")).None?
    case EntryConfidence(i) => i == index && LevelOf(Get(raw, "confidence")).None?
    case EntryDate(i) => i == index && expires.None?
    case EntryExpired(i) => i == index && expires.Some? && expires.value < today
    case _ => false
  }

  /** `_load_baseline_entry` */
  method LoadEntry(raw: map<string, Value>, index: nat, today: int, rt: Runtime)
    returns (entry: Option<Entry>, failures: seq<Failure>)
    ensures failures == [] <==> SoundEntry(raw, today, rt)
    ensures forall f :: f in failures <==> EntryFails(f, raw, index, today, rt)
    ensures entry == if SoundEntry(raw, today, rt) then Some(EntryOf(raw, rt)) else None
  {
    hide LevelOf, EntryOf;
    failures := [];
    for i := 0 to |REQUIRED|
      invariant forall f :: f in failures <==>
                  f.EntryMissing? && f.index == index && f.field in REQUIRED[..i] && !Present(raw, f.field)
      invariant failures == [] <==> forall field | field in REQUIRED[..i] :: Present(raw, field)
    {
      assert REQUIRED[..i + 1] == REQUIRED[..i] + [REQUIRED[i]];
      if !Present(raw, REQUIRED[i]) {
        failures := failures + [EntryMissing(index, REQUIRED[i])];
      }
    }
    assert REQUIRED[..|REQUIRED|] == REQUIRED;
    if LevelOf(Get(raw, "severity")).None? {
      failures := failures + [EntrySeverity(index)];
    }
    if LevelOf(Get(raw, "confidence")).None? {
      failures := failures + [EntryConfidence(index)];
    }
    var expires := rt.date(rt.shown(Get(raw, "expires_on")));
    if expires.None? {
      failures := failures + [EntryDate(index)];
    } else if expires.value < today {
      failures := failures + [EntryExpired(index)];
    }
    entry := if failures == [] then Some(EntryOf(raw, rt)) else None;
  }

  /** `payload["entries"]`, when the baseline has that list. */
  function Entries(payload: Value): Option<seq<Value>> {
    if payload.Obj? && Get(payload.m, "entries").List? then Some(Get(payload.m, "entries").items) else None
  }

  predicate Loads(v: Value, today: int, rt: Runtime) {
    v.Obj? && SoundEntry(v.m, today, rt)
  }

  /** Loading raises when `int` refuses the line number of an otherwise sound entry. */
  predicate Unreadable(v: Value, today: int, rt: Runtime) {
    Loads(v, today, rt) && rt.whole(Get(v.m, "line_number")).None?
  }

  /** The entries that are loaded, in their order. */
  function Loaded(items: seq<Value>, today: int, rt: Runtime): seq<Entry> {
    if items == [] then []
    else
      var v := items[|items| - 1];
      Loaded(items[..|items| - 1], today, rt) + if Loads(v, today, rt) then [EntryOf(v.m, rt)] else []
  }

  lemma NothingToLoad(today: int, rt: Runtime)
    ensures Loaded([], today, rt) == []
  {
  }

  lemma LoadedAppend(items: seq<Value>, v: Value, today: int, rt: Runtime)
    ensures Loaded(items + [v], today, rt) == Loaded(items, today, rt) + if Loads(v, today, rt) then [EntryOf(v.m, rt)] else []
  {
    hide SoundEntry, EntryOf, LevelOf;
    assert (items + [v])[..|items|] == items;
  }

  predicate SoundBaseline(payload: Value, today: int, rt: Runtime) {
    && Entries(payload).Some?
    && Get(payload.m, "schema_version") == Str(SCHEMA_VERSION)
    && forall i | 0 <= i < |Entries(payload).value| :: Loads(Entries(payload).value[i], today, rt)
  }

  /** What each failure says of the baseline. */
  predicate BaselineFails(f: Failure, payload: Value, today: int, rt: Runtime) {
    match f
    case NotAnObject => !payload.Obj?
    case SchemaVersion => payload.Obj? && Get(payload.m, "schema_version") != Str(SCHEMA_VERSION)
    case EntriesNotList => payload.Obj? && Entries(payload).None?
    case _ => Entries(payload).Some? && exists i: nat | i < |Entries(payload).value| :: ItemFails(f, Entries(payload).value[i], i, today, rt)
  }

  predicate ItemFails(f: Failure, v: Value, index: nat, today: int, rt: Runtime) {
    if v.Obj? then EntryFails(f, v.m, index, today, rt) else f == EntryNotObject(index)
  }

  /** `load_bandit_baseline` on the file's JSON; None when it raises. */
  method LoadBaseline(payload: Value, today: int, rt: Runtime) returns (loaded: Option<(seq<Entry>, seq<Failure>)>)
    ensures loaded.None? <==>
              Entries(payload).Some? && exists i | 0 <= i < |Entries(payload).value| :: Unreadable(Entries(payload).value[i], today, rt)
    ensures loaded.Some? ==>
              && loaded.value.0 == (if Entries(payload).Some? then Loaded(Entries(payload).value, today, rt) else [])
              && (loaded.value.1 == [] <==> SoundBaseline(payload, today, rt))
              && forall f :: f in loaded.value.1 <==> BaselineFails(f, payload, today, rt)
  {
    hide SoundEntry, EntryOf, LevelOf, SCHEMA_VERSION, Loaded, Get, EntryFails;
    if !payload.Obj? {
      return Some(([], [NotAnObject]));
    }
    var failures: seq<Failure> := [];
    if Get(payload.m, "schema_version") != Str(SCHEMA_VERSION) {
      failures := [SchemaVersion];
    }
    if Entries(payload).None? {
      return Some(([], failures + [EntriesNotList]));
    }
    var items := Entries(payload).value;
    var entries: seq<Entry> := [];
    NothingToLoad(today, rt);
    assert items[..0] == [];
    for i := 0 to |items|
      invariant entries == Loaded(items[..i], today, rt)
      invariant forall j | 0 <= j < i :: !Unreadable(items[j], today, rt)
      invariant failures == [] <==>
                  && Get(payload.m, "schema_version") == Str(SCHEMA_VERSION)
                  && forall j | 0 <= j < i :: Loads(items[j], today, rt)
      invariant forall f :: f in failures <==>
                  || (f == SchemaVersion && Get(payload.m, "schema_version") != Str(SCHEMA_VERSION))
                  || exists j: nat | j < i :: ItemFails(f, items[j], j, today, rt)
    {
      assert items[..i + 1] == items[..i] + [items[i]];
      LoadedAppend(items[..i], items[i], today, rt);
      if !items[i].Obj? {
        failures := failures + [EntryNotObject(i)];
        continue;
      }
      var entry, found := LoadEntry(items[i].m, i, today, rt);
      if entry.Some? && rt.whole(Get(items[i].m, "line_number")).None? {
        assert Unreadable(items[i], today, rt);
        return None;
      }
      failures := failures + found;
      if entry.Some? {
        entries := entries + [entry.value];
      }
    }
    assert items[..|items|] == items;
    forall f: Failure, i: nat | i < |items| && ItemFails(f, items[i], i, today, rt)
      ensures !f.NotAnObject? && !f.SchemaVersion? && !f.EntriesNotList?
    {
      ItemFailureKinds(f, items[i], i, today, rt);
    }
    return Some((entries, failures));
  }

  lemma ItemFailureKinds(f: Failure, v: Value, index: nat, today: int, rt: Runtime)
    requires ItemFails(f, v, index, today, rt)
    ensures !f.NotAnObject? && !f.SchemaVersion? && !f.EntriesNotList?
  {
  }

  // ----- comparing a report with the baseline -----

  function ByFingerprint(entries: seq<Entry>): map<string, Entry> {
    if entries == [] then map[]
    else ByFingerprint(entries[..|entries| - 1])[entries[|entries| - 1].fingerprint := entries[|entries| - 1]]
  }

  function Fingerprints(findings: seq<Finding>): seq<string> {
    seq(|findings|, i requires 0 <= i < |findings| => findings[i].fingerprint)
  }

  function Keys(entries: seq<Entry>): seq<string> {
    seq(|entries|, i requires 0 <= i < |entries| => entries[i].fingerprint)
  }

  predicate Repeated(s: seq<string>, x: string) {
    exists i, j | 0 <= i < j < |s| :: s[i] == x && s[j] == x
  }

  /** What one finding is reported for. */
  function Complaint(finding: Finding, baseline: map<string, Entry>): Option<Failure> {
    if finding.severity == High then Some(HighFinding(finding.fingerprint))
    else if finding.fingerprint !in baseline then Some(NewFinding(finding.fingerprint))
    else if Rank(finding.severity) > Rank(baseline[finding.fingerprint].severity) then
      Some(SeverityIncreased(finding.fingerprint))
    else None
  }

  /** The comparison's failures, each defined by what it means. */
  predicate Reported(f: Failure, findings: seq<Finding>, entries: seq<Entry>) {
    match f
    case DuplicateFinding(x) => Repeated(Fingerprints(findings), x)
    case DuplicateEntry(x) => Repeated(Keys(entries), x)
    case StaleEntry(x) => x in Keys(entries) && x !in Fingerprints(findings)
    case _ => exists i | 0 <= i < |findings| :: Complaint(findings[i], ByFingerprint(entries)) == Some(f)
  }

  lemma {:induction false} ByFingerprintKeys(entries: seq<Entry>)
    ensures forall x :: x in ByFingerprint(entries) <==> x in Keys(entries)
    ensures forall x | x in ByFingerprint(entries) :: ByFingerprint(entries)[x].fingerprint == x && ByFingerprint(entries)[x] in entries
  {
    if entries == [] {
    } else {
      var init, last := entries[..|entries| - 1], entries[|entries| - 1];
      ByFingerprintKeys(init);
      assert Keys(entries) == Keys(init) + [last.fingerprint];
      assert entries == init + [last];
    }
  }

  lemma RepeatedOneMore(s: seq<string>, y: string, x: string)
    ensures Repeated(s + [y], x) <==> Repeated(s, x) || (x == y && y in s)
  {
    var t := s + [y];
    if Repeated(s, x) {
      var i, j :| 0 <= i < j < |s| && s[i] == x && s[j] == x;
      assert t[i] == x && t[j] == x;
    }
    if x == y && y in s {
      var i :| 0 <= i < |s| && s[i] == y;
      assert t[i] == x && t[|s|] == x;
    }
  }

  /** The findings' fingerprints, and a failure for each one met again. */
  method IndexFindings(findings: seq<Finding>) returns (current: set<string>, failures: seq<Failure>)
    ensures forall x :: x in current <==> x in Fingerprints(findings)
    ensures forall f :: f in failures <==> f.DuplicateFinding? && Repeated(Fingerprints(findings), f.fingerprint)
  {
    ghost var keys := Fingerprints(findings);
    current, failures := {}, [];
    for i := 0 to |findings|
      invariant forall x :: x in current <==> x in keys[..i]
      invariant forall f :: f in failures <==> f.DuplicateFinding? && Repeated(keys[..i], f.fingerprint)
    {
      assert keys[..i + 1] == keys[..i] + [keys[i]];
      forall x
        ensures Repeated(keys[..i + 1], x) <==> Repeated(keys[..i], x) || (x == keys[i] && keys[i] in keys[..i])
      {
        RepeatedOneMore(keys[..i], keys[i], x);
      }
      if findings[i].fingerprint in current {
        failures := failures + [DuplicateFinding(findings[i].fingerprint)];
      }
      current := current + {findings[i].fingerprint};
    }
    assert keys[..|keys|] == keys;
  }

  /** The baseline's dictionary, in which a later entry replaces an earlier one, and a failure for each replacement. */
  method IndexEntries(entries: seq<Entry>) returns (baseline: map<string, Entry>, failures: seq<Failure>)
    ensures baseline == ByFingerprint(entries)
    ensures forall f :: f in failures <==> f.DuplicateEntry? && Repeated(Keys(entries), f.fingerprint)
  {
    ghost var keys := Keys(entries);
    baseline, failures := map[], [];
    for i := 0 to |entries|
      invariant baseline == ByFingerprint(entries[..i])
      invariant forall x :: x in baseline <==> x in keys[..i]
      invariant forall f :: f in failures <==> f.DuplicateEntry? && Repeated(keys[..i], f.fingerprint)
    {
      assert entries[..i + 1][..i] == entries[..i];
      assert keys[..i + 1] == keys[..i] + [keys[i]];
      forall x
        ensures Repeated(keys[..i + 1], x) <==> Repeated(keys[..i], x) || (x == keys[i] && keys[i] in keys[..i])
      {
        RepeatedOneMore(keys[..i], keys[i], x);
      }
      if entries[i].fingerprint in baseline {
        failures := failures + [DuplicateEntry(entries[i].fingerprint)];
      }
      baseline := baseline[entries[i].fingerprint := entries[i]];
    }
    assert keys[..|keys|] == keys && entries[..|entries|] == entries;
  }

  /** The part of `validate_bandit_report_against_baseline` that compares. */
  method Compare(findings: seq<Finding>, entries: seq<Entry>) returns (failures: seq<Failure>)
    ensures forall f :: f in failures <==> Reported(f, findings, entries)
  {
    hide Repeated, ByFingerprint, Complaint, Fingerprints, Keys;
    var current, duplicateFindings := IndexFindings(findings);
    var baseline, duplicateEntries := IndexEntries(entries);
    ByFingerprintKeys(entries);
    var complaints: seq<Failure> := [];
    for i := 0 to |findings|
      invariant forall f :: f in complaints <==> exists k | 0 <= k < i :: Complaint(findings[k], baseline) == Some(f)
    {
      var complaint := Complaint(findings[i], baseline);
      if complaint.Some? {
        complaints := complaints + [complaint.value];
      }
    }
    var stale: seq<Failure> := [];
    var todo := baseline.Keys;
    while todo != {}
      invariant todo <= baseline.Keys
      invariant forall f :: f in stale <==> f.StaleEntry? && f.fingerprint in baseline.Keys - todo && f.fingerprint !in current
    {
      var fingerprint :| fingerprint in todo;
      todo := todo - {fingerprint};
      if fingerprint !in current {
        stale := stale + [StaleEntry(fingerprint)];
      }
    }
    failures := duplicateFindings + duplicateEntries + complaints + stale;
    forall f
      ensures f in failures <==> Reported(f, findings, entries)
    {
      if exists i | 0 <= i < |findings| :: Complaint(findings[i], baseline) == Some(f) {
        ComplaintKinds(findings, baseline, f);
      }
    }
  }

  lemma ComplaintKinds(findings: seq<Finding>, baseline: map<string, Entry>, f: Failure)
    requires exists i | 0 <= i < |findings| :: Complaint(findings[i], baseline) == Some(f)
    ensures !f.DuplicateFinding? && !f.DuplicateEntry? && !f.StaleEntry?
  {
  }

  /** The report and the baseline agree: same distinct fingerprints, nothing HIGH, nothing worse than reviewed. */
  ghost predicate Matches(findings: seq<Finding>, entries: seq<Entry>) {
    && NoRepeats(Fingerprints(findings))
    && NoRepeats(Keys(entries))
    && (forall x :: x in Fingerprints(findings) <==> x in Keys(entries))
    && (forall i | 0 <= i < |findings| :: findings[i].severity != High)
    && forall i, j | 0 <= i < |findings| && 0 <= j < |entries| && findings[i].fingerprint == entries[j].fingerprint ::
         !(findings[i].severity == Medium && entries[j].severity == Low)
  }

  lemma NothingReportedIff(findings: seq<Finding>, entries: seq<Entry>)
    ensures (forall f :: !Reported(f, findings, entries)) <==> Matches(findings, entries)
  {
    if forall f :: !Reported(f, findings, entries) {
      NothingReported(findings, entries);
    }
    if Matches(findings, entries) {
      forall f
        ensures !Reported(f, findings, entries)
      {
        MatchesReportsNothing(findings, entries, f);
      }
    }
  }

  lemma NothingReported(findings: seq<Finding>, entries: seq<Entry>)
    requires forall f :: !Reported(f, findings, entries)
    ensures Matches(findings, entries)
  {
    var baseline := ByFingerprint(entries);
    ByFingerprintKeys(entries);
    NotRepeated(Fingerprints(findings), x => DuplicateFinding(x), findings, entries);
    NotRepeated(Keys(entries), x => DuplicateEntry(x), findings, entries);
    forall i | 0 <= i < |findings|
      ensures Complaint(findings[i], baseline) == None
    {
      if Complaint(findings[i], baseline).Some? {
        ComplaintKinds(findings, baseline, Complaint(findings[i], baseline).value);
        assert Reported(Complaint(findings[i], baseline).value, findings, entries);
      }
    }
    forall x
      ensures x in Fingerprints(findings) <==> x in Keys(entries)
    {
      assert !Reported(StaleEntry(x), findings, entries);
    }
    forall i, j | 0 <= i < |findings| && 0 <= j < |entries| && findings[i].fingerprint == entries[j].fingerprint
      ensures !(findings[i].severity == Medium && entries[j].severity == Low)
    {
      OnlyEntry(entries, j);
      assert Complaint(findings[i], baseline) == None;
    }
  }

  lemma NotRepeated(keys: seq<string>, failure: string -> Failure, findings: seq<Finding>, entries: seq<Entry>)
    requires forall x :: !Reported(failure(x), findings, entries)
    requires forall x :: Reported(failure(x), findings, entries) <==> Repeated(keys, x)
    ensures NoRepeats(keys)
  {
    forall i, j | 0 <= i < j < |keys|
      ensures keys[i] != keys[j]
    {
      assert !Reported(failure(keys[i]), findings, entries);
    }
  }

  lemma {:induction false} OnlyEntry(entries: seq<Entry>, j: nat)
    requires NoRepeats(Keys(entries)) && j < |entries|
    ensures entries[j].fingerprint in ByFingerprint(entries) && ByFingerprint(entries)[entries[j].fingerprint] == entries[j]
  {
    var init, last := entries[..|entries| - 1], entries[|entries| - 1];
    assert Keys(entries) == Keys(init) + [last.fingerprint];
    if j < |init| {
      assert forall k | 0 <= k < |init| :: Keys(init)[k] == Keys(entries)[k];
      assert Keys(entries)[j] != Keys(entries)[|init|];
      OnlyEntry(init, j);
    }
  }

  lemma MatchesReportsNothing(findings: seq<Finding>, entries: seq<Entry>, f: Failure)
    requires Matches(findings, entries)
    ensures !Reported(f, findings, entries)
  {
    hide ByFingerprint;
    var baseline := ByFingerprint(entries);
    ByFingerprintKeys(entries);
    forall i | 0 <= i < |findings|
      ensures Complaint(findings[i], baseline) == None
    {
      assert Fingerprints(findings)[i] == findings[i].fingerprint;
      assert findings[i].fingerprint in Keys(entries);
      var j :| 0 <= j < |Keys(entries)| && Keys(entries)[j] == findings[i].fingerprint;
      OnlyEntry(entries, j);
    }
  }

  /** The baseline accepts a report. */
  ghost predicate Accepts(payload: Value, findings: seq<Finding>, today: int, rt: Runtime) {
    SoundBaseline(payload, today, rt) && Matches(findings, Loaded(Entries(payload).value, today, rt))
  }

  /**
   `validate_bandit_report_against_baseline`; None when it raises.  It accepts exactly when the baseline is sound
   and has the report's fingerprints, each once, with nothing HIGH and nothing above its reviewed severity.
   */
  method Validate(results: seq<RawResult>, payload: Value, today: int, rt: Runtime) returns (failures: Option<seq<Failure>>)
    ensures failures.None? <==>
              || Findings(results, rt).None?
              || (Entries(payload).Some?
                  && exists i | 0 <= i < |Entries(payload).value| :: Unreadable(Entries(payload).value[i], today, rt))
    ensures failures.Some? ==> (failures.value == [] <==> Accepts(payload, Findings(results, rt).value, today, rt))
    ensures failures.Some? ==>
              var entries := if Entries(payload).Some? then Loaded(Entries(payload).value, today, rt) else [];
              forall f :: f in failures.value <==>
                BaselineFails(f, payload, today, rt) || Reported(f, Findings(results, rt).value, entries)
  {
    hide SoundBaseline, Matches, Findings, Reported, BaselineFails;
    var findings := Findings(results, rt);
    if findings.None? {
      return None;
    }
    var loaded := LoadBaseline(payload, today, rt);
    if loaded.None? {
      return None;
    }
    var compared := Compare(findings.value, loaded.value.0);
    NothingReportedIff(findings.value, loaded.value.0);
    assert SoundBaseline(payload, today, rt) ==> Entries(payload).Some? by {
      SoundHasEntries(payload, today, rt);
    }
    assert compared == [] <==> Matches(findings.value, loaded.value.0) by {
      if compared != [] {
        assert compared[0] in compared;
      }
    }
    failures := Some(loaded.value.1 + compared);
  }

  lemma SoundHasEntries(payload: Value, today: int, rt: Runtime)
    ensures SoundBaseline(payload, today, rt) ==> Entries(payload).Some?
  {
  }

  // ----- capturing a baseline -----

  datatype Review = Review(owner: string, rationale: string, expires: int, remediation: string, control: string)

  function FindingFields(f: Finding): map<string, Value> {
    map["fingerprint" := Str(f.fingerprint),
        "test_id" := Str(f.testId),
        "test_name" := Str(f.testName),
        "severity" := Str(LevelName(f.severity)),
        "confidence" := Str(LevelName(f.confidence)),
        "filename" := Str(f.filename),
        "line_number" := Int(f.line)]
  }

  function ReviewFields(review: Review, rt: Runtime): map<string, Value> {
    map["owner" := Str(review.owner),
        "rationale" := Str(review.rationale),
        "expires_on" := Str(rt.isoformat(review.expires)),
        "linked_remediation" := Str(review.remediation),
        "compensating_control" := Str(review.control)]
  }

  function EntryFields(f: Finding, review: Review, rt: Runtime): map<string, Value> {
    FindingFields(f) + ReviewFields(review, rt)
  }

  /** The order of the captured entries: by file, line and test. */
  predicate Before(a: Finding, b: Finding) {
    if a.filename != b.filename then LexLe(a.filename, b.filename)
    else if a.line != b.line then a.line < b.line
    else LexLe(a.testId, b.testId)
  }

  function NonHigh(findings: seq<Finding>): seq<Finding> {
    if findings == [] then []
    else
      var f := findings[|findings| - 1];
      NonHigh(findings[..|findings| - 1]) + if f.severity == High then [] else [f]
  }

  /** The entries made of the findings that are not HIGH. */
  function Captured(findings: seq<Finding>, review: Review, rt: Runtime): seq<Value> {
    Mapped(NonHigh(findings), f => Obj(EntryFields(f, review, rt)))
  }

  /** `build_current_baseline_payload`; None when it raises. */
  method BuildCurrentBaseline(results: seq<RawResult>, review: Review, rt: Runtime) returns (payload: Option<Value>)
    ensures payload == if Findings(results, rt).None? then None
                       else Some(CapturedBaseline(Findings(results, rt).value, review, rt))
  {
    var findings := Findings(results, rt);
    if findings.None? {
      return None;
    }
    var ordered := Sort(Before, findings.value);
    var entries: seq<Value> := [];
    for i := 0 to |ordered|
      invariant entries == Captured(ordered[..i], review, rt)
    {
      assert ordered[..i + 1][..i] == ordered[..i];
      if ordered[i].severity == High {
        continue;
      }
      entries := entries + [Obj(EntryFields(ordered[i], review, rt))];
    }
    assert ordered[..|ordered|] == ordered;
    payload := Some(Obj(map["schema_version" := Str(SCHEMA_VERSION), "service" := Str("lotus-advise"),
                            "source_path" := Str("src"), "entries" := List(entries)]));
  }

  function CapturedBaseline(findings: seq<Finding>, review: Review, rt: Runtime): Value {
    Obj(map["schema_version" := Str(SCHEMA_VERSION), "service" := Str("lotus-advise"), "source_path" := Str("src"),
            "entries" := List(Captured(Sort(Before, findings), review, rt))])
  }

  /** Nothing that an entry requires is empty. */
  predicate Complete(f: Finding, review: Review) {
    && f.testId != "" && f.filename != ""
    && review.owner != "" && review.rationale != "" && review.remediation != "" && review.control != ""
  }

  lemma EntrySoundIff(f: Finding, review: Review, today: int, rt: Runtime)
    requires Faithful(rt) && f.fingerprint != ""
    ensures SoundEntry(EntryFields(f, review, rt), today, rt) <==> Complete(f, review) && today <= review.expires
    ensures SoundEntry(EntryFields(f, review, rt), today, rt) ==>
              EntryOf(EntryFields(f, review, rt), rt) == Entry(f.fingerprint, f.severity)
  {
    hide LevelOf, LevelName, FindingFields, ReviewFields;
    var raw := EntryFields(f, review, rt);
    LevelOfName(f.severity);
    LevelOfName(f.confidence);
    FindingFieldsRead(f);
    ReviewFieldsRead(review, rt);
    assert Get(raw, "severity") == Str(LevelName(f.severity)) && Get(raw, "confidence") == Str(LevelName(f.confidence));
    assert Get(raw, "fingerprint") == Str(f.fingerprint) && Get(raw, "expires_on") == Str(rt.isoformat(review.expires));
    assert Unexpired(raw, today, rt) <==> today <= review.expires;
    assert (forall field | field in REQUIRED :: Present(raw, field)) <==>
           (forall i | 0 <= i < |REQUIRED| :: Present(raw, REQUIRED[i]));
    RequiredOfFields(f, review, rt);
  }

  lemma FindingFieldsRead(f: Finding)
    ensures var raw := FindingFields(f);
            && Get(raw, "fingerprint") == Str(f.fingerprint)
            && Get(raw, "severity") == Str(LevelName(f.severity)) && Get(raw, "confidence") == Str(LevelName(f.confidence))
            && raw.Keys == {"fingerprint", "test_id", "test_name", "severity", "confidence", "filename", "line_number"}
  {
  }

  lemma ReviewFieldsRead(review: Review, rt: Runtime)
    ensures var raw := ReviewFields(review, rt);
            && Get(raw, "expires_on") == Str(rt.isoformat(review.expires))
            && raw.Keys == {"owner", "rationale", "expires_on", "linked_remediation", "compensating_control"}
  {
  }

  lemma RequiredOfFinding(f: Finding)
    requires f.fingerprint != "" && LevelName(f.severity) != "" && LevelName(f.confidence) != ""
    ensures (forall i | 0 <= i < 6 :: Present(FindingFields(f), REQUIRED[i])) <==> f.testId != "" && f.filename != ""
    ensures forall i | 0 <= i < 6 :: REQUIRED[i] in FindingFields(f)
  {
    FindingReads(f);
    RequiredNames();
    hide LevelName, FindingFields, REQUIRED;
    var raw := FindingFields(f);
    var present := (i: int) requires 0 <= i < 6 => Present(raw, REQUIRED[i]);
    assert present(0) && present(2) && present(3) && present(5);
    assert present(1) == (f.testId != "") && present(4) == (f.filename != "");
  }

  lemma RequiredNames()
    ensures |REQUIRED| == 11
    ensures REQUIRED[0] == "fingerprint" && REQUIRED[1] == "test_id" && REQUIRED[2] == "severity" && REQUIRED[3] == "confidence"
    ensures REQUIRED[4] == "filename" && REQUIRED[5] == "line_number" && REQUIRED[6] == "owner" && REQUIRED[7] == "rationale"
    ensures REQUIRED[8] == "expires_on" && REQUIRED[9] == "linked_remediation" && REQUIRED[10] == "compensating_control"
  {
  }

  lemma FindingReads(f: Finding)
    ensures var raw := FindingFields(f);
            && {"fingerprint", "test_id", "severity", "confidence", "filename", "line_number"} <= raw.Keys
            && raw["fingerprint"] == Str(f.fingerprint) && raw["test_id"] == Str(f.testId)
            && raw["severity"] == Str(LevelName(f.severity)) && raw["confidence"] == Str(LevelName(f.confidence))
            && raw["filename"] == Str(f.filename) && raw["line_number"] == Int(f.line)
  {
    hide LevelName;
  }

  lemma ReviewReads(review: Review, rt: Runtime)
    ensures var raw := ReviewFields(review, rt);
            && {"owner", "rationale", "expires_on", "linked_remediation", "compensating_control"} <= raw.Keys
            && raw["owner"] == Str(review.owner) && raw["rationale"] == Str(review.rationale)
            && raw["expires_on"] == Str(rt.isoformat(review.expires))
            && raw["linked_remediation"] == Str(review.remediation) && raw["compensating_control"] == Str(review.control)
  {
  }

  lemma RequiredOfReview(review: Review, rt: Runtime)
    requires Faithful(rt)
    ensures (forall i | 6 <= i < 11 :: Present(ReviewFields(review, rt), REQUIRED[i])) <==>
            review.owner != "" && review.rationale != "" && review.remediation != "" && review.control != ""
    ensures forall i | 6 <= i < 11 :: REQUIRED[i] in ReviewFields(review, rt)
  {
    ReviewReads(review, rt);
    RequiredNames();
    hide ReviewFields, REQUIRED;
    var raw := ReviewFields(review, rt);
    var present := (i: int) requires 6 <= i < 11 => Present(raw, REQUIRED[i]);
    assert present(8);
    assert present(6) == (review.owner != "") && present(7) == (review.rationale != "");
    assert present(9) == (review.remediation != "") && present(10) == (review.control != "");
  }

  lemma RequiredOfFields(f: Finding, review: Review, rt: Runtime)
    requires Faithful(rt)
    requires f.fingerprint != "" && LevelName(f.severity) != "" && LevelName(f.confidence) != ""
    ensures (forall i | 0 <= i < |REQUIRED| :: Present(EntryFields(f, review, rt), REQUIRED[i])) <==> Complete(f, review)
  {
    var finding, reviewed := FindingFields(f), ReviewFields(review, rt);
    RequiredOfFinding(f);
    RequiredOfReview(review, rt);
    FieldsApart(f, review, rt);
    RequiredNames();
    hide *;
    forall i | 0 <= i < |REQUIRED|
      ensures Present(EntryFields(f, review, rt), REQUIRED[i]) <==> Present(if i < 6 then finding else reviewed, REQUIRED[i])
    {
      PresentInEither(f, review, rt, REQUIRED[i]);
    }
    CompleteIs(f, review);
  }

  lemma FieldsApart(f: Finding, review: Review, rt: Runtime)
    ensures FindingFields(f).Keys !! ReviewFields(review, rt).Keys
  {
    hide FindingFields, ReviewFields;
    FindingFieldsRead(f);
    ReviewFieldsRead(review, rt);
  }

  lemma PresentInEither(f: Finding, review: Review, rt: Runtime, field: string)
    requires FindingFields(f).Keys !! ReviewFields(review, rt).Keys
    ensures field in FindingFields(f) ==> (Present(EntryFields(f, review, rt), field) <==> Present(FindingFields(f), field))
    ensures field in ReviewFields(review, rt) ==> (Present(EntryFields(f, review, rt), field) <==> Present(ReviewFields(review, rt), field))
  {
    hide FindingFields, ReviewFields;
  }

  lemma CompleteIs(f: Finding, review: Review)
    ensures Complete(f, review) <==>
            && f.testId != "" && f.filename != ""
            && review.owner != "" && review.rationale != "" && review.remediation != "" && review.control != ""
  {
  }

  /** The captured findings as the entries that they load as. */
  function AsEntries(findings: seq<Finding>): seq<Entry> {
    Mapped(NonHigh(findings), (f: Finding) => Entry(f.fingerprint, f.severity))
  }

  lemma {:induction false} LoadedAll(findings: seq<Finding>, review: Review, today: int, rt: Runtime)
    requires Faithful(rt) && today <= review.expires
    requires forall f | f in findings :: f.fingerprint != "" && Complete(f, review)
    ensures Loaded(Mapped(findings, f => Obj(EntryFields(f, review, rt))), today, rt)
         == Mapped(findings, (f: Finding) => Entry(f.fingerprint, f.severity))
  {
    hide EntryFields, SoundEntry, EntryOf, Complete;
    var items := Mapped(findings, f => Obj(EntryFields(f, review, rt)));
    if findings == [] {
    } else {
      var init, last := findings[..|findings| - 1], findings[|findings| - 1];
      LoadedAll(init, review, today, rt);
      assert items[..|items| - 1] == Mapped(init, f => Obj(EntryFields(f, review, rt)));
      EntrySoundIff(last, review, today, rt);
    }
  }

  /** Whether each captured finding makes a sound entry. */
  predicate Capturable(findings: seq<Finding>, review: Review, today: int) {
    forall f | f in findings && f.severity != High :: Complete(f, review) && today <= review.expires
  }

  lemma {:induction false} NonHighCounts(findings: seq<Finding>, f: Finding)
    ensures multiset(NonHigh(findings))[f] == if f.severity == High then 0 else multiset(findings)[f]
  {
    if findings == [] {
    } else {
      var init, last := findings[..|findings| - 1], findings[|findings| - 1];
      assert findings == init + [last];
      NonHighCounts(init, f);
    }
  }

  lemma {:induction false} NonHighMembers(findings: seq<Finding>, f: Finding)
    ensures f in NonHigh(findings) <==> f in findings && f.severity != High
  {
    NonHighCounts(findings, f);
    assert f in NonHigh(findings) <==> f in multiset(NonHigh(findings));
    assert f in findings <==> f in multiset(findings);
  }

  /** Sorting the report first does not matter to what the baseline accepts. */
  lemma MatchesPermuted(findings: seq<Finding>, a: seq<Entry>, b: seq<Entry>)
    requires multiset(a) == multiset(b) && Matches(findings, a)
    ensures Matches(findings, b)
  {
    var key := (e: Entry) => e.fingerprint;
    MappedPermutes(a, b, key);
    assert Mapped(a, key) == Keys(a) && Mapped(b, key) == Keys(b);
    NoRepeatsMultiset(Keys(a));
    NoRepeatsMultiset(Keys(b));
    forall x
      ensures x in Keys(a) <==> x in Keys(b)
    {
      assert x in Keys(a) <==> x in multiset(Keys(a));
      assert x in Keys(b) <==> x in multiset(Keys(b));
    }
    forall i, j | 0 <= i < |findings| && 0 <= j < |b| && findings[i].fingerprint == b[j].fingerprint
      ensures !(findings[i].severity == Medium && b[j].severity == Low)
    {
      assert b[j] in multiset(a);
      var k :| 0 <= k < |a| && a[k] == b[j];
    }
  }

  /**
   A baseline captured from one report accepts another exactly when every captured entry is complete and unexpired
   and the other report agrees with the captured findings that are not HIGH.
   */
  lemma CapturedAccepts(captured: seq<Finding>, findings: seq<Finding>, review: Review, today: int, rt: Runtime)
    requires Faithful(rt) && forall f | f in captured :: f.fingerprint != ""
    ensures Accepts(CapturedBaseline(captured, review, rt), findings, today, rt) <==>
            Capturable(captured, review, today) && Matches(findings, AsEntries(captured))
  {
    hide Matches, EntryFields, SoundEntry, EntryOf, Complete, Sort, Mapped;
    var sorted := Sort(Before, captured);
    var payload := CapturedBaseline(captured, review, rt);
    SortPermutes(Before, captured);
    SoundIff(captured, review, today, rt);
    if Capturable(captured, review, today) {
      forall f | f in NonHigh(sorted)
        ensures f.fingerprint != "" && Complete(f, review) && today <= review.expires
      {
        NonHighMembers(sorted, f);
        assert f in multiset(captured);
      }
      if NonHigh(sorted) == [] {
        NothingLoaded(review, today, rt);
      } else {
        assert NonHigh(sorted)[0] in NonHigh(sorted);
        LoadedAll(NonHigh(sorted), review, today, rt);
      }
      assert Loaded(Captured(sorted, review, rt), today, rt) == AsEntries(sorted);
      AsEntriesPermute(sorted, captured);
      if Matches(findings, AsEntries(sorted)) {
        MatchesPermuted(findings, AsEntries(sorted), AsEntries(captured));
      }
      if Matches(findings, AsEntries(captured)) {
        MatchesPermuted(findings, AsEntries(captured), AsEntries(sorted));
      }
    }
  }

  lemma NothingLoaded(review: Review, today: int, rt: Runtime)
    ensures Loaded(Mapped([], f => Obj(EntryFields(f, review, rt))), today, rt) == []
    ensures Mapped([], (f: Finding) => Entry(f.fingerprint, f.severity)) == []
  {
  }

  lemma AsEntriesPermute(a: seq<Finding>, b: seq<Finding>)
    requires multiset(a) == multiset(b)
    ensures multiset(AsEntries(a)) == multiset(AsEntries(b))
  {
    forall f
      ensures multiset(NonHigh(a))[f] == multiset(NonHigh(b))[f]
    {
      NonHighCounts(a, f);
      NonHighCounts(b, f);
    }
    assert multiset(NonHigh(a)) == multiset(NonHigh(b));
    MappedPermutes(NonHigh(a), NonHigh(b), (f: Finding) => Entry(f.fingerprint, f.severity));
  }

  lemma SoundIff(captured: seq<Finding>, review: Review, today: int, rt: Runtime)
    requires Faithful(rt) && forall f | f in captured :: f.fingerprint != ""
    ensures Entries(CapturedBaseline(captured, review, rt)) == Some(Captured(Sort(Before, captured), review, rt))
    ensures SoundBaseline(CapturedBaseline(captured, review, rt), today, rt) <==> Capturable(captured, review, today)
  {
    hide EntryFields, SoundEntry, Complete, Sort;
    var sorted := Sort(Before, captured);
    SortPermutes(Before, captured);
    var items := Captured(sorted, review, rt);
    forall i | 0 <= i < |items|
      ensures NonHigh(sorted)[i] in captured && NonHigh(sorted)[i].severity != High
      ensures Loads(items[i], today, rt) <==> Complete(NonHigh(sorted)[i], review) && today <= review.expires
    {
      var f := NonHigh(sorted)[i];
      NonHighMembers(sorted, f);
      assert f in multiset(captured);
      EntrySoundIff(f, review, today, rt);
    }
    if forall i | 0 <= i < |items| :: Loads(items[i], today, rt) {
      forall f | f in captured && f.severity != High
        ensures Complete(f, review) && today <= review.expires
      {
        assert f in multiset(sorted);
        NonHighMembers(sorted, f);
        var i :| 0 <= i < |NonHigh(sorted)| && NonHigh(sorted)[i] == f;
        assert Loads(items[i], today, rt);
      }
    }
  }

  /**
   Capturing a baseline from a report and validating that report against it succeeds exactly when no finding is HIGH,
   the fingerprints are distinct, and (unless there is nothing to review) every entry is complete and unexpired.
   */
  lemma CaptureThenValidate(results: seq<RawResult>, findings: seq<Finding>, review: Review, today: int, rt: Runtime)
    requires Faithful(rt) && Findings(results, rt) == Some(findings)
    ensures Accepts(CapturedBaseline(findings, review, rt), findings, today, rt) <==>
            && (forall i | 0 <= i < |findings| :: findings[i].severity != High)
            && NoRepeats(Fingerprints(findings))
            && (findings != [] ==> today <= review.expires)
            && (forall f | f in findings :: Complete(f, review))
  {
    hide Complete, Mapped;
    forall f | f in findings
      ensures f.fingerprint != ""
    {
      var i :| 0 <= i < |findings| && findings[i] == f;
      assert FindingOf(results[i], rt).Some?;
    }
    CapturedAccepts(findings, findings, review, today, rt);
    if forall i | 0 <= i < |findings| :: findings[i].severity != High {
      NoneHigh(findings);
      MatchesItself(findings);
      if findings != [] {
        assert findings[0] in findings;
      }
    }
  }

  lemma {:induction false} NoneHigh(findings: seq<Finding>)
    requires forall i | 0 <= i < |findings| :: findings[i].severity != High
    ensures NonHigh(findings) == findings
  {
    if findings == [] {
    } else {
      var init, last := findings[..|findings| - 1], findings[|findings| - 1];
      assert forall i | 0 <= i < |init| :: init[i] == findings[i];
      NoneHigh(init);
      assert last.severity != High;
      assert findings == init + [last];
    }
  }

  lemma MatchesItself(findings: seq<Finding>)
    requires forall i | 0 <= i < |findings| :: findings[i].severity != High
    ensures Matches(findings, Mapped(findings, (f: Finding) => Entry(f.fingerprint, f.severity)))
            <==> NoRepeats(Fingerprints(findings))
  {
    var entries := Mapped(findings, (f: Finding) => Entry(f.fingerprint, f.severity));
    assert Keys(entries) == Fingerprints(findings);
    forall i, j | NoRepeats(Fingerprints(findings)) && 0 <= i < |findings| && 0 <= j < |entries|
                  && findings[i].fingerprint == entries[j].fingerprint
      ensures i == j
    {
      assert Fingerprints(findings)[i] == Fingerprints(findings)[j];
    }
  }
}
