/** What the findings, failures and captured entries of the static-analysis baseline say, stated without its helpers. */
module BanditMeaning {
  import opened Wrappers
  import opened Text
  import opened Sorting
  import opened Json
  import opened BanditBaseline

  // ----- reading a report -----

  /** The character is this capital letter, its lower-case letter, or one of the two others whose capital it is. */
  predicate Capital(c: char, letter: char) {
    || c == letter
    || (c as int == letter as int + 32)
    || (letter == 'I' && c == '\U{131}')
    || (letter == 'S' && c == '\U{17F}')
  }

  predicate Spells(s: string, word: string) {
    |s| == |word| && forall i | 0 <= i < |s| :: Capital(s[i], word[i])
  }

  /** The value names the level, in whatever case. */
  predicate NamesLevel(v: Value, level: Level) {
    v.Str? && Spells(v.s, match level case Low => "LOW" case Medium => "MEDIUM" case High => "HIGH")
  }

  lemma UpperSpells(s: string, word: string)
    requires forall i | 0 <= i < |word| :: 'A' <= word[i] <= 'Z'
    ensures Upper(s) == word <==> Spells(s, word)
  {
    if |s| == |word| {
      forall i | 0 <= i < |s|
        ensures Upper(s)[i] == word[i] <==> Capital(s[i], word[i])
      {
      }
    }
  }

  lemma LevelExact(v: Value, level: Level)
    ensures LevelOf(v) == Some(level) <==> NamesLevel(v, level)
  {
    if v.Str? {
      UpperSpells(v.s, "LOW");
      UpperSpells(v.s, "MEDIUM");
      UpperSpells(v.s, "HIGH");
      assert |"LOW"| == 3 && |"MEDIUM"| == 6 && |"HIGH"| == 4;
    }
    hide Spells;
  }

  /** The finding tells of the result: its levels, its path with slashes, and the hash of the five fields in this order. */
  predicate TellsOf(f: Finding, r: RawResult, rt: Runtime) {
    && NamesLevel(r.severity, f.severity) && NamesLevel(r.confidence, f.confidence)
    && Slashed(r.filename, f.filename) && f.line == r.line && f.testId == r.testId && f.testName == r.testName
    && f.fingerprint == rt.hash(r.code, f.filename, r.text, r.testId, r.testName)
  }

  lemma FindingExact(r: RawResult, rt: Runtime, f: Finding)
    ensures FindingOf(r, rt) == Some(f) <==> TellsOf(f, r, rt)
  {
    LevelExact(r.severity, f.severity);
    LevelExact(r.confidence, f.confidence);
    SlashedIff(r.filename, f.filename);
    hide LevelOf, NamesLevel, Slashed, Replace;
  }

  /** A report is read exactly when all its levels are, one finding for each result in order. */
  lemma FindingsExact(results: seq<RawResult>, rt: Runtime, findings: seq<Finding>)
    ensures Findings(results, rt) == Some(findings)
       <==> |findings| == |results| && forall i | 0 <= i < |results| :: TellsOf(findings[i], results[i], rt)
  {
    hide FindingOf, TellsOf;
    forall i | 0 <= i < |results| && i < |findings|
      ensures FindingOf(results[i], rt) == Some(findings[i]) <==> TellsOf(findings[i], results[i], rt)
    {
      FindingExact(results[i], rt, findings[i]);
    }
    if |findings| == |results| && forall i | 0 <= i < |results| :: TellsOf(findings[i], results[i], rt) {
      assert forall i | 0 <= i < |results| :: FindingOf(results[i], rt) == Some(findings[i]);
      assert seq(|results|, i requires 0 <= i < |results| => FindingOf(results[i], rt).value) == findings;
    }
  }

  // ----- what the comparison reports -----

  /** The entry at `j` is the last one with this fingerprint. */
  predicate LastEntry(entries: seq<Entry>, j: nat, x: string) {
    j < |entries| && entries[j].fingerprint == x && forall k | j < k < |entries| :: entries[k].fingerprint != x
  }

  lemma {:induction false} LastCounts(entries: seq<Entry>, j: nat, x: string)
    requires LastEntry(entries, j, x)
    ensures x in ByFingerprint(entries) && ByFingerprint(entries)[x] == entries[j]
  {
    if j < |entries| - 1 {
      assert LastEntry(entries[..|entries| - 1], j, x);
      LastCounts(entries[..|entries| - 1], j, x);
    }
  }

  lemma {:induction false} FindLastEntry(entries: seq<Entry>, x: string) returns (j: nat)
    requires x in ByFingerprint(entries)
    ensures LastEntry(entries, j, x)
  {
    var n := |entries| - 1;
    if entries[n].fingerprint == x {
      j := n;
    } else {
      j := FindLastEntry(entries[..n], x);
    }
  }

  /** What each failure of the comparison says of the report and the baseline. */
  ghost predicate Means(f: Failure, findings: seq<Finding>, entries: seq<Entry>) {
    match f
    case DuplicateFinding(x) => exists i, j :: 0 <= i < j < |findings| && findings[i].fingerprint == findings[j].fingerprint == x
    case DuplicateEntry(x) => exists i, j :: 0 <= i < j < |entries| && entries[i].fingerprint == entries[j].fingerprint == x
    case HighFinding(x) => exists g :: g in findings && g.fingerprint == x && g.severity == High
    case NewFinding(x) =>
      (exists g :: g in findings && g.fingerprint == x && g.severity != High) && forall e | e in entries :: e.fingerprint != x
    case SeverityIncreased(x) =>
      && (exists g :: g in findings && g.fingerprint == x && g.severity == Medium)
      && exists j: nat :: LastEntry(entries, j, x) && entries[j].severity == Low
    case StaleEntry(x) => (exists e :: e in entries && e.fingerprint == x) && forall g | g in findings :: g.fingerprint != x
    case _ => false
  }

  /** Some finding complains. */
  predicate Complains(findings: seq<Finding>, baseline: map<string, Entry>, f: Failure) {
    exists i | 0 <= i < |findings| :: Complaint(findings[i], baseline) == Some(f)
  }

  lemma ComplainsIff(findings: seq<Finding>, baseline: map<string, Entry>, f: Failure)
    ensures Complains(findings, baseline, f) <==> exists g :: g in findings && Complaint(g, baseline) == Some(f)
  {
    hide Complaint;
    if g :| g in findings && Complaint(g, baseline) == Some(f) {
      var i :| 0 <= i < |findings| && findings[i] == g;
    }
  }

  lemma HighMeans(findings: seq<Finding>, baseline: map<string, Entry>, x: string)
    ensures Complains(findings, baseline, HighFinding(x)) <==> exists g :: g in findings && g.fingerprint == x && g.severity == High
  {
    ComplainsIff(findings, baseline, HighFinding(x));
    hide Complains;
    assert forall g :: Complaint(g, baseline) == Some(HighFinding(x)) <==> g.fingerprint == x && g.severity == High;
  }

  lemma NewMeans(findings: seq<Finding>, baseline: map<string, Entry>, x: string)
    ensures Complains(findings, baseline, NewFinding(x))
       <==> (exists g :: g in findings && g.fingerprint == x && g.severity != High) && x !in baseline
  {
    ComplainsIff(findings, baseline, NewFinding(x));
    hide Complains;
    assert forall g :: Complaint(g, baseline) == Some(NewFinding(x)) <==> g.fingerprint == x && g.severity != High && x !in baseline;
  }

  lemma IncreasedMeans(findings: seq<Finding>, baseline: map<string, Entry>, x: string)
    ensures Complains(findings, baseline, SeverityIncreased(x))
       <==> && (exists g :: g in findings && g.fingerprint == x && g.severity == Medium)
            && x in baseline && baseline[x].severity == Low
  {
    ComplainsIff(findings, baseline, SeverityIncreased(x));
    hide Complains;
    assert forall g :: Complaint(g, baseline) == Some(SeverityIncreased(x)) <==>
        g.fingerprint == x && g.severity == Medium && x in baseline && baseline[x].severity == Low;
  }

  /** The entry that counts is the last one. */
  lemma LastIs(entries: seq<Entry>, x: string)
    ensures x in ByFingerprint(entries) <==> exists e :: e in entries && e.fingerprint == x
    ensures forall j: nat | LastEntry(entries, j, x) :: x in ByFingerprint(entries) && ByFingerprint(entries)[x] == entries[j]
    ensures x in ByFingerprint(entries) ==> exists j: nat :: LastEntry(entries, j, x)
  {
    hide ByFingerprint;
    ByFingerprintKeys(entries);
    EntryKeys(entries);
    if x in ByFingerprint(entries) {
      var j := FindLastEntry(entries, x);
    }
    forall j: nat | LastEntry(entries, j, x)
      ensures x in ByFingerprint(entries) && ByFingerprint(entries)[x] == entries[j]
    {
      LastCounts(entries, j, x);
    }
  }

  lemma ComplaintMeans(findings: seq<Finding>, entries: seq<Entry>, f: Failure)
    requires f.HighFinding? || f.NewFinding? || f.SeverityIncreased?
    ensures Complains(findings, ByFingerprint(entries), f) <==> Means(f, findings, entries)
  {
    hide ByFingerprint, Complains;
    LastIs(entries, f.fingerprint);
    HighMeans(findings, ByFingerprint(entries), f.fingerprint);
    NewMeans(findings, ByFingerprint(entries), f.fingerprint);
    IncreasedMeans(findings, ByFingerprint(entries), f.fingerprint);
  }

  lemma EntryKeys(entries: seq<Entry>)
    ensures forall x :: x in Keys(entries) <==> exists e :: e in entries && e.fingerprint == x
  {
    forall e | e in entries
      ensures e.fingerprint in Keys(entries)
    {
      var j :| 0 <= j < |entries| && entries[j] == e;
      assert Keys(entries)[j] == e.fingerprint;
    }
  }

  lemma FindingKeys(findings: seq<Finding>)
    ensures forall x :: x in Fingerprints(findings) <==> exists g :: g in findings && g.fingerprint == x
  {
    forall g | g in findings
      ensures g.fingerprint in Fingerprints(findings)
    {
      var i :| 0 <= i < |findings| && findings[i] == g;
      assert Fingerprints(findings)[i] == g.fingerprint;
    }
  }

  /** The comparison reports exactly what each failure says; a severity increases only from LOW to MEDIUM. */
  lemma ReportedExact(f: Failure, findings: seq<Finding>, entries: seq<Entry>)
    ensures Reported(f, findings, entries) <==> Means(f, findings, entries)
  {
    hide ByFingerprint, Complaint;
    match f {
      case DuplicateFinding(x) =>
        assert forall i | 0 <= i < |findings| :: Fingerprints(findings)[i] == findings[i].fingerprint;
      case DuplicateEntry(x) =>
        assert forall i | 0 <= i < |entries| :: Keys(entries)[i] == entries[i].fingerprint;
      case StaleEntry(x) =>
        EntryKeys(entries);
        FindingKeys(findings);
      case HighFinding(_) => ComplaintMeans(findings, entries, f);
      case NewFinding(_) => ComplaintMeans(findings, entries, f);
      case SeverityIncreased(_) => ComplaintMeans(findings, entries, f);
      case _ => NoOtherComplaint(findings, ByFingerprint(entries), f);
    }
  }

  lemma NoOtherComplaint(findings: seq<Finding>, baseline: map<string, Entry>, f: Failure)
    requires !f.HighFinding? && !f.NewFinding? && !f.SeverityIncreased?
    ensures forall i | 0 <= i < |findings| :: Complaint(findings[i], baseline) != Some(f)
  {
  }

  // ----- what an entry needs -----

  predicate Given(raw: map<string, Value>, field: string) {
    field in raw && raw[field] != Null && raw[field] != Str("")
  }

  /** An entry counts when eleven fields are given, its levels are levels, and its date has not passed. */
  lemma SoundExact(raw: map<string, Value>, today: int, rt: Runtime)
    ensures SoundEntry(raw, today, rt)
       <==> && Given(raw, "fingerprint") && Given(raw, "test_id") && Given(raw, "severity") && Given(raw, "confidence")
            && Given(raw, "filename") && Given(raw, "line_number") && Given(raw, "owner") && Given(raw, "rationale")
            && Given(raw, "expires_on") && Given(raw, "linked_remediation") && Given(raw, "compensating_control")
            && (exists level :: NamesLevel(Get(raw, "severity"), level)) && (exists level :: NamesLevel(Get(raw, "confidence"), level))
            && exists day: int :: rt.date(rt.shown(Get(raw, "expires_on"))) == Some(day) && today <= day
  {
    hide NamesLevel, LevelOf;
    forall v: Value
      ensures LevelOf(v).Some? <==> exists level :: NamesLevel(v, level)
    {
      if LevelOf(v).Some? {
        LevelExact(v, LevelOf(v).value);
      }
      if level :| NamesLevel(v, level) {
        LevelExact(v, level);
      }
    }
    RequiredExact(raw);
    hide REQUIRED;
  }

  lemma RequiredExact(raw: map<string, Value>)
    ensures (forall field | field in REQUIRED :: Present(raw, field))
       <==> && Given(raw, "fingerprint") && Given(raw, "test_id") && Given(raw, "severity") && Given(raw, "confidence")
            && Given(raw, "filename") && Given(raw, "line_number") && Given(raw, "owner") && Given(raw, "rationale")
            && Given(raw, "expires_on") && Given(raw, "linked_remediation") && Given(raw, "compensating_control")
  {
    assert forall field: string :: Present(raw, field) <==> Given(raw, field);
    RequiredFields();
    hide *;
    EachField(raw, REQUIRED);
  }

  lemma RequiredFields()
    ensures |REQUIRED| == 11
    ensures REQUIRED[0] == "fingerprint" && REQUIRED[1] == "test_id" && REQUIRED[2] == "severity" && REQUIRED[3] == "confidence"
    ensures REQUIRED[4] == "filename" && REQUIRED[5] == "line_number" && REQUIRED[6] == "owner" && REQUIRED[7] == "rationale"
    ensures REQUIRED[8] == "expires_on" && REQUIRED[9] == "linked_remediation" && REQUIRED[10] == "compensating_control"
  {
  }

  lemma EachField(raw: map<string, Value>, fields: seq<string>)
    requires |fields| == 11
    ensures (forall field | field in fields :: Given(raw, field))
       <==> && Given(raw, fields[0]) && Given(raw, fields[1]) && Given(raw, fields[2]) && Given(raw, fields[3])
            && Given(raw, fields[4]) && Given(raw, fields[5]) && Given(raw, fields[6]) && Given(raw, fields[7])
            && Given(raw, fields[8]) && Given(raw, fields[9]) && Given(raw, fields[10])
  {
    hide Given;
    assert forall i | 0 <= i < 11 :: fields[i] in fields;
  }

  // ----- what is captured -----

  /** The captured entry of a finding. */
  predicate CapturedAs(m: map<string, Value>, f: Finding, review: Review, rt: Runtime) {
    && Get(m, "fingerprint") == Str(f.fingerprint) && Get(m, "test_id") == Str(f.testId) && Get(m, "test_name") == Str(f.testName)
    && NamesLevel(Get(m, "severity"), f.severity) && NamesLevel(Get(m, "confidence"), f.confidence)
    && Get(m, "filename") == Str(f.filename) && Get(m, "line_number") == Int(f.line)
    && Get(m, "owner") == Str(review.owner) && Get(m, "rationale") == Str(review.rationale)
    && Get(m, "expires_on") == Str(rt.isoformat(review.expires))
    && Get(m, "linked_remediation") == Str(review.remediation) && Get(m, "compensating_control") == Str(review.control)
  }

  lemma FindingSide(f: Finding)
    ensures var m := FindingFields(f);
            && Get(m, "fingerprint") == Str(f.fingerprint) && Get(m, "test_id") == Str(f.testId) && Get(m, "test_name") == Str(f.testName)
            && Get(m, "severity") == Str(LevelName(f.severity)) && Get(m, "confidence") == Str(LevelName(f.confidence))
            && Get(m, "filename") == Str(f.filename) && Get(m, "line_number") == Int(f.line)
  {
    hide LevelName;
  }

  lemma ReviewSide(review: Review, rt: Runtime)
    ensures var m := ReviewFields(review, rt);
            && Get(m, "owner") == Str(review.owner) && Get(m, "rationale") == Str(review.rationale)
            && Get(m, "expires_on") == Str(rt.isoformat(review.expires))
            && Get(m, "linked_remediation") == Str(review.remediation) && Get(m, "compensating_control") == Str(review.control)
            && "owner" in m && "rationale" in m && "expires_on" in m && "linked_remediation" in m && "compensating_control" in m
  {
  }

  lemma ReviewKeys(review: Review, rt: Runtime)
    ensures var m := ReviewFields(review, rt);
            && "fingerprint" !in m && "test_id" !in m && "test_name" !in m && "severity" !in m && "confidence" !in m
            && "filename" !in m && "line_number" !in m
  {
  }

  lemma MergedGet(a: map<string, Value>, b: map<string, Value>)
    ensures forall k: string :: Get(a + b, k) == if k in b then Get(b, k) else Get(a, k)
  {
  }

  lemma EntryCaptured(f: Finding, review: Review, rt: Runtime)
    ensures CapturedAs(EntryFields(f, review, rt), f, review, rt)
  {
    FindingSide(f);
    ReviewSide(review, rt);
    ReviewKeys(review, rt);
    MergedGet(FindingFields(f), ReviewFields(review, rt));
    LevelOfName(f.severity);
    LevelOfName(f.confidence);
    LevelExact(Str(LevelName(f.severity)), f.severity);
    LevelExact(Str(LevelName(f.confidence)), f.confidence);
    hide Get, FindingFields, ReviewFields, LevelOf, LevelName, NamesLevel;
  }

  /** By file, then by line, then by test. */
  predicate InOrder(a: Finding, b: Finding) {
    && LexLe(a.filename, b.filename)
    && (a.filename == b.filename ==> a.line <= b.line && (a.line == b.line ==> LexLe(a.testId, b.testId)))
  }

  /** The payload lists an entry for each of the findings. */
  ghost predicate Holds(payload: Value, kept: seq<Finding>, review: Review, rt: Runtime) {
    && payload.Obj? && Get(payload.m, "schema_version") == Str("lotus.bandit-security-baseline.v1")
    && Get(payload.m, "service") == Str("lotus-advise") && Get(payload.m, "source_path") == Str("src")
    && Get(payload.m, "entries").List? && |Get(payload.m, "entries").items| == |kept|
    && forall i | 0 <= i < |kept| ::
         var item := Get(payload.m, "entries").items[i];
         item.Obj? && CapturedAs(item.m, kept[i], review, rt)
  }

  lemma PayloadHolds(findings: seq<Finding>, review: Review, rt: Runtime)
    ensures Holds(CapturedBaseline(findings, review, rt), NonHigh(Sort(Before, findings)), review, rt)
  {
    hide CapturedAs, EntryFields, Sort, NonHigh;
    var kept := NonHigh(Sort(Before, findings));
    forall i | 0 <= i < |kept|
      ensures CapturedAs(EntryFields(kept[i], review, rt), kept[i], review, rt)
    {
      EntryCaptured(kept[i], review, rt);
    }
  }

  /** A captured baseline holds an entry for each finding that is not HIGH, as often as it was found, in order. */
  lemma CapturedExact(findings: seq<Finding>, review: Review, rt: Runtime) returns (kept: seq<Finding>)
    ensures Holds(CapturedBaseline(findings, review, rt), kept, review, rt)
    ensures forall f :: multiset(kept)[f] == if f.severity == High then 0 else multiset(findings)[f]
    ensures forall i, j | 0 <= i < j < |kept| :: InOrder(kept[i], kept[j])
  {
    hide *;
    var sorted := Sort(Before, findings);
    kept := NonHigh(sorted);
    PayloadHolds(findings, review, rt);
    SortPermutes(Before, findings);
    forall f
      ensures multiset(kept)[f] == if f.severity == High then 0 else multiset(findings)[f]
    {
      NonHighCounts(sorted, f);
    }
    BeforeIsOrder();
    SortSorted(Before, findings);
    SortedIs(sorted);
    NonHighOrdered(sorted);
  }

  lemma SortedIs(findings: seq<Finding>)
    requires Sorted(Before, findings)
    ensures forall i, j | 0 <= i < j < |findings| :: Before(findings[i], findings[j])
  {
    hide Before;
  }

  lemma BeforeIsOrder()
    ensures TotalPreorder(Before)
    ensures forall a, b | Before(a, b) :: InOrder(a, b)
  {
    hide LexLe;
    LexIsTotalPreorder();
    forall a: Finding, b: Finding
      ensures Before(a, b) || Before(b, a)
    {
      LexTotal(a.filename, b.filename);
      LexTotal(a.testId, b.testId);
    }
    forall a: Finding, b: Finding, c: Finding | Before(a, b) && Before(b, c)
      ensures Before(a, c)
    {
      BeforeChain(a, b, c);
    }
    forall a: Finding, b: Finding | Before(a, b)
      ensures InOrder(a, b)
    {
      LexTotal(a.filename, a.filename);
    }
  }

  lemma BeforeChain(a: Finding, b: Finding, c: Finding)
    requires Before(a, b) && Before(b, c)
    ensures Before(a, c)
  {
    hide LexLe;
    if a.filename != b.filename && b.filename != c.filename {
      LexTransitive(a.filename, b.filename, c.filename);
      if a.filename == c.filename {
        LexAntisymmetric(a.filename, b.filename);
      }
    } else if a.filename == b.filename == c.filename && a.line == b.line == c.line {
      LexTransitive(a.testId, b.testId, c.testId);
    }
  }

  lemma {:induction false} NonHighOrdered(findings: seq<Finding>)
    requires forall i, j | 0 <= i < j < |findings| :: Before(findings[i], findings[j])
    ensures forall i, j | 0 <= i < j < |NonHigh(findings)| :: Before(NonHigh(findings)[i], NonHigh(findings)[j])
    ensures forall f | f in NonHigh(findings) :: f in findings
  {
    hide Before;
    if findings == [] {
      assert NonHigh(findings) == [];
    } else {
      var init, last := findings[..|findings| - 1], findings[|findings| - 1];
      assert forall i | 0 <= i < |init| :: init[i] == findings[i];
      NonHighOrdered(init);
      assert findings == init + [last];
      forall i | 0 <= i < |NonHigh(init)|
        ensures Before(NonHigh(init)[i], last)
      {
        assert NonHigh(init)[i] in init;
        var k :| 0 <= k < |init| && init[k] == NonHigh(init)[i];
      }
    }
  }
}
