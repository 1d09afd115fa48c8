/** What refreshing and certifying a snapshot does, stated on the fields of its JSON document. */
module FreshnessMeaning {
  import opened Wrappers
  import opened Text
  import opened Json
  import opened TrustFreshness

  // ----- what a snapshot declares -----

  /** Nothing is given: the value is absent, null, false, zero or empty. */
  predicate Missing(fields: Payload, key: string) {
    key !in fields || fields[key] == Null || fields[key] == Bool(false) || fields[key] == Int(0) || fields[key] == Str("")
    || fields[key] == List([]) || fields[key] == Obj(map[]) || (fields[key].Fraction? && !Truthy(fields[key]))
  }

  /** The text holds something besides blanks and is this instant. */
  ghost predicate Instant(v: Value, cal: Calendar, at: int) {
    v.Str? && (exists i | 0 <= i < |v.s| :: !IsSpace(v.s[i])) && cal.parse(v.s) == Some(at)
  }

  /** The snapshot was observed at this instant or, without an observation, was evaluated then. */
  ghost predicate ObservedAt(freshness: Payload, cal: Calendar, at: int) {
    if Missing(freshness, "observed_at_utc")
    then "evaluated_at_utc" in freshness && Instant(freshness["evaluated_at_utc"], cal, at)
    else Instant(freshness["observed_at_utc"], cal, at)
  }

  /** The maximum age in seconds that the snapshot declares, a positive integer, or none. */
  predicate Declares(freshness: Payload, maximum: Option<int>) {
    match maximum
    case None => "max_allowed_age_seconds" !in freshness || freshness["max_allowed_age_seconds"] == Null
    case Some(n) => "max_allowed_age_seconds" in freshness && freshness["max_allowed_age_seconds"] == Int(n) && n >= 1
  }

  lemma MissingExact(fields: Payload, key: string)
    ensures Missing(fields, key) <==> !Truthy(Get(fields, key))
  {
  }

  lemma InstantExact(v: Value, cal: Calendar, at: int)
    ensures Instant(v, cal, at) <==> ParseTimestamp(v, cal) == Ok(at)
  {
    if v.Str? {
      BlankIff(v.s);
    }
    hide Strip, IsSpace;
  }

  lemma ObservedExact(freshness: Payload, cal: Calendar, at: int)
    ensures ObservedAt(freshness, cal, at) <==> ParseTimestamp(ObservedField(freshness), cal) == Ok(at)
  {
    MissingExact(freshness, "observed_at_utc");
    InstantExact(ObservedField(freshness), cal, at);
    assert ParseTimestamp(Null, cal).Err?;
    hide Instant, Truthy, ParseTimestamp;
    assert "observed_at_utc" !in freshness ==> Missing(freshness, "observed_at_utc");
  }

  lemma DeclaresExact(freshness: Payload, maximum: Option<int>)
    ensures Declares(freshness, maximum) <==> MaximumAge(freshness) == Ok(maximum)
  {
  }

  // ----- the derived posture -----

  /** The three states, from microseconds: a whole second before the observation nothing is known any more. */
  predicate IsState(text: string, delta: int, maximum: Option<int>) {
    match maximum
    case None => text == "unknown"
    case Some(n) =>
      if delta <= -1_000_000 then text == "unknown"
      else if delta < (n + 1) * 1_000_000 then text == "current"
      else text == "stale"
  }

  /** Whole seconds since the observation, at least zero. */
  predicate IsAge(age: int, delta: int) {
    if delta < 1_000_000 then age == 0 else age * 1_000_000 <= delta < (age + 1) * 1_000_000
  }

  function ReasonText(text: string): string {
    if text == "stale" then "TRUST_TELEMETRY_STALE" else "TRUST_TELEMETRY_FRESHNESS_UNKNOWN"
  }

  function SummaryText(text: string): string {
    if text == "stale"
    then "Trust telemetry evidence is older than the declared maximum age and must be "
         + "regenerated from current implementation evidence before promotion."
    else "Trust telemetry freshness cannot be derived from the committed snapshot."
  }

  predicate IsBlocking(v: Value, text: string) {
    if text == "current" then v == Obj(map["blocked" := Bool(false)])
    else
      && v.Obj? && v.m.Keys == {"blocked", "blocked_reason", "blocked_summary"}
      && v.m["blocked"] == Bool(true)
      && v.m["blocked_reason"] == Str(ReasonText(text)) && v.m["blocked_summary"] == Str(SummaryText(text))
  }

  /** The second document sets exactly these keys. */
  predicate Sets(before: Payload, after: Payload, fields: Payload) {
    && after.Keys == before.Keys + fields.Keys
    && forall k | k in after :: after[k] == if k in fields then fields[k] else before[k]
  }

  /** The derived fields of the freshness section. */
  ghost predicate DerivedFreshness(fields: Payload, delta: int, maximum: Option<int>, now: string) {
    && fields.Keys == {"evaluated_at_utc", "age_seconds", "freshness_state"}
    && fields["evaluated_at_utc"] == Str(now)
    && (exists age: int :: fields["age_seconds"] == Int(age) && IsAge(age, delta))
    && (exists text: string :: fields["freshness_state"] == Str(text) && IsState(text, delta, maximum))
  }

  predicate EvidenceOf(payload: Payload, evidence: Payload) {
    if "evidence" in payload then payload["evidence"] == Obj(evidence) else evidence == map[]
  }

  function EvidenceFields(now: string, refresh: Refresh): Payload {
    map["freshness_reference_time_utc" := Str(now), "repository_commit_sha" := Str(refresh.sha), "validation_run_id" := Str(refresh.run)]
  }

  /** What a refresh makes of a payload. */
  ghost predicate Refreshed(payload: Payload, after: Payload, freshness: Payload, evidence: Payload, delta: int, maximum: Option<int>,
                            now: string, refresh: Refresh) {
    && after.Keys == payload.Keys + {"freshness", "emitted_at_utc", "evidence", "blocking"}
    && (forall k | k in payload && k !in {"freshness", "emitted_at_utc", "evidence", "blocking"} :: after[k] == payload[k])
    && after["freshness"].Obj? && after["evidence"].Obj?
    && (exists fields: Payload :: DerivedFreshness(fields, delta, maximum, now) && Sets(freshness, after["freshness"].m, fields))
    && after["emitted_at_utc"] == Str(now)
    && Sets(evidence, after["evidence"].m, EvidenceFields(now, refresh))
    && exists text: string :: IsState(text, delta, maximum) && IsBlocking(after["blocking"], text)
  }

  lemma StateIs(observed: int, reference: int, maximum: Option<int>)
    requires maximum.Some? ==> maximum.value >= 1
    ensures IsState(StateName(StateOf(AgeSeconds(observed, reference), maximum)), reference - observed, maximum)
    ensures IsAge(if AgeSeconds(observed, reference) < 0 then 0 else AgeSeconds(observed, reference), reference - observed)
  {
    StateExact(observed, reference, maximum);
  }

  lemma BlockingIs(state: State)
    ensures IsBlocking(Blocking(state), StateName(state))
  {
    assert StateName(Current)[0] == 'c' && StateName(Unknown)[0] == 'u' && StateName(Stale)[0] == 's';
    assert "stale"[0] == 's' && "current"[0] == 'c' && "unknown"[0] == 'u';
  }

  function DerivedFields(age: int, state: State, now: string): Payload {
    map["evaluated_at_utc" := Str(now), "age_seconds" := Int(if age < 0 then 0 else age), "freshness_state" := Str(StateName(state))]
  }

  lemma FreshnessSet(freshness: Payload, age: int, state: State, delta: int, maximum: Option<int>, now: string)
    requires IsAge(if age < 0 then 0 else age, delta) && IsState(StateName(state), delta, maximum)
    ensures var fields := DerivedFields(age, state, now);
            DerivedFreshness(fields, delta, maximum, now) && Sets(freshness, PatchedFreshness(freshness, age, state, now), fields)
  {
    hide IsAge, IsState, StateName;
  }

  lemma EvidenceSet(evidence: Payload, now: string, refresh: Refresh)
    ensures Sets(evidence, PatchedEvidence(evidence, now, refresh), EvidenceFields(now, refresh))
  {
  }

  /** A refresh succeeds exactly when the freshness section, its times and its maximum, and the evidence can be read. */
  lemma RefreshSucceedsIff(payload: Payload, cal: Calendar, refresh: Refresh)
    ensures Patch(payload, cal, refresh).Ok?
       <==> exists freshness: Payload, evidence: Payload, at: int, maximum: Option<int> ::
              && "freshness" in payload && payload["freshness"] == Obj(freshness) && EvidenceOf(payload, evidence)
              && ObservedAt(freshness, cal, at) && Declares(freshness, maximum)
  {
    hide Stamped, AgeSeconds, StateOf, ObservedField, MaximumAge, ParseTimestamp, ObservedAt, Declares;
    if Patch(payload, cal, refresh).Ok? {
      var freshness, evidence := payload["freshness"].m, Section(Evidence(payload));
      var (at, maximum) := Read(payload, cal).value;
      ObservedExact(freshness, cal, at);
      DeclaresExact(freshness, maximum);
      assert EvidenceOf(payload, evidence);
    }
    if freshness: Payload, evidence: Payload, at: int, maximum: Option<int> :|
         && "freshness" in payload && payload["freshness"] == Obj(freshness) && EvidenceOf(payload, evidence)
         && ObservedAt(freshness, cal, at) && Declares(freshness, maximum)
    {
      ObservedExact(freshness, cal, at);
      DeclaresExact(freshness, maximum);
    }
  }

  /** And then it sets exactly the derived fields, from the observation and the declared maximum. */
  lemma RefreshExact(payload: Payload, cal: Calendar, refresh: Refresh, freshness: Payload, evidence: Payload, at: int, maximum: Option<int>)
    requires "freshness" in payload && payload["freshness"] == Obj(freshness) && EvidenceOf(payload, evidence)
    requires ObservedAt(freshness, cal, at) && Declares(freshness, maximum)
    ensures Patch(payload, cal, refresh).Ok?
    ensures Refreshed(payload, Patch(payload, cal, refresh).value, freshness, evidence, refresh.reference - at, maximum,
                      cal.format(refresh.reference), refresh)
  {
    hide *;
    ObservedExact(freshness, cal, at);
    DeclaresExact(freshness, maximum);
    DeclaredPositive(freshness, maximum);
    var age := AgeSeconds(at, refresh.reference);
    var state, now, delta := StateOf(age, maximum), cal.format(refresh.reference), refresh.reference - at;
    PatchIs(payload, cal, refresh, freshness, evidence, at, maximum);
    StateIs(at, refresh.reference, maximum);
    StampedRefreshed(payload, freshness, evidence, age, state, delta, maximum, now, refresh);
  }

  lemma StampedRefreshed(payload: Payload, freshness: Payload, evidence: Payload, age: int, state: State, delta: int,
                         maximum: Option<int>, now: string, refresh: Refresh)
    requires "freshness" in payload && payload["freshness"] == Obj(freshness) && EvidenceOf(payload, evidence)
    requires IsAge(if age < 0 then 0 else age, delta) && IsState(StateName(state), delta, maximum)
    ensures Refreshed(payload, Stamped(payload, age, state, now, refresh), freshness, evidence, delta, maximum, now, refresh)
  {
    hide *;
    BlockingIs(state);
    FreshnessSet(freshness, age, state, delta, maximum, now);
    EvidenceSet(evidence, now, refresh);
    SectionsAre(payload, freshness, evidence);
    StampedParts(payload, age, state, now, refresh);
    StampedDate(payload, age, state, now, refresh);
    Assembled(payload, Stamped(payload, age, state, now, refresh), freshness, evidence, delta, maximum, now, refresh,
              DerivedFields(age, state, now), StateName(state), PatchedFreshness(freshness, age, state, now),
              PatchedEvidence(evidence, now, refresh), Blocking(state));
  }

  lemma PatchIs(payload: Payload, cal: Calendar, refresh: Refresh, freshness: Payload, evidence: Payload, at: int, maximum: Option<int>)
    requires "freshness" in payload && payload["freshness"] == Obj(freshness) && EvidenceOf(payload, evidence)
    requires ParseTimestamp(ObservedField(freshness), cal) == Ok(at) && MaximumAge(freshness) == Ok(maximum)
    ensures var age := AgeSeconds(at, refresh.reference);
            Patch(payload, cal, refresh) == Ok(Stamped(payload, age, StateOf(age, maximum), cal.format(refresh.reference), refresh))
  {
    hide ObservedField, MaximumAge, ParseTimestamp, AgeSeconds, StateOf, Stamped;
  }

  lemma SectionsAre(payload: Payload, freshness: Payload, evidence: Payload)
    requires "freshness" in payload && payload["freshness"] == Obj(freshness) && EvidenceOf(payload, evidence)
    ensures Section(Get(payload, "freshness")) == freshness && Section(Evidence(payload)) == evidence
  {
  }

  lemma StampedDate(payload: Payload, age: int, state: State, now: string, refresh: Refresh)
    ensures var after := Stamped(payload, age, state, now, refresh); Get(after, "emitted_at_utc") == Str(now)
  {
    hide PatchedFreshness, PatchedEvidence, Blocking;
  }

  lemma Assembled(payload: Payload, after: Payload, freshness: Payload, evidence: Payload, delta: int, maximum: Option<int>,
                  now: string, refresh: Refresh, fields: Payload, text: string, newFreshness: Payload, newEvidence: Payload, blocking: Value)
    requires after.Keys == payload.Keys + {"freshness", "emitted_at_utc", "evidence", "blocking"}
    requires forall k | k in payload && k !in {"freshness", "emitted_at_utc", "evidence", "blocking"} :: k in after && after[k] == payload[k]
    requires Get(after, "freshness") == Obj(newFreshness) && Sets(freshness, newFreshness, fields)
    requires DerivedFreshness(fields, delta, maximum, now)
    requires Get(after, "emitted_at_utc") == Str(now)
    requires Evidence(after) == Obj(newEvidence) && Sets(evidence, newEvidence, EvidenceFields(now, refresh))
    requires Get(after, "blocking") == blocking && IsState(text, delta, maximum) && IsBlocking(blocking, text)
    ensures Refreshed(payload, after, freshness, evidence, delta, maximum, now, refresh)
  {
    hide Sets, DerivedFreshness, IsState, IsBlocking, EvidenceFields;
  }

  lemma DeclaredPositive(freshness: Payload, maximum: Option<int>)
    requires Declares(freshness, maximum)
    ensures maximum.Some? ==> maximum.value >= 1
  {
  }

  // ----- validation -----

  /** The text of a field, besides blanks. */
  ghost predicate Identified(fields: Payload, key: string) {
    key in fields && fields[key].Str? && exists i | 0 <= i < |fields[key].s| :: !IsSpace(fields[key].s[i])
  }

  /** The snapshot states the posture of an observation `delta` microseconds ago. */
  ghost predicate StatesPosture(payload: Payload, freshness: Payload, delta: int, maximum: Option<int>, now: string) {
    && delta >= 0
    && Get(freshness, "evaluated_at_utc") == Str(now)
    && (exists age: int :: IsAge(age, delta) && PyEqual(Get(freshness, "age_seconds"), Int(age)))
    && (exists text: string, blocking: Value ::
          && IsState(text, delta, maximum) && IsBlocking(blocking, text)
          && Get(freshness, "freshness_state") == Str(text) && PyEqual(Get(payload, "blocking"), blocking))
    && "evidence" in payload && payload["evidence"].Obj?
    && Get(payload["evidence"].m, "freshness_reference_time_utc") == Str(now)
    && Identified(payload["evidence"].m, "repository_commit_sha") && Identified(payload["evidence"].m, "validation_run_id")
  }

  lemma TextFieldEqual(v: Value, s: string)
    ensures PyEqual(v, Str(s)) <==> v == Str(s)
  {
  }

  lemma IdentifiedExact(fields: Payload, key: string)
    ensures Identified(fields, key) <==> NonBlank(Get(fields, key))
  {
    hide IsSpace, Strip;
    if key in fields && fields[key].Str? {
      BlankIff(fields[key].s);
    }
  }

  lemma AgeIs(age: int, age': int, delta: int)
    requires IsAge(age, delta) && IsAge(age', delta)
    ensures age == age'
  {
  }

  lemma StateTextIs(text: string, text': string, delta: int, maximum: Option<int>)
    requires IsState(text, delta, maximum) && IsState(text', delta, maximum)
    ensures text == text'
  {
  }

  lemma SameFields(a: Payload, b: Payload, x: string, y: string, z: string)
    requires a.Keys == b.Keys == {x, y, z} && a[x] == b[x] && a[y] == b[y] && a[z] == b[z]
    ensures a == b
  {
  }

  lemma BlockingTextIs(v: Value, v': Value, text: string)
    requires IsBlocking(v, text) && IsBlocking(v', text)
    ensures v == v'
  {
    hide SummaryText, ReasonText;
    if text != "current" {
      SameFields(v.m, v'.m, "blocked", "blocked_reason", "blocked_summary");
    }
  }

  /** A readable snapshot is valid exactly when it states the posture of its own observation. */
  lemma ValidExact(payload: Payload, cal: Calendar, refresh: Refresh, freshness: Payload, evidence: Payload, at: int, maximum: Option<int>)
    requires "freshness" in payload && payload["freshness"] == Obj(freshness) && EvidenceOf(payload, evidence)
    requires ObservedAt(freshness, cal, at) && Declares(freshness, maximum)
    ensures Valid(payload, cal, refresh)
       <==> StatesPosture(payload, freshness, refresh.reference - at, maximum, cal.format(refresh.reference))
  {
    hide *;
    ObservedExact(freshness, cal, at);
    DeclaresExact(freshness, maximum);
    DeclaredPositive(freshness, maximum);
    var age := AgeSeconds(at, refresh.reference);
    var state, now, delta := StateOf(age, maximum), cal.format(refresh.reference), refresh.reference - at;
    PatchIs(payload, cal, refresh, freshness, evidence, at, maximum);
    ReadIsObserved(payload, cal, freshness, at, maximum);
    StateIs(at, refresh.reference, maximum);
    StatesExact(payload, freshness, evidence, age, state, delta, maximum, now, refresh);
    ValidIs(payload, cal, refresh, at, Stamped(payload, age, state, now, refresh));
    PostureNotFuture(payload, freshness, delta, maximum, now);
  }

  lemma PostureNotFuture(payload: Payload, freshness: Payload, delta: int, maximum: Option<int>, now: string)
    ensures StatesPosture(payload, freshness, delta, maximum, now) ==> delta >= 0
  {
  }

  lemma ReadIsObserved(payload: Payload, cal: Calendar, freshness: Payload, at: int, maximum: Option<int>)
    requires "freshness" in payload && payload["freshness"] == Obj(freshness)
    requires ParseTimestamp(ObservedField(freshness), cal) == Ok(at) && MaximumAge(freshness) == Ok(maximum)
    ensures Read(payload, cal) == Ok((at, maximum))
  {
    hide ObservedField, MaximumAge, ParseTimestamp;
  }

  lemma ValidIs(payload: Payload, cal: Calendar, refresh: Refresh, at: int, expected: Payload)
    requires Patch(payload, cal, refresh) == Ok(expected) && Read(payload, cal).Ok? && Read(payload, cal).value.0 == at
    ensures Valid(payload, cal, refresh) <==> at <= refresh.reference && States(payload, expected, cal.format(refresh.reference))
  {
    hide Patch, Read, States;
  }

  lemma StatesExact(payload: Payload, freshness: Payload, evidence: Payload, age: int, state: State, delta: int,
                    maximum: Option<int>, now: string, refresh: Refresh)
    requires "freshness" in payload && payload["freshness"] == Obj(freshness) && EvidenceOf(payload, evidence)
    requires IsAge(if age < 0 then 0 else age, delta) && IsState(StateName(state), delta, maximum)
    ensures delta >= 0 ==> (States(payload, Stamped(payload, age, state, now, refresh), now)
                            <==> StatesPosture(payload, freshness, delta, maximum, now))
  {
    hide *;
    var expected, shown, text := Stamped(payload, age, state, now, refresh), if age < 0 then 0 else age, StateName(state);
    StampedParts(payload, age, state, now, refresh);
    SectionsAre(payload, freshness, evidence);
    PatchedReads(freshness, age, state, now);
    BlockingIs(state);
    StatesAre(payload, expected, freshness, PatchedFreshness(freshness, age, state, now), Blocking(state), now, shown, text);
    PostureIs(payload, freshness, delta, maximum, now, shown, text, Blocking(state));
  }

  lemma PatchedReads(freshness: Payload, age: int, state: State, now: string)
    ensures var patched := PatchedFreshness(freshness, age, state, now);
            && Get(patched, "evaluated_at_utc") == Str(now)
            && Get(patched, "age_seconds") == Int(if age < 0 then 0 else age)
            && Get(patched, "freshness_state") == Str(StateName(state))
  {
    hide StateName;
  }

  /** What has to hold of the fields, given what is expected of them. */
  predicate FieldsAgree(payload: Payload, freshness: Payload, now: string, shown: int, text: string, blocking: Value) {
    && Get(freshness, "evaluated_at_utc") == Str(now) && PyEqual(Get(freshness, "age_seconds"), Int(shown))
    && Get(freshness, "freshness_state") == Str(text) && PyEqual(Get(payload, "blocking"), blocking)
    && "evidence" in payload && payload["evidence"].Obj?
    && Get(payload["evidence"].m, "freshness_reference_time_utc") == Str(now)
    && NonBlank(Get(payload["evidence"].m, "repository_commit_sha")) && NonBlank(Get(payload["evidence"].m, "validation_run_id"))
  }

  lemma StatesAre(payload: Payload, expected: Payload, freshness: Payload, patched: Payload, blocking: Value, now: string,
                  shown: int, text: string)
    requires Section(Get(payload, "freshness")) == freshness && Get(expected, "freshness") == Obj(patched)
    requires Get(expected, "blocking") == blocking
    requires Get(patched, "evaluated_at_utc") == Str(now) && Get(patched, "age_seconds") == Int(shown)
    requires Get(patched, "freshness_state") == Str(text)
    ensures States(payload, expected, now) <==> FieldsAgree(payload, freshness, now, shown, text, blocking)
  {
    hide PyEqual, NonBlank;
    TextFieldEqual(Get(freshness, "evaluated_at_utc"), now);
    TextFieldEqual(Get(freshness, "freshness_state"), text);
    assert FRESHNESS_FIELDS[0] == "evaluated_at_utc" && FRESHNESS_FIELDS[1] == "age_seconds";
    assert FRESHNESS_FIELDS[2] == "freshness_state" && |FRESHNESS_FIELDS| == 3;
    assert IDENTITY_FIELDS[0] == "repository_commit_sha" && IDENTITY_FIELDS[1] == "validation_run_id" && |IDENTITY_FIELDS| == 2;
    assert SameDerived(freshness, patched, 3) <==>
           && PyEqual(Get(freshness, "evaluated_at_utc"), Str(now)) && PyEqual(Get(freshness, "age_seconds"), Int(shown))
           && PyEqual(Get(freshness, "freshness_state"), Str(text));
    if Get(payload, "evidence").Obj? {
      TextFieldEqual(Get(payload["evidence"].m, "freshness_reference_time_utc"), now);
    }
  }

  lemma PostureIs(payload: Payload, freshness: Payload, delta: int, maximum: Option<int>, now: string, shown: int, text: string,
                  blocking: Value)
    requires delta >= 0 ==> IsAge(shown, delta) && IsState(text, delta, maximum) && IsBlocking(blocking, text)
    ensures delta >= 0 ==> (StatesPosture(payload, freshness, delta, maximum, now)
                            <==> FieldsAgree(payload, freshness, now, shown, text, blocking))
  {
    hide PyEqual, NonBlank, Identified, IsAge, IsState, IsBlocking;
    if delta >= 0 {
      forall age | IsAge(age, delta)
        ensures age == shown
      {
        AgeIs(age, shown, delta);
      }
      forall other, v | IsState(other, delta, maximum) && IsBlocking(v, other)
        ensures other == text && v == blocking
      {
        StateTextIs(other, text, delta, maximum);
        BlockingTextIs(v, blocking, text);
      }
      if "evidence" in payload && payload["evidence"].Obj? {
        IdentifiedExact(payload["evidence"].m, "repository_commit_sha");
        IdentifiedExact(payload["evidence"].m, "validation_run_id");
      }
    }
  }

  // ----- certification -----

  /** A full commit hash in lower case. */
  predicate IsCommit(s: string) {
    |s| == 40 && forall i | 0 <= i < |s| :: s[i] in "0123456789abcdef"
  }

  /** What certification asks of the product, its lineage and its evidence. */
  predicate Certifiable(payload: Payload, product: string, lineage: Payload, evidence: Payload) {
    && "product_id" in payload && payload["product_id"] == Str(product) && "lotus-advise:" <= product
    && Get(payload, "completeness_status") == Str("complete") && Get(payload, "data_quality_status") == Str("quality_passed")
    && "lineage" in payload && payload["lineage"] == Obj(lineage) && Get(lineage, "lineage_materialized") == Bool(true)
    && Get(lineage, "evidence_uris").List? && Get(lineage, "evidence_uris").items != []
    && "evidence" in payload && payload["evidence"] == Obj(evidence) && !Missing(evidence, "validation_lanes")
  }

  lemma HexExact(s: string)
    ensures IsCommit(s) <==> IsFullSha(s)
  {
    forall c: char
      ensures c in "0123456789abcdef" <==> IsDigit(c) || 'a' <= c <= 'f'
    {
      var digits := "0123456789abcdef";
      assert forall i | 0 <= i < 10 :: digits[i] as int == '0' as int + i;
      assert forall i | 10 <= i < 16 :: digits[i] as int == 'a' as int + i - 10;
      if IsDigit(c) {
        assert digits[c as int - '0' as int] == c;
      } else if 'a' <= c <= 'f' {
        assert digits[c as int - 'a' as int + 10] == c;
      }
    }
  }

  /**
   Certification is granted exactly to a full commit and a run that is not local, for a certifiable product whose
   freshness section declares a maximum age, or none, properly.
   */
  lemma CertifiedIff(payload: Payload, cal: Calendar, refresh: Refresh)
    requires Faithful(cal)
    ensures Certified(payload, cal, refresh).Ok?
       <==> && IsCommit(refresh.sha) && (exists i | 0 <= i < |refresh.run| :: !IsSpace(refresh.run[i])) && !("local" <= refresh.run)
            && (exists product: string, lineage: Payload, evidence: Payload :: Certifiable(payload, product, lineage, evidence))
            && exists freshness: Payload, maximum: Option<int> ::
                 "freshness" in payload && payload["freshness"] == Obj(freshness) && Declares(freshness, maximum)
  {
    hide *;
    HexExact(refresh.sha);
    BlankIff(refresh.run);
    RefusedIff(payload, refresh);
    CertifiedWhen(payload, cal, refresh);
    ObservedNowPatch(payload, cal, refresh);
    if "freshness" in payload && payload["freshness"].Obj? {
      var freshness := payload["freshness"].m;
      if MaximumAge(freshness).Ok? {
        DeclaresExact(freshness, MaximumAge(freshness).value);
      }
      forall maximum | Declares(freshness, maximum)
        ensures MaximumAge(freshness).Ok?
      {
        DeclaresExact(freshness, maximum);
      }
    }
  }

  lemma RefusedIff(payload: Payload, refresh: Refresh)
    ensures RefusalOf(payload, refresh).None?
       <==> && IsFullSha(refresh.sha) && Strip(refresh.run) != "" && !("local" <= refresh.run)
            && (exists product: string, lineage: Payload, evidence: Payload :: Certifiable(payload, product, lineage, evidence))
            && "freshness" in payload && payload["freshness"].Obj?
  {
    hide IsFullSha, Strip, Missing;
    var product, lineage, evidence := Get(payload, "product_id"), Get(payload, "lineage"), Get(payload, "evidence");
    MissingExact(Section(evidence), "validation_lanes");
    MissingNothing("validation_lanes");
    hide Truthy;
    if RefusalOf(payload, refresh).None? {
      assert evidence.Obj?;
      assert Certifiable(payload, product.s, lineage.m, evidence.m);
    }
  }

  lemma MissingNothing(key: string)
    ensures Missing(map[], key)
  {
  }

  lemma CertifiedWhen(payload: Payload, cal: Calendar, refresh: Refresh)
    ensures Certified(payload, cal, refresh).Ok?
       <==> RefusalOf(payload, refresh).None? && Patch(ObservedNow(payload, cal.format(refresh.reference)), cal, refresh).Ok?
  {
    hide RefusalOf, Patch, ObservedNow, Sealed;
  }

  lemma ObservedNowPatch(payload: Payload, cal: Calendar, refresh: Refresh)
    requires Faithful(cal)
    ensures RefusalOf(payload, refresh).None? ==>
              && "freshness" in payload && payload["freshness"].Obj?
              && (Patch(ObservedNow(payload, cal.format(refresh.reference)), cal, refresh).Ok? <==> MaximumAge(payload["freshness"].m).Ok?)
  {
    assert Strip("") == "";
    hide Stamped, AgeSeconds, StateOf, IsFullSha, Strip;
    if RefusalOf(payload, refresh).None? {
      var now := cal.format(refresh.reference);
      var freshness := payload["freshness"].m;
      var observed := freshness["observed_at_utc" := Str(now)];
      assert ObservedNow(payload, now) == payload["freshness" := Obj(observed)];
      assert ObservedField(observed) == Str(now);
      FormattedReads(cal, refresh.reference);
      assert MaximumAge(observed) == MaximumAge(freshness);
      assert Evidence(ObservedNow(payload, now)).Obj?;
    }
  }

  /** What certification adds to the refreshed snapshot: identities made from product, commit and run, and its basis. */
  lemma CertifiedShows(payload: Payload, cal: Calendar, refresh: Refresh, product: string, lineage: Payload, evidence: Payload)
    requires Certified(payload, cal, refresh).Ok? && Certifiable(payload, product, lineage, evidence)
    ensures var certified := Certified(payload, cal, refresh).value;
            && Get(Section(Get(certified, "lineage")), "lineage_bundle_id") == Str("lineage:" + product + ":" + refresh.sha)
            && Get(Section(Get(certified, "evidence")), "source_event_id")
               == Str("source-event:" + product + ":ci-certification:" + refresh.run)
            && Get(Section(Get(certified, "evidence")), "source_fixture_observed_at_utc")
               == Get(Section(Get(payload, "freshness")), "observed_at_utc")
            && Get(Section(Get(certified, "evidence")), "certification_basis").List?
            && |Get(Section(Get(certified, "evidence")), "certification_basis").items| == 4
            && (Get(certified, "observed_trust_metadata").Obj? && "generated_at" in certified["observed_trust_metadata"].m ==>
                  certified["observed_trust_metadata"].m["generated_at"] == Str(cal.format(refresh.reference)))
  {
    hide Patch, RefusalOf, ObservedNow;
    var now := cal.format(refresh.reference);
    var patched := Patch(ObservedNow(payload, now), cal, refresh).value;
    hide *;
    CertifiedIs(payload, cal, refresh);
    SealedShows(patched, payload, now, refresh, product);
    CertifiableProduct(payload, product, lineage, evidence);
  }

  lemma CertifiableProduct(payload: Payload, product: string, lineage: Payload, evidence: Payload)
    requires Certifiable(payload, product, lineage, evidence)
    ensures Get(payload, "product_id") == Str(product)
  {
  }

  lemma CertifiedIs(payload: Payload, cal: Calendar, refresh: Refresh)
    requires Certified(payload, cal, refresh).Ok?
    ensures Patch(ObservedNow(payload, cal.format(refresh.reference)), cal, refresh).Ok?
    ensures Certified(payload, cal, refresh).value
         == Sealed(Patch(ObservedNow(payload, cal.format(refresh.reference)), cal, refresh).value, payload, cal.format(refresh.reference), refresh)
  {
    hide Patch, RefusalOf, ObservedNow, Sealed;
  }

  lemma SealedShows(patched: Payload, original: Payload, now: string, refresh: Refresh, product: string)
    requires Get(original, "product_id") == Str(product)
    ensures var sealed := Sealed(patched, original, now, refresh);
            && Get(Section(Get(sealed, "lineage")), "lineage_bundle_id") == Str("lineage:" + product + ":" + refresh.sha)
            && Get(Section(Get(sealed, "evidence")), "source_event_id")
               == Str("source-event:" + product + ":ci-certification:" + refresh.run)
            && Get(Section(Get(sealed, "evidence")), "source_fixture_observed_at_utc")
               == Get(Section(Get(original, "freshness")), "observed_at_utc")
            && Get(Section(Get(sealed, "evidence")), "certification_basis").List?
            && |Get(Section(Get(sealed, "evidence")), "certification_basis").items| == 4
            && (Get(sealed, "observed_trust_metadata").Obj? && "generated_at" in sealed["observed_trust_metadata"].m ==>
                  sealed["observed_trust_metadata"].m["generated_at"] == Str(now))
  {
  }
}
