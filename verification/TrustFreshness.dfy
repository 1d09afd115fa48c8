/** The freshness posture of trust-telemetry snapshots, of scripts/trust_telemetry_freshness.py. */
module TrustFreshness {
  import opened Wrappers
  import opened Text
  import opened Json

  type Payload = map<string, Value>

  /**
   Instants are microseconds since some epoch.  `parse` is `datetime.fromisoformat` of a text with a time zone,
   None when it is malformed or has none; `format` is `format_utc_timestamp`.
   */
  datatype Calendar = Calendar(parse: string -> Option<int>, format: int -> string)

  const SECOND := 1_000_000

  function WholeSecond(t: int): int {
    t - t % SECOND
  }

  /** Formatting drops the fraction of a second, and what was formatted reads back. */
  ghost predicate Faithful(cal: Calendar) {
    forall t :: Strip(cal.format(t)) != "" && cal.parse(cal.format(t)) == Some(WholeSecond(t))
  }

  /** Such calendars exist, for instance one that writes the seconds as an integer. */
  lemma FaithfulExists() returns (cal: Calendar)
    ensures Faithful(cal)
  {
    hide *;
    cal := Calendar(s => ReadSeconds(s), t => ShowSeconds(t));
    forall t
      ensures Strip(ShowSeconds(t)) != "" && ReadSeconds(ShowSeconds(t)) == Some(WholeSecond(t))
    {
      SecondsRead(t);
    }
    FaithfulWhen(cal);
  }

  lemma FaithfulWhen(cal: Calendar)
    requires forall t :: Strip(cal.format(t)) != "" && cal.parse(cal.format(t)) == Some(WholeSecond(t))
    ensures Faithful(cal)
  {
  }

  lemma SecondsRead(t: int)
    ensures Strip(ShowSeconds(t)) != "" && ReadSeconds(ShowSeconds(t)) == Some(WholeSecond(t))
  {
    hide Strip, ShowInteger, ReadInteger;
    var seconds := t / SECOND;
    assert WholeSecond(t) == seconds * SECOND;
    ReadShown(seconds);
  }

  function ShowSeconds(t: int): string {
    ShowInteger(t / SECOND)
  }

  function ReadSeconds(s: string): Option<int> {
    match ReadInteger(s)
    case None => None
    case Some(n) => Some(n * SECOND)
  }

  datatype Reason = FreshnessNotObject | BadTimestamp | BadMaximumAge | EvidenceNotObject

  /** Who refreshes a snapshot, and when. */
  datatype Refresh = Refresh(reference: int, sha: string, run: string)

  datatype State = Current | Stale | Unknown

  function StateName(state: State): string {
    match state
    case Current => "current"
    case Stale => "stale"
    case Unknown => "unknown"
  }

  // ----- age and state -----

  /** `int(delta.total_seconds())`, which truncates toward zero. */
  function AgeSeconds(observed: int, reference: int): int {
    var delta := reference - observed;
    if delta >= 0 then delta / SECOND else -((-delta) / SECOND)
  }

  /** `derived_freshness_state` */
  function StateOf(age: int, maximum: Option<int>): State {
    if age < 0 then Unknown
    else if maximum.None? then Unknown
    else if age <= maximum.value then Current
    else Stale
  }

  /** The states in microseconds: less than a second before the observation still counts as age zero. */
  lemma StateExact(observed: int, reference: int, maximum: Option<int>)
    requires maximum.Some? ==> maximum.value >= 1
    ensures var state := StateOf(AgeSeconds(observed, reference), maximum);
            && (state == Current <==>
                  maximum.Some? && -SECOND < reference - observed < (maximum.value + 1) * SECOND)
            && (state == Stale <==> maximum.Some? && reference - observed >= (maximum.value + 1) * SECOND)
  {
  }

  // ----- reading a snapshot's freshness -----

  /** The field that the observation is taken from. */
  function ObservedField(freshness: Payload): Value {
    if Truthy(Get(freshness, "observed_at_utc")) then Get(freshness, "observed_at_utc")
    else Get(freshness, "evaluated_at_utc")
  }

  function ParseTimestamp(v: Value, cal: Calendar): Result<int, Reason> {
    if !v.Str? || Strip(v.s) == "" then Err(BadTimestamp)
    else match cal.parse(v.s)
      case None => Err(BadTimestamp)
      case Some(t) => Ok(t)
  }

  /** `_max_allowed_age_seconds` */
  function MaximumAge(freshness: Payload): Result<Option<int>, Reason> {
    match Get(freshness, "max_allowed_age_seconds")
    case Null => Ok(None)
    case Int(n) => if n < 1 then Err(BadMaximumAge) else Ok(Some(n))
    case _ => Err(BadMaximumAge)
  }

  // ----- the expected posture -----

  function Blocking(state: State): Value {
    if state == Current then Obj(map["blocked" := Bool(false)])
    else Obj(map["blocked" := Bool(true), "blocked_reason" := Str(BlockReason(state)), "blocked_summary" := Str(Summary(state))])
  }

  function BlockReason(state: State): string {
    if state == Stale then "TRUST_TELEMETRY_STALE" else "TRUST_TELEMETRY_FRESHNESS_UNKNOWN"
  }

  function Summary(state: State): string {
    if state == Stale then
      "Trust telemetry evidence is older than the declared maximum age and must be "
      + "regenerated from current implementation evidence before promotion."
    else "Trust telemetry freshness cannot be derived from the committed snapshot."
  }

  /** What the freshness section of a payload says: the observation, and the maximum age if there is one. */
  function Read(payload: Payload, cal: Calendar): Result<(int, Option<int>), Reason> {
    var freshness := Get(payload, "freshness");
    if !freshness.Obj? then Err(FreshnessNotObject) else ReadFreshness(freshness.m, cal)
  }

  function ReadFreshness(freshness: Payload, cal: Calendar): Result<(int, Option<int>), Reason> {
    match ParseTimestamp(ObservedField(freshness), cal)
    case Err(e) => Err(e)
    case Ok(observed) =>
      match MaximumAge(freshness)
      case Err(e) => Err(e)
      case Ok(maximum) => Ok((observed, maximum))
  }

  function PatchedFreshness(freshness: Payload, age: int, state: State, now: string): Payload {
    freshness["evaluated_at_utc" := Str(now)]
             ["age_seconds" := Int(if age < 0 then 0 else age)]
             ["freshness_state" := Str(StateName(state))]
  }

  function PatchedEvidence(evidence: Payload, now: string, refresh: Refresh): Payload {
    evidence["freshness_reference_time_utc" := Str(now)]
            ["repository_commit_sha" := Str(refresh.sha)]
            ["validation_run_id" := Str(refresh.run)]
  }

  /** `payload.setdefault("evidence", {})` */
  function Evidence(payload: Payload): Value {
    if "evidence" in payload then payload["evidence"] else Obj(map[])
  }

  function Section(v: Value): Payload {
    if v.Obj? then v.m else map[]
  }

  /** The payload with the derived fields set and every other one as before. */
  function Stamped(payload: Payload, age: int, state: State, now: string, refresh: Refresh): Payload {
    payload["freshness" := Obj(PatchedFreshness(Section(Get(payload, "freshness")), age, state, now))]
           ["emitted_at_utc" := Str(now)]
           ["evidence" := Obj(PatchedEvidence(Section(Evidence(payload)), now, refresh))]
           ["blocking" := Blocking(state)]
  }

  /** `expected_freshness_patch` */
  function Patch(payload: Payload, cal: Calendar, refresh: Refresh): Result<Payload, Reason> {
    match Read(payload, cal)
    case Err(e) => Err(e)
    case Ok((observed, maximum)) =>
      if !Evidence(payload).Obj? then Err(EvidenceNotObject)
      else
        var age := AgeSeconds(observed, refresh.reference);
        Ok(Stamped(payload, age, StateOf(age, maximum), cal.format(refresh.reference), refresh))
  }

  // ----- validation -----

  datatype Failure =
    | CannotDerive(reason: Reason)
    | FutureDated
    | FreshnessField(name: string)
    | BlockingPosture
    | NoEvidence
    | ReferenceTime
    | BlankIdentity(name: string)

  const FRESHNESS_FIELDS := ["evaluated_at_utc", "age_seconds", "freshness_state"]
  const IDENTITY_FIELDS := ["repository_commit_sha", "validation_run_id"]

  predicate NonBlank(v: Value) {
    v.Str? && Strip(v.s) != ""
  }

  /** A payload states the posture that is derived from its own observation, which is not in the future. */
  predicate Valid(payload: Payload, cal: Calendar, refresh: Refresh) {
    && Patch(payload, cal, refresh).Ok?
    && Read(payload, cal).Ok? && Read(payload, cal).value.0 <= refresh.reference
    && States(payload, Patch(payload, cal, refresh).value, cal.format(refresh.reference))
  }

  predicate States(payload: Payload, expected: Payload, now: string) {
    && SameDerived(Section(Get(payload, "freshness")), Section(Get(expected, "freshness")), |FRESHNESS_FIELDS|)
    && PyEqual(Get(payload, "blocking"), Get(expected, "blocking"))
    && Get(payload, "evidence").Obj?
    && PyEqual(Get(payload["evidence"].m, "freshness_reference_time_utc"), Str(now))
    && forall name | name in IDENTITY_FIELDS :: NonBlank(Get(payload["evidence"].m, name))
  }

  /** The first `n` derived fields are as expected. */
  predicate SameDerived(actual: Payload, expected: Payload, n: nat) {
    forall i | 0 <= i < n && i < |FRESHNESS_FIELDS| ::
      PyEqual(Get(actual, FRESHNESS_FIELDS[i]), Get(expected, FRESHNESS_FIELDS[i]))
  }

  /** What each failure says of a payload whose expected posture is derived. */
  predicate Fails(f: Failure, payload: Payload, expected: Payload, future: bool, now: string) {
    match f
    case CannotDerive(_) => false
    case FutureDated => future
    case FreshnessField(name) =>
      name in FRESHNESS_FIELDS
      && !PyEqual(Get(Section(Get(payload, "freshness")), name), Get(Section(Get(expected, "freshness")), name))
    case BlockingPosture => !PyEqual(Get(payload, "blocking"), Get(expected, "blocking"))
    case NoEvidence => !Get(payload, "evidence").Obj?
    case ReferenceTime =>
      Get(payload, "evidence").Obj? && !PyEqual(Get(payload["evidence"].m, "freshness_reference_time_utc"), Str(now))
    case BlankIdentity(name) =>
      Get(payload, "evidence").Obj? && name in IDENTITY_FIELDS && !NonBlank(Get(payload["evidence"].m, name))
  }

  class Snapshot {
    var payload: Payload

    constructor (payload: Payload)
      ensures this.payload == payload
    {
      this.payload := payload;
    }

    /** `expected_freshness_patch`: works on a copy and leaves this snapshot alone. */
    method ExpectedFreshnessPatch(cal: Calendar, refresh: Refresh) returns (patched: Result<Snapshot, Reason>)
      ensures patched.Err? ==> Patch(payload, cal, refresh) == Err(patched.error)
      ensures patched.Ok? ==> fresh(patched.value) && Patch(payload, cal, refresh) == Ok(patched.value.payload)
    {
      hide Blocking, ObservedField, MaximumAge, ParseTimestamp, AgeSeconds, StateOf;
      if !Get(payload, "freshness").Obj? {
        return Err(FreshnessNotObject);
      }
      var freshness := payload["freshness"].m;
      var observed := ParseTimestamp(ObservedField(freshness), cal);
      if observed.Err? {
        return Err(observed.error);
      }
      var maximum := MaximumAge(freshness);
      if maximum.Err? {
        return Err(maximum.error);
      }
      var age := AgeSeconds(observed.value, refresh.reference);
      var state := StateOf(age, maximum.value);
      var now := cal.format(refresh.reference);

      freshness := freshness["evaluated_at_utc" := Str(now)];
      freshness := freshness["age_seconds" := Int(if age < 0 then 0 else age)];
      freshness := freshness["freshness_state" := Str(StateName(state))];
      var copy := new Snapshot(payload["freshness" := Obj(freshness)]);
      copy.payload := copy.payload["emitted_at_utc" := Str(now)];

      var evidence := Evidence(copy.payload);
      if !evidence.Obj? {
        return Err(EvidenceNotObject);
      }
      copy.payload := copy.payload["evidence" := Obj(PatchedEvidence(evidence.m, now, refresh))];
      copy.payload := copy.payload["blocking" := Blocking(state)];
      assert copy.payload == Stamped(payload, age, state, now, refresh);
      return Ok(copy);
    }

    /** `certified_runtime_snapshot`: works on a copy as well. */
    method Certify(cal: Calendar, refresh: Refresh) returns (certified: Result<Snapshot, Refusal>)
      ensures certified.Err? ==> Certified(payload, cal, refresh) == Err(certified.error)
      ensures certified.Ok? ==> fresh(certified.value) && Certified(payload, cal, refresh) == Ok(certified.value.payload)
    {
      hide Patch, Read;
      var refusal := RefusalOf(payload, refresh);
      if refusal.Some? {
        return Err(refusal.value);
      }
      var now := cal.format(refresh.reference);
      var observed := new Snapshot(ObservedNow(payload, now));
      var patched := observed.ExpectedFreshnessPatch(cal, refresh);
      if patched.Err? {
        return Err(NoPatch(patched.error));
      }
      var copy := patched.value;
      copy.payload := Sealed(copy.payload, payload, now, refresh);
      return Ok(copy);
    }

    /** One file of `refresh_path`. */
    method RefreshFile(cal: Calendar, refresh: Refresh) returns (error: Option<Reason>)
      modifies this
      ensures error.Some? ==> Patch(old(payload), cal, refresh) == Err(error.value) && payload == old(payload)
      ensures error.None? ==> Patch(old(payload), cal, refresh) == Ok(payload)
    {
      var patched := ExpectedFreshnessPatch(cal, refresh);
      if patched.Err? {
        return Some(patched.error);
      }
      payload := patched.value.payload;
      return None;
    }

    /** `validate_snapshot` */
    method Validate(cal: Calendar, refresh: Refresh) returns (failures: seq<Failure>)
      ensures failures == [] <==> Valid(payload, cal, refresh)
      ensures Patch(payload, cal, refresh).Err? ==> failures == [CannotDerive(Patch(payload, cal, refresh).error)]
      ensures Patch(payload, cal, refresh).Ok? ==>
                && Read(payload, cal).Ok?
                && forall f :: f in failures <==>
                     Fails(f, payload, Patch(payload, cal, refresh).value, Read(payload, cal).value.0 > refresh.reference,
                           cal.format(refresh.reference))
    {
      hide PyEqual, Stamped, States, Fails, NonBlank, SameDerived;
      failures := [];
      var patched := ExpectedFreshnessPatch(cal, refresh);
      if patched.Err? {
        return [CannotDerive(patched.error)];
      }
      var freshness, now := payload["freshness"].m, cal.format(refresh.reference);
      var observed := ParseTimestamp(ObservedField(freshness), cal);
      if observed.value > refresh.reference {
        failures := [FutureDated];
      }
      var expected := patched.value.payload;
      var derived := DerivedFailures(freshness, Section(Get(expected, "freshness")));
      failures := failures + derived;
      if !PyEqual(Get(payload, "blocking"), Get(expected, "blocking")) {
        failures := failures + [BlockingPosture];
      }
      ghost var future := observed.value > refresh.reference;
      SilentIff(payload, expected, future, now);
      if !Get(payload, "evidence").Obj? {
        failures := failures + [NoEvidence];
        FailsWithoutEvidence(payload, expected, future, now);
        SilentWhenNone(failures, payload, expected, future, now);
        return;
      }
      var others := EvidenceFailures(payload["evidence"].m, now);
      failures := failures + others;
      FailsWithEvidence(payload, expected, future, now);
      SilentWhenNone(failures, payload, expected, future, now);
    }
  }

  /** One failure for each derived field that is not as expected. */
  method DerivedFailures(freshness: Payload, expected: Payload) returns (failures: seq<Failure>)
    ensures forall f :: f in failures <==>
              f.FreshnessField? && f.name in FRESHNESS_FIELDS && !PyEqual(Get(freshness, f.name), Get(expected, f.name))
  {
    hide PyEqual;
    failures := [];
    for i := 0 to |FRESHNESS_FIELDS|
      invariant forall f :: f in failures <==>
                  f.FreshnessField? && f.name in FRESHNESS_FIELDS[..i] && !PyEqual(Get(freshness, f.name), Get(expected, f.name))
    {
      var name := FRESHNESS_FIELDS[i];
      if !PyEqual(Get(freshness, name), Get(expected, name)) {
        failures := failures + [FreshnessField(name)];
      }
      assert FRESHNESS_FIELDS[..i + 1] == FRESHNESS_FIELDS[..i] + [name];
    }
    assert FRESHNESS_FIELDS[..|FRESHNESS_FIELDS|] == FRESHNESS_FIELDS;
  }

  /** The failures of the evidence section. */
  method EvidenceFailures(evidence: Payload, now: string) returns (failures: seq<Failure>)
    ensures forall f :: f in failures <==>
              || (f == ReferenceTime && !PyEqual(Get(evidence, "freshness_reference_time_utc"), Str(now)))
              || (f.BlankIdentity? && f.name in IDENTITY_FIELDS && !NonBlank(Get(evidence, f.name)))
  {
    hide PyEqual, NonBlank;
    failures := [];
    if !PyEqual(Get(evidence, "freshness_reference_time_utc"), Str(now)) {
      failures := [ReferenceTime];
    }
    for i := 0 to |IDENTITY_FIELDS|
      invariant forall f :: f in failures <==>
                  || (f == ReferenceTime && !PyEqual(Get(evidence, "freshness_reference_time_utc"), Str(now)))
                  || (f.BlankIdentity? && f.name in IDENTITY_FIELDS[..i] && !NonBlank(Get(evidence, f.name)))
    {
      var name := IDENTITY_FIELDS[i];
      if !NonBlank(Get(evidence, name)) {
        failures := failures + [BlankIdentity(name)];
      }
      assert IDENTITY_FIELDS[..i + 1] == IDENTITY_FIELDS[..i] + [name];
    }
    assert IDENTITY_FIELDS[..|IDENTITY_FIELDS|] == IDENTITY_FIELDS;
  }

  lemma FailsWithoutEvidence(payload: Payload, expected: Payload, future: bool, now: string)
    requires !Get(payload, "evidence").Obj?
    ensures forall f :: Fails(f, payload, expected, future, now) <==>
              || (f == FutureDated && future)
              || (f.FreshnessField? && f.name in FRESHNESS_FIELDS
                  && !PyEqual(Get(Section(Get(payload, "freshness")), f.name), Get(Section(Get(expected, "freshness")), f.name)))
              || (f == BlockingPosture && !PyEqual(Get(payload, "blocking"), Get(expected, "blocking")))
              || f == NoEvidence
  {
    hide PyEqual, FRESHNESS_FIELDS, IDENTITY_FIELDS;
  }

  lemma FailsWithEvidence(payload: Payload, expected: Payload, future: bool, now: string)
    requires Get(payload, "evidence").Obj?
    ensures forall f :: Fails(f, payload, expected, future, now) <==>
              || (f == FutureDated && future)
              || (f.FreshnessField? && f.name in FRESHNESS_FIELDS
                  && !PyEqual(Get(Section(Get(payload, "freshness")), f.name), Get(Section(Get(expected, "freshness")), f.name)))
              || (f == BlockingPosture && !PyEqual(Get(payload, "blocking"), Get(expected, "blocking")))
              || (f == ReferenceTime && !PyEqual(Get(payload["evidence"].m, "freshness_reference_time_utc"), Str(now)))
              || (f.BlankIdentity? && f.name in IDENTITY_FIELDS && !NonBlank(Get(payload["evidence"].m, f.name)))
  {
    hide PyEqual, NonBlank, FRESHNESS_FIELDS, IDENTITY_FIELDS;
  }

  /** Nothing fails exactly when the posture is stated and the observation is not in the future. */
  lemma SilentIff(payload: Payload, expected: Payload, future: bool, now: string)
    ensures (forall f :: !Fails(f, payload, expected, future, now)) <==> !future && States(payload, expected, now)
  {
    hide PyEqual, NonBlank;
    if forall f :: !Fails(f, payload, expected, future, now) {
      assert !Fails(FutureDated, payload, expected, future, now) && !Fails(BlockingPosture, payload, expected, future, now);
      assert !Fails(NoEvidence, payload, expected, future, now) && !Fails(ReferenceTime, payload, expected, future, now);
      forall name | name in IDENTITY_FIELDS
        ensures NonBlank(Get(payload["evidence"].m, name))
      {
        assert !Fails(BlankIdentity(name), payload, expected, future, now);
      }
      forall i | 0 <= i < |FRESHNESS_FIELDS|
        ensures PyEqual(Get(Section(Get(payload, "freshness")), FRESHNESS_FIELDS[i]), Get(Section(Get(expected, "freshness")), FRESHNESS_FIELDS[i]))
      {
        assert !Fails(FreshnessField(FRESHNESS_FIELDS[i]), payload, expected, future, now);
      }
    }
  }

  lemma SilentWhenNone(failures: seq<Failure>, payload: Payload, expected: Payload, future: bool, now: string)
    requires forall f :: f in failures <==> Fails(f, payload, expected, future, now)
    ensures failures == [] <==> forall f :: !Fails(f, payload, expected, future, now)
  {
    hide Fails;
    if failures != [] {
      assert failures[0] in failures;
    }
  }

  // ----- refreshing again -----

  predicate ObservedPresent(payload: Payload) {
    Truthy(Get(Section(Get(payload, "freshness")), "observed_at_utc"))
  }

  /** The parts of a stamped payload. */
  lemma {:induction false} StampedParts(payload: Payload, age: int, state: State, now: string, refresh: Refresh)
    ensures var stamped := Stamped(payload, age, state, now, refresh);
            && Get(stamped, "freshness") == Obj(PatchedFreshness(Section(Get(payload, "freshness")), age, state, now))
            && Get(stamped, "evidence") == Evidence(stamped)
            && Evidence(stamped) == Obj(PatchedEvidence(Section(Evidence(payload)), now, refresh))
            && Get(stamped, "blocking") == Blocking(state)
            && stamped.Keys == payload.Keys + {"freshness", "emitted_at_utc", "evidence", "blocking"}
            && forall k | k in payload && k !in {"freshness", "emitted_at_utc", "evidence", "blocking"} ::
                 k in stamped && stamped[k] == payload[k]
  {
    hide Blocking, PatchedFreshness, PatchedEvidence;
  }

  /** Stamping forgets an earlier stamp. */
  lemma StampedAgain(payload: Payload, age: int, state: State, now: string, refresh: Refresh,
                     age': int, state': State, now': string, refresh': Refresh)
    ensures Stamped(Stamped(payload, age, state, now, refresh), age', state', now', refresh')
         == Stamped(payload, age', state', now', refresh')
  {
    hide Blocking, PatchedFreshness, PatchedEvidence;
    var once := Stamped(payload, age, state, now, refresh);
    StampedParts(payload, age, state, now, refresh);
    var freshness, evidence := Section(Get(payload, "freshness")), Section(Evidence(payload));
    FieldsAgain(freshness, evidence, age, state, now, refresh, age', state', now', refresh');
    assert Section(Get(once, "freshness")) == PatchedFreshness(freshness, age, state, now);
    assert Section(Evidence(once)) == PatchedEvidence(evidence, now, refresh);
  }

  lemma FieldsAgain(freshness: Payload, evidence: Payload, age: int, state: State, now: string, refresh: Refresh,
                    age': int, state': State, now': string, refresh': Refresh)
    ensures PatchedFreshness(PatchedFreshness(freshness, age, state, now), age', state', now')
         == PatchedFreshness(freshness, age', state', now')
    ensures PatchedEvidence(PatchedEvidence(evidence, now, refresh), now', refresh')
         == PatchedEvidence(evidence, now', refresh')
  {
  }

  /** What a refreshed payload reads as: its observation, or the time of the refresh when it has none. */
  lemma ReadPatched(payload: Payload, cal: Calendar, refresh: Refresh)
    requires Faithful(cal) && Patch(payload, cal, refresh).Ok?
    ensures var once := Patch(payload, cal, refresh).value;
            && (ObservedPresent(once) <==> ObservedPresent(payload))
            && Evidence(once).Obj?
            && Read(payload, cal).Ok?
            && Read(once, cal)
               == Ok((if ObservedPresent(payload) then Read(payload, cal).value.0 else WholeSecond(refresh.reference),
                      Read(payload, cal).value.1))
  {
    hide Stamped, AgeSeconds, StateOf, ObservedField, MaximumAge, ParseTimestamp, Truthy;
    var age, maximum := AgeSeconds(Read(payload, cal).value.0, refresh.reference), Read(payload, cal).value.1;
    ReadStamped(payload, age, StateOf(age, maximum), cal, refresh);
  }

  lemma {:induction false} ReadStamped(payload: Payload, age: int, state: State, cal: Calendar, refresh: Refresh)
    requires Faithful(cal) && Read(payload, cal).Ok?
    ensures var once := Stamped(payload, age, state, cal.format(refresh.reference), refresh);
            && (ObservedPresent(once) <==> ObservedPresent(payload))
            && Evidence(once).Obj?
            && Read(once, cal)
               == Ok((if ObservedPresent(payload) then Read(payload, cal).value.0 else WholeSecond(refresh.reference),
                      Read(payload, cal).value.1))
  {
    hide Stamped, ReadFreshness, Truthy, PatchedFreshness, PatchedEvidence;
    var now, freshness := cal.format(refresh.reference), Section(Get(payload, "freshness"));
    StampedParts(payload, age, state, now, refresh);
    ReadIs(payload, freshness, cal);
    hide *;
    ReadIs(Stamped(payload, age, state, now, refresh), PatchedFreshness(freshness, age, state, now), cal);
    ReadStampedFreshness(freshness, age, state, cal, refresh.reference);
  }

  /** Reading looks at the freshness section only. */
  lemma ReadIs(payload: Payload, freshness: Payload, cal: Calendar)
    requires Get(payload, "freshness") == Obj(freshness)
    ensures Read(payload, cal) == ReadFreshness(freshness, cal)
    ensures ObservedPresent(payload) <==> Truthy(Get(freshness, "observed_at_utc"))
  {
    hide ReadFreshness, Truthy;
  }

  lemma ReadStampedFreshness(freshness: Payload, age: int, state: State, cal: Calendar, reference: int)
    requires Faithful(cal) && ReadFreshness(freshness, cal).Ok?
    ensures var patched := PatchedFreshness(freshness, age, state, cal.format(reference));
            && (Truthy(Get(patched, "observed_at_utc")) <==> Truthy(Get(freshness, "observed_at_utc")))
            && ReadFreshness(patched, cal)
               == Ok((if Truthy(Get(freshness, "observed_at_utc")) then ReadFreshness(freshness, cal).value.0 else WholeSecond(reference),
                      ReadFreshness(freshness, cal).value.1))
  {
    hide ObservedField, MaximumAge, ParseTimestamp, Truthy, PatchedFreshness;
    FreshnessFields(freshness, age, state, cal.format(reference));
    FormattedReads(cal, reference);
    if Truthy(Get(freshness, "observed_at_utc")) {
      ObservedWhenPresent(freshness);
    }
  }

  lemma ObservedWhenPresent(freshness: Payload)
    requires Truthy(Get(freshness, "observed_at_utc"))
    ensures ObservedField(freshness) == Get(freshness, "observed_at_utc")
  {
  }

  lemma FormattedReads(cal: Calendar, t: int)
    requires Faithful(cal)
    ensures ParseTimestamp(Str(cal.format(t)), cal) == Ok(WholeSecond(t))
  {
  }

  lemma FreshnessFields(freshness: Payload, age: int, state: State, now: string)
    ensures var patched := PatchedFreshness(freshness, age, state, now);
            && Get(patched, "observed_at_utc") == Get(freshness, "observed_at_utc")
            && MaximumAge(patched) == MaximumAge(freshness)
            && ObservedField(patched)
               == if Truthy(Get(freshness, "observed_at_utc")) then Get(freshness, "observed_at_utc") else Str(now)
  {
  }

  /** A refresh of a refreshed payload stamps the original, with the observation as it reads by then. */
  lemma PatchTwice(payload: Payload, cal: Calendar, first: Refresh, second: Refresh)
    requires Faithful(cal) && Patch(payload, cal, first).Ok?
    ensures var once := Patch(payload, cal, first).value;
            Read(once, cal).Ok?
            && Patch(once, cal, second)
               == Ok(Stamped(payload, AgeSeconds(Read(once, cal).value.0, second.reference),
                             StateAt(once, cal, second.reference), cal.format(second.reference), second))
  {
    hide Stamped, Read, AgeSeconds, StateOf;
    ReadPatched(payload, cal, first);
    var once := Patch(payload, cal, first).value;
    StampedAgain(payload, AgeSeconds(Read(payload, cal).value.0, first.reference), StateAt(payload, cal, first.reference),
                 cal.format(first.reference), first,
                 AgeSeconds(Read(once, cal).value.0, second.reference), StateAt(once, cal, second.reference),
                 cal.format(second.reference), second);
  }

  function StateAt(payload: Payload, cal: Calendar, reference: int): State
    requires Read(payload, cal).Ok?
  {
    StateOf(AgeSeconds(Read(payload, cal).value.0, reference), Read(payload, cal).value.1)
  }

  /** The files that a series of refreshes leaves, one after the other. */
  function RefreshAll(payload: Payload, cal: Calendar, refreshes: seq<Refresh>): Result<Payload, Reason> {
    if refreshes == [] then Ok(payload)
    else
      match RefreshAll(payload, cal, refreshes[..|refreshes| - 1])
      case Err(e) => Err(e)
      case Ok(before) => Patch(before, cal, refreshes[|refreshes| - 1])
  }

  /** With an observation, only the last refresh of any series matters; in particular refreshing is idempotent. */
  lemma {:induction false} LastRefreshDecides(payload: Payload, cal: Calendar, refreshes: seq<Refresh>)
    requires Faithful(cal) && ObservedPresent(payload) && refreshes != []
    ensures RefreshAll(payload, cal, refreshes) == Patch(payload, cal, refreshes[|refreshes| - 1])
  {
    var init, last := refreshes[..|refreshes| - 1], refreshes[|refreshes| - 1];
    if init == [] {
    } else {
      LastRefreshDecides(payload, cal, init);
      SecondRefreshDecides(payload, cal, init[|init| - 1], last);
    }
  }

  lemma SecondRefreshDecides(payload: Payload, cal: Calendar, first: Refresh, second: Refresh)
    requires Faithful(cal) && ObservedPresent(payload)
    ensures match Patch(payload, cal, first)
            case Ok(once) => Patch(once, cal, second) == Patch(payload, cal, second)
            case Err(e) => Patch(payload, cal, second) == Err(e)
  {
    hide Read, Stamped, AgeSeconds, StateOf;
    if Patch(payload, cal, first).Ok? {
      PatchTwice(payload, cal, first, second);
      ReadPatched(payload, cal, first);
    }
  }

  /**
   Without an observation the refresh replaces the time that it derived the age from, so that the same refresh
   again changes the snapshot unless the age was zero, or negative with no maximum.
   */
  predicate Repeatable(payload: Payload, cal: Calendar, refresh: Refresh)
    requires Read(payload, cal).Ok?
  {
    var (observed, maximum) := Read(payload, cal).value;
    var age := AgeSeconds(observed, refresh.reference);
    ObservedPresent(payload) || age == 0 || (age < 0 && maximum.None?)
  }

  /** The same refresh again changes nothing exactly when it is repeatable. */
  lemma IdempotentIff(payload: Payload, cal: Calendar, refresh: Refresh)
    requires Faithful(cal) && Patch(payload, cal, refresh).Ok?
    ensures Read(payload, cal).Ok?
    ensures var once := Patch(payload, cal, refresh).value;
            Patch(once, cal, refresh) == Ok(once) <==> Repeatable(payload, cal, refresh)
  {
    hide Read, Stamped, AgeSeconds;
    PatchTwice(payload, cal, refresh, refresh);
    ReadPatched(payload, cal, refresh);
    MaximumPositive(payload, cal);
    ZeroAge(refresh.reference);
    var once := Patch(payload, cal, refresh).value;
    var age := AgeSeconds(Read(payload, cal).value.0, refresh.reference);
    var age' := AgeSeconds(Read(once, cal).value.0, refresh.reference);
    StampedSame(payload, age, StateAt(payload, cal, refresh.reference), age', StateAt(once, cal, refresh.reference),
                cal.format(refresh.reference), refresh);
  }

  lemma ZeroAge(reference: int)
    ensures AgeSeconds(WholeSecond(reference), reference) == 0
  {
  }

  /** Stamps agree exactly when their ages (at least zero) and states do, and so do the fields as Python compares them. */
  lemma StampedSame(payload: Payload, age: int, state: State, age': int, state': State, now: string, refresh: Refresh)
    ensures var left := Stamped(payload, age, state, now, refresh);
            var right := Stamped(payload, age', state', now, refresh);
            && (left == right <==> (age == age' || (age <= 0 && age' <= 0)) && state == state')
            && (left == right <==> SameDerived(Section(Get(left, "freshness")), Section(Get(right, "freshness")), 3))
  {
    hide Blocking, PyEqual, PatchedFreshness, PatchedEvidence, SameDerived;
    StampedParts(payload, age, state, now, refresh);
    StampedParts(payload, age', state', now, refresh);
    SameFreshness(Section(Get(payload, "freshness")), age, state, age', state', now);
  }

  lemma SameFreshness(freshness: Payload, age: int, state: State, age': int, state': State, now: string)
    ensures var left, right := PatchedFreshness(freshness, age, state, now), PatchedFreshness(freshness, age', state', now);
            && (left == right <==> (age == age' || (age <= 0 && age' <= 0)) && state == state')
            && (left == right <==> SameDerived(left, right, 3))
  {
    hide PyEqual;
    var left, right := PatchedFreshness(freshness, age, state, now), PatchedFreshness(freshness, age', state', now);
    StateNamesDistinct(state, state');
    hide StateName;
    assert left == right <==> left["age_seconds"] == right["age_seconds"] && left["freshness_state"] == right["freshness_state"];
    TextEqual(now, now);
    IntEqual(left["age_seconds"].n, right["age_seconds"].n);
    TextEqual(StateName(state), StateName(state'));
    assert FRESHNESS_FIELDS[0] == "evaluated_at_utc" && FRESHNESS_FIELDS[1] == "age_seconds";
    assert FRESHNESS_FIELDS[2] == "freshness_state";
    assert SameDerived(left, right, 3) <==> PyEqual(left["age_seconds"], right["age_seconds"]) && PyEqual(left["freshness_state"], right["freshness_state"]);
  }

  lemma StateNamesDistinct(a: State, b: State)
    ensures StateName(a) == StateName(b) <==> a == b
  {
    assert StateName(Current)[0] == 'c' && StateName(Unknown)[0] == 'u' && StateName(Stale)[0] == 's';
  }

  lemma TextEqual(s: string, t: string)
    ensures PyEqual(Str(s), Str(t)) <==> s == t
  {
  }

  lemma IntEqual(m: int, n: int)
    ensures PyEqual(Int(m), Int(n)) <==> m == n
  {
  }

  lemma MaximumPositive(payload: Payload, cal: Calendar)
    requires Read(payload, cal).Ok?
    ensures Read(payload, cal).value.1.Some? ==> Read(payload, cal).value.1.value >= 1
  {
  }

  // ----- staleness -----

  /** What a payload says of its own posture. */
  function StatedState(payload: Payload): Value {
    Get(Section(Get(payload, "freshness")), "freshness_state")
  }

  function StatedBlocking(payload: Payload): Payload {
    Section(Get(payload, "blocking"))
  }

  /** A refreshed snapshot is blocked exactly when it is not current, and says why; other keys are as before. */
  lemma BlockedIff(payload: Payload, cal: Calendar, refresh: Refresh)
    requires Patch(payload, cal, refresh).Ok?
    ensures Read(payload, cal).Ok?
    ensures var once, state := Patch(payload, cal, refresh).value, StateAt(payload, cal, refresh.reference);
            && StatedState(once) == Str(StateName(state))
            && Get(StatedBlocking(once), "blocked") == Bool(state != Current)
            && (Get(StatedBlocking(once), "blocked_reason") == Str("TRUST_TELEMETRY_STALE") <==> state == Stale)
            && forall k | k in payload && k !in {"freshness", "emitted_at_utc", "evidence", "blocking"} ::
                 k in once && once[k] == payload[k]
  {
    hide Read, AgeSeconds, Stamped, StateOf;
    var state := StateAt(payload, cal, refresh.reference);
    var age := AgeSeconds(Read(payload, cal).value.0, refresh.reference);
    StampedParts(payload, age, state, cal.format(refresh.reference), refresh);
    BlockingMeans(state);
    hide Blocking;
  }

  lemma BlockingMeans(state: State)
    ensures Blocking(state).Obj?
    ensures Get(Blocking(state).m, "blocked") == Bool(state != Current)
    ensures Get(Blocking(state).m, "blocked_reason") == Str("TRUST_TELEMETRY_STALE") <==> state == Stale
  {
    hide Summary;
    assert |"TRUST_TELEMETRY_STALE"| != |BlockReason(Unknown)|;
  }

  /** With an observation, a snapshot that was stale at some refresh is stale and blocked at every later time. */
  lemma StaleForGood(payload: Payload, cal: Calendar, refreshes: seq<Refresh>, i: nat, later: Refresh)
    requires Faithful(cal) && ObservedPresent(payload) && i < |refreshes|
    requires RefreshAll(payload, cal, refreshes[..i + 1]).Ok?
    requires StatedState(RefreshAll(payload, cal, refreshes[..i + 1]).value) == Str("stale")
    requires refreshes[i].reference <= later.reference
    ensures RefreshAll(payload, cal, refreshes + [later]).Ok?
    ensures var now := RefreshAll(payload, cal, refreshes + [later]).value;
            StatedState(now) == Str("stale") && Get(StatedBlocking(now), "blocked") == Bool(true)
  {
    hide Read, Stamped, AgeSeconds, StatedState, StatedBlocking;
    LastRefreshDecides(payload, cal, refreshes[..i + 1]);
    LastRefreshDecides(payload, cal, refreshes + [later]);
    BlockedIff(payload, cal, refreshes[i]);
    SecondRefreshDecides(payload, cal, refreshes[i], later);
    MaximumPositive(payload, cal);
    var (observed, maximum) := Read(payload, cal).value;
    assert StateName(Current)[0] == 'c' && StateName(Unknown)[0] == 'u' && StateName(Stale) == "stale";
    StateExact(observed, refreshes[i].reference, maximum);
    StateExact(observed, later.reference, maximum);
    BlockedIff(payload, cal, later);
  }

  /** Without one, refreshing a stale snapshot a second time makes it current. */
  lemma UnobservedForgetsStaleness(payload: Payload, cal: Calendar, refresh: Refresh)
    requires Faithful(cal) && !ObservedPresent(payload) && Patch(payload, cal, refresh).Ok?
    requires StatedState(Patch(payload, cal, refresh).value) == Str("stale")
    ensures Patch(Patch(payload, cal, refresh).value, cal, refresh).Ok?
    ensures StatedState(Patch(Patch(payload, cal, refresh).value, cal, refresh).value) == Str("current")
  {
    hide Read, Stamped, AgeSeconds, StatedState, Patch;
    BlockedIff(payload, cal, refresh);
    ReadPatched(payload, cal, refresh);
    PatchTwice(payload, cal, refresh, refresh);
    BlockedIff(Patch(payload, cal, refresh).value, cal, refresh);
    MaximumPositive(payload, cal);
    ZeroAge(refresh.reference);
    assert StateName(Current)[0] == 'c' && StateName(Unknown)[0] == 'u' && StateName(Stale) == "stale";
  }

  // ----- refresh, then check -----

  /**
   A refreshed snapshot passes the check of the same time exactly when the run's identity is not blank, the
   observation (if there is one) is not in the future, and refreshing again would change nothing.
   */
  lemma RefreshThenCheck(payload: Payload, cal: Calendar, refresh: Refresh)
    requires Faithful(cal) && Patch(payload, cal, refresh).Ok?
    ensures Read(payload, cal).Ok?
    ensures Valid(Patch(payload, cal, refresh).value, cal, refresh) <==>
            && Strip(refresh.sha) != "" && Strip(refresh.run) != ""
            && (ObservedPresent(payload) ==> Read(payload, cal).value.0 <= refresh.reference)
            && Repeatable(payload, cal, refresh)
  {
    hide Read, Stamped, AgeSeconds, StateOf, Repeatable;
    IdempotentIff(payload, cal, refresh);
    PatchTwice(payload, cal, refresh, refresh);
    ReadPatched(payload, cal, refresh);
    var once := Patch(payload, cal, refresh).value;
    var age, state := AgeSeconds(Read(payload, cal).value.0, refresh.reference), StateAt(payload, cal, refresh.reference);
    var age', state' := AgeSeconds(Read(once, cal).value.0, refresh.reference), StateAt(once, cal, refresh.reference);
    StatesIff(payload, age, state, age', state', cal.format(refresh.reference), refresh);
    assert WholeSecond(refresh.reference) <= refresh.reference;
  }

  lemma StatesIff(payload: Payload, age: int, state: State, age': int, state': State, now: string, refresh: Refresh)
    ensures var once := Stamped(payload, age, state, now, refresh);
            var twice := Stamped(payload, age', state', now, refresh);
            States(once, twice, now) <==> once == twice && Strip(refresh.sha) != "" && Strip(refresh.run) != ""
  {
    hide PyEqual, SameDerived, Stamped, Blocking;
    StampedSame(payload, age, state, age', state', now, refresh);
    StampedParts(payload, age, state, now, refresh);
    StampedParts(payload, age', state', now, refresh);
    PyEqualReflexive(Blocking(state));
    PyEqualReflexive(Str(now));
    var evidence := PatchedEvidence(Section(Evidence(payload)), now, refresh);
    assert IDENTITY_FIELDS[0] == "repository_commit_sha" && IDENTITY_FIELDS[1] == "validation_run_id";
    assert Get(evidence, IDENTITY_FIELDS[0]) == Str(refresh.sha) && Get(evidence, IDENTITY_FIELDS[1]) == Str(refresh.run);
    assert |FRESHNESS_FIELDS| == 3;
  }

  // ----- runtime certification -----

  datatype Refusal =
    | NotFullSha
    | LocalRun
    | BadProduct
    | Incomplete
    | QualityFailed
    | LineageNotMaterialized
    | NoEvidenceUris
    | NoValidationLanes
    | NoFreshness
    | NoPatch(reason: Reason)

  /** `[0-9a-f]{40}` */
  predicate IsFullSha(s: string) {
    |s| == 40 && forall i | 0 <= i < |s| :: IsDigit(s[i]) || 'a' <= s[i] <= 'f'
  }

  /** The first reason to refuse certification, in the order in which they are checked. */
  function RefusalOf(payload: Payload, refresh: Refresh): Option<Refusal> {
    var product, lineage, evidence := Get(payload, "product_id"), Get(payload, "lineage"), Get(payload, "evidence");
    if !IsFullSha(refresh.sha) then Some(NotFullSha)
    else if Strip(refresh.run) == "" || StartsWith(refresh.run, "local") then Some(LocalRun)
    else if !product.Str? || !StartsWith(product.s, "lotus-advise:") then Some(BadProduct)
    else if Get(payload, "completeness_status") != Str("complete") then Some(Incomplete)
    else if Get(payload, "data_quality_status") != Str("quality_passed") then Some(QualityFailed)
    else if Get(Section(lineage), "lineage_materialized") != Bool(true) then Some(LineageNotMaterialized)
    else if !Get(lineage.m, "evidence_uris").List? || Get(lineage.m, "evidence_uris").items == [] then Some(NoEvidenceUris)
    else if !Truthy(Get(Section(evidence), "validation_lanes")) then Some(NoValidationLanes)
    else if !Get(payload, "freshness").Obj? then Some(NoFreshness)
    else None
  }

  /** The payload as observed at the time of certification. */
  function ObservedNow(payload: Payload, now: string): Payload {
    payload["freshness" := Obj(Section(Get(payload, "freshness"))["observed_at_utc" := Str(now)])]
  }

  const CERTIFICATION_BASIS := List([
    Str("repo-native trust telemetry contract validation"),
    Str("materialized lineage and source-safe evidence references"),
    Str("complete product evidence and passed data-quality posture"),
    Str("immutable repository commit and CI run identity")])

  /** The identity that certification adds once the freshness is patched. */
  function Sealed(patched: Payload, original: Payload, now: string, refresh: Refresh): Payload {
    var product := Get(original, "product_id");
    var id := if product.Str? then product.s else "";
    var metadata := Get(patched, "observed_trust_metadata");
    var dated := if metadata.Obj? && "generated_at" in metadata.m
                 then patched["observed_trust_metadata" := Obj(metadata.m["generated_at" := Str(now)])] else patched;
    dated["lineage" := Obj(Section(Get(dated, "lineage"))["lineage_bundle_id" := Str("lineage:" + id + ":" + refresh.sha)])]
         ["evidence" := Obj(Section(Get(dated, "evidence"))
                              ["source_event_id" := Str("source-event:" + id + ":ci-certification:" + refresh.run)]
                              ["certification_basis" := CERTIFICATION_BASIS]
                              ["source_fixture_observed_at_utc" := Get(Section(Get(original, "freshness")), "observed_at_utc")])]
  }

  /** `certified_runtime_snapshot` */
  function Certified(payload: Payload, cal: Calendar, refresh: Refresh): Result<Payload, Refusal> {
    var now := cal.format(refresh.reference);
    if RefusalOf(payload, refresh).Some? then Err(RefusalOf(payload, refresh).value)
    else
      match Patch(ObservedNow(payload, now), cal, refresh)
      case Err(e) => Err(NoPatch(e))
      case Ok(patched) => Ok(Sealed(patched, payload, now, refresh))
  }

  /** Sealing leaves everything that validation looks at. */
  lemma SealedParts(patched: Payload, original: Payload, now: string, refresh: Refresh)
    ensures var sealed := Sealed(patched, original, now, refresh);
            && Get(sealed, "freshness") == Get(patched, "freshness")
            && Get(sealed, "blocking") == Get(patched, "blocking")
            && Get(sealed, "evidence").Obj? && Evidence(sealed).Obj?
            && (forall name | name in IDENTITY_FIELDS + ["freshness_reference_time_utc"] ::
                  Get(sealed["evidence"].m, name) == Get(Section(Get(patched, "evidence")), name))
  {
  }

  lemma SealedStates(patched: Payload, original: Payload, cal: Calendar, refresh: Refresh)
    requires Valid(patched, cal, refresh)
    ensures Valid(Sealed(patched, original, cal.format(refresh.reference), refresh), cal, refresh)
  {
    hide Sealed, Stamped, AgeSeconds, StateOf, PyEqual, SameDerived, ObservedField, ParseTimestamp, MaximumAge;
    var now := cal.format(refresh.reference);
    var sealed := Sealed(patched, original, now, refresh);
    SealedParts(patched, original, now, refresh);
    assert Read(sealed, cal) == Read(patched, cal);
    var (observed, maximum) := Read(patched, cal).value;
    var age := AgeSeconds(observed, refresh.reference);
    StampedParts(patched, age, StateOf(age, maximum), now, refresh);
    StampedParts(sealed, age, StateOf(age, maximum), now, refresh);
    forall name | name in IDENTITY_FIELDS
      ensures NonBlank(Get(sealed["evidence"].m, name))
    {
      assert name in IDENTITY_FIELDS + ["freshness_reference_time_utc"];
    }
    assert "freshness_reference_time_utc" in IDENTITY_FIELDS + ["freshness_reference_time_utc"];
  }

  /**
   A certified snapshot validates at the time of its certification; it is current with age zero when it declares a
   maximum age, and otherwise of unknown freshness and blocked.
   */
  lemma CertifiedIsValid(payload: Payload, cal: Calendar, refresh: Refresh)
    requires Faithful(cal) && Certified(payload, cal, refresh).Ok?
    ensures var certified := Certified(payload, cal, refresh).value;
            var current := Get(Section(Get(payload, "freshness")), "max_allowed_age_seconds") != Null;
            && Valid(certified, cal, refresh)
            && Get(Section(Get(certified, "freshness")), "age_seconds") == Int(0)
            && StatedState(certified) == Str(StateName(if current then Current else Unknown))
            && Get(StatedBlocking(certified), "blocked") == Bool(!current)
  {
    hide Patch, Read, Sealed, ObservedNow, StatedState, StatedBlocking, Valid, StateName;
    var now := cal.format(refresh.reference);
    var observed := ObservedNow(payload, now);
    var patched := Patch(observed, cal, refresh).value;
    CertifiedPatch(payload, cal, refresh);
    SealedStates(patched, payload, cal, refresh);
    SealedParts(patched, payload, now, refresh);
    SameStatements(Sealed(patched, payload, now, refresh), patched);
  }

  lemma SameStatements(a: Payload, b: Payload)
    requires Get(a, "freshness") == Get(b, "freshness") && Get(a, "blocking") == Get(b, "blocking")
    ensures StatedState(a) == StatedState(b) && StatedBlocking(a) == StatedBlocking(b)
  {
  }

  /** The same of the patch that certification seals. */
  lemma CertifiedPatch(payload: Payload, cal: Calendar, refresh: Refresh)
    requires Faithful(cal) && Certified(payload, cal, refresh).Ok?
    ensures var current := Get(Section(Get(payload, "freshness")), "max_allowed_age_seconds") != Null;
            var observed := ObservedNow(payload, cal.format(refresh.reference));
            && Patch(observed, cal, refresh).Ok?
            && var patched := Patch(observed, cal, refresh).value;
               && Valid(patched, cal, refresh)
               && Get(Section(Get(patched, "freshness")), "age_seconds") == Int(0)
               && StatedState(patched) == Str(StateName(if current then Current else Unknown))
               && Get(StatedBlocking(patched), "blocked") == Bool(!current)
  {
    hide Patch, Read, Sealed, Stamped, AgeSeconds, Blocking, Valid, ObservedNow, StatedState, StatedBlocking;
    var now := cal.format(refresh.reference);
    var observed := ObservedNow(payload, now);
    ObservedNowReads(payload, cal, refresh.reference);
    PatchOk(observed, cal, refresh);
    ZeroAge(refresh.reference);
    MaximumPositive(observed, cal);
    BlockedIff(observed, cal, refresh);
    StampedParts(observed, 0, StateAt(observed, cal, refresh.reference), now, refresh);
    hide StateOf;
    RefreshThenCheck(observed, cal, refresh);
    ShaNotBlank(refresh.sha);
    assert WholeSecond(refresh.reference) <= refresh.reference;
  }

  lemma PatchOk(payload: Payload, cal: Calendar, refresh: Refresh)
    requires Patch(payload, cal, refresh).Ok?
    ensures Read(payload, cal).Ok?
    ensures Patch(payload, cal, refresh).value
         == Stamped(payload, AgeSeconds(Read(payload, cal).value.0, refresh.reference),
                    StateAt(payload, cal, refresh.reference), cal.format(refresh.reference), refresh)
  {
  }

  lemma ShaNotBlank(sha: string)
    requires IsFullSha(sha)
    ensures Strip(sha) != ""
  {
  }

  lemma ObservedNowReads(payload: Payload, cal: Calendar, now: int)
    requires Faithful(cal) && Get(payload, "freshness").Obj?
    ensures var observed := ObservedNow(payload, cal.format(now));
            && ObservedPresent(observed)
            && (Read(observed, cal).Ok? ==>
                  && Read(observed, cal).value.0 == WholeSecond(now)
                  && (Read(observed, cal).value.1.Some? <==> Get(Section(Get(payload, "freshness")), "max_allowed_age_seconds") != Null))
  {
  }
}
