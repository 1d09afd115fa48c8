/** Quality metrics held to reviewed limits, of scripts/quality_trend_gate.py.  Numbers are exact. */
module QualityTrend {
  import opened Wrappers
  import opened Text

  datatype Metric = Metric(name: string, direction: string, allowed: real, reason: string)

  /** A reviewed exception: a wider limit for one metric, between one base and one state of the Python files. */
  datatype Reviewed = Reviewed(
    metric: string, base: string, content: string, allowed: real, reason: string, approver: string, expires: string)

  datatype Policy = Policy(metrics: seq<Metric>, entries: seq<Reviewed>)

  const SUPPORTED := {"total_python_lines", "radon_b_ranked_blocks", "radon_worst_complexity", "interrogate_coverage_percent"}

  predicate NonEmpty(s: string) {
    Strip(s) != ""
  }

  predicate IsHex(s: string, n: nat) {
    |s| == n && forall i | 0 <= i < |s| :: IsDigit(s[i]) || 'a' <= s[i] <= 'f'
  }

  /** Lower-case hexadecimal digits, and blanks. */
  lemma FieldsExact(s: string, n: nat)
    ensures IsHex(s, n) <==> |s| == n && forall i | 0 <= i < |s| :: s[i] in "0123456789abcdef"
    ensures NonEmpty(s) <==> exists i | 0 <= i < |s| :: !IsSpace(s[i])
  {
    BlankIff(s);
    hide Strip, IsSpace;
    forall c: char
      ensures IsDigit(c) || 'a' <= c <= 'f' <==> c in "0123456789abcdef"
    {
      HexDigit(c);
    }
  }

  /** The four metrics that a report gives. */
  lemma SupportedExact(name: string)
    ensures name in SUPPORTED
       <==> || name == "total_python_lines" || name == "radon_b_ranked_blocks"
            || name == "radon_worst_complexity" || name == "interrogate_coverage_percent"
  {
  }

  lemma HexDigit(c: char)
    ensures IsDigit(c) || 'a' <= c <= 'f' <==> c in "0123456789abcdef"
  {
    var digits := "0123456789abcdef";
    assert forall i | 0 <= i < 10 :: digits[i] as int == '0' as int + i;
    assert forall i | 10 <= i < 16 :: digits[i] as int == 'a' as int + i - 10;
    if IsDigit(c) {
      assert digits[c as int - '0' as int] == c;
    } else if 'a' <= c <= 'f' {
      assert digits[c as int - 'a' as int + 10] == c;
    }
  }

  // ----- loading a policy -----

  datatype PolicyError =
    | NoMetrics
    | BadMetric(index: nat)
    | BadException(index: nat)

  predicate SoundMetric(m: Metric) {
    && NonEmpty(m.name) && m.name in SUPPORTED
    && (m.direction == "increase" || m.direction == "decrease")
    && m.allowed >= 0.0 && NonEmpty(m.reason)
  }

  /** A metric is sound when it is one of the four, with a direction, a limit that is not negative and a reason. */
  lemma SoundMetricExact(m: Metric)
    ensures SoundMetric(m)
       <==> && (|| m.name == "total_python_lines" || m.name == "radon_b_ranked_blocks"
                || m.name == "radon_worst_complexity" || m.name == "interrogate_coverage_percent")
            && (m.direction == "increase" || m.direction == "decrease")
            && m.allowed >= 0.0 && exists i | 0 <= i < |m.reason| :: !IsSpace(m.reason[i])
  {
    hide SUPPORTED, NonEmpty, IsSpace;
    SupportedExact(m.name);
    FieldsExact(m.reason, 0);
    if m.name in SUPPORTED {
      SupportedNotBlank(m.name);
    }
  }

  lemma SupportedNotBlank(name: string)
    requires name in SUPPORTED
    ensures NonEmpty(name)
  {
    SupportedExact(name);
    hide SUPPORTED;
    assert name[0] == 't' || name[0] == 'r' || name[0] == 'i';
    FieldsExact(name, 0);
  }

  predicate SameIdentity(a: Reviewed, b: Reviewed) {
    a.metric == b.metric && a.base == b.base && a.content == b.content
  }

  /** An exception names a metric of the policy, is at least as wide as its limit, and has not expired. */
  predicate SoundException(e: Reviewed, metrics: seq<Metric>, today: int, dates: string -> Option<int>) {
    && NonEmpty(e.metric) && IsHex(e.base, 40) && IsHex(e.content, 64)
    && e.allowed >= 0.0 && NonEmpty(e.reason) && NonEmpty(e.approver) && NonEmpty(e.expires)
    && dates(e.expires).Some? && today <= dates(e.expires).value
    && exists i | 0 <= i < |metrics| :: metrics[i].name == e.metric && metrics[i].allowed <= e.allowed
  }

  predicate DistinctNames(metrics: seq<Metric>) {
    forall i, j | 0 <= i < j < |metrics| :: metrics[i].name != metrics[j].name
  }

  predicate DistinctExceptions(entries: seq<Reviewed>) {
    forall i, j | 0 <= i < j < |entries| :: !SameIdentity(entries[i], entries[j])
  }

  predicate SoundMetrics(metrics: seq<Metric>) {
    (forall i | 0 <= i < |metrics| :: SoundMetric(metrics[i])) && DistinctNames(metrics)
  }

  predicate SoundExceptions(entries: seq<Reviewed>, metrics: seq<Metric>, today: int, dates: string -> Option<int>) {
    (forall i | 0 <= i < |entries| :: SoundException(entries[i], metrics, today, dates)) && DistinctExceptions(entries)
  }

  /** What `load_policy` accepts. */
  predicate Loads(policy: Policy, today: int, dates: string -> Option<int>) {
    policy.metrics != [] && SoundMetrics(policy.metrics) && SoundExceptions(policy.entries, policy.metrics, today, dates)
  }

  /** The checks of `load_policy` on metrics and exceptions; None when it accepts. */
  method LoadPolicy(policy: Policy, today: int, dates: string -> Option<int>) returns (error: Option<PolicyError>)
    ensures error.None? <==> Loads(policy, today, dates)
    ensures error.Some? && error.value.BadMetric? ==>
              var i := error.value.index;
              i < |policy.metrics| && SoundMetrics(policy.metrics[..i]) && !SoundMetrics(policy.metrics[..i + 1])
    ensures error.Some? && error.value.BadException? ==>
              var i := error.value.index;
              && i < |policy.entries| && SoundMetrics(policy.metrics)
              && SoundExceptions(policy.entries[..i], policy.metrics, today, dates)
              && !SoundExceptions(policy.entries[..i + 1], policy.metrics, today, dates)
  {
    hide SoundMetric, NonEmpty, IsHex, SUPPORTED, SoundMetrics, SoundExceptions, SoundException, LimitOf;
    var metrics, entries := policy.metrics, policy.entries;
    if metrics == [] {
      return Some(NoMetrics);
    }
    NothingUnsound(metrics, today, dates);
    var names: set<string> := {};
    for i := 0 to |metrics|
      invariant SoundMetrics(metrics[..i])
      invariant forall x :: x in names <==> exists k | 0 <= k < i :: metrics[k].name == x
    {
      var m := metrics[i];
      OneMoreMetric(metrics, i);
      if !SoundMetric(m) || m.name in names {
        BrokenPrefix(metrics, i);
        return Some(BadMetric(i));
      }
      names := names + {m.name};
    }
    assert metrics[..|metrics|] == metrics;
    MetricsDistinct(metrics);
    var seen: set<(string, string, string)> := {};
    for i := 0 to |entries|
      invariant SoundExceptions(entries[..i], metrics, today, dates)
      invariant forall x :: x in seen <==> exists k | 0 <= k < i :: (entries[k].metric, entries[k].base, entries[k].content) == x
    {
      var e := entries[i];
      var identity := (e.metric, e.base, e.content);
      var limit := LimitOf(metrics, e.metric);
      OneMoreException(entries, i, metrics, today, dates);
      ExceptionSoundIff(e, metrics, today, dates);
      if !NonEmpty(e.metric) || !IsHex(e.base, 40) || !IsHex(e.content, 64) || e.metric !in names || identity in seen
         || e.allowed < 0.0 || limit.None? || e.allowed < limit.value
         || !NonEmpty(e.reason) || !NonEmpty(e.approver) || !NonEmpty(e.expires)
         || dates(e.expires).None? || dates(e.expires).value < today
      {
        BrokenExceptions(entries, i, metrics, today, dates);
        return Some(BadException(i));
      }
      seen := seen + {identity};
    }
    assert entries[..|entries|] == entries;
    return None;
  }

  lemma NothingUnsound(metrics: seq<Metric>, today: int, dates: string -> Option<int>)
    ensures SoundMetrics(metrics[..0]) && forall entries: seq<Reviewed> :: SoundExceptions(entries[..0], metrics, today, dates)
  {
  }

  lemma MetricsDistinct(metrics: seq<Metric>)
    requires SoundMetrics(metrics)
    ensures DistinctNames(metrics)
  {
  }

  lemma OneMoreMetric(metrics: seq<Metric>, i: nat)
    requires i < |metrics| && SoundMetrics(metrics[..i])
    ensures SoundMetrics(metrics[..i + 1]) <==> SoundMetric(metrics[i]) && !exists k | 0 <= k < i :: metrics[k].name == metrics[i].name
  {
    hide SoundMetric;
    var before, after := metrics[..i], metrics[..i + 1];
    assert after[i] == metrics[i] && forall k | 0 <= k < i :: after[k] == before[k] == metrics[k];
    if k :| 0 <= k < i && metrics[k].name == metrics[i].name {
      assert after[k].name == after[i].name;
    }
  }

  lemma OneMoreException(entries: seq<Reviewed>, i: nat, metrics: seq<Metric>, today: int, dates: string -> Option<int>)
    requires i < |entries| && SoundExceptions(entries[..i], metrics, today, dates)
    ensures SoundExceptions(entries[..i + 1], metrics, today, dates)
       <==> && SoundException(entries[i], metrics, today, dates)
            && !exists k | 0 <= k < i :: (entries[k].metric, entries[k].base, entries[k].content)
                                         == (entries[i].metric, entries[i].base, entries[i].content)
  {
    hide SoundException;
    var before, after := entries[..i], entries[..i + 1];
    assert after[i] == entries[i] && forall k | 0 <= k < i :: after[k] == before[k] == entries[k];
    if k :| 0 <= k < i && (entries[k].metric, entries[k].base, entries[k].content) == (entries[i].metric, entries[i].base, entries[i].content) {
      assert SameIdentity(after[k], after[i]);
    }
  }

  /** Looking up the limit of the named metric decides the last clause of soundness. */
  lemma ExceptionSoundIff(e: Reviewed, metrics: seq<Metric>, today: int, dates: string -> Option<int>)
    requires DistinctNames(metrics)
    ensures (exists i | 0 <= i < |metrics| :: metrics[i].name == e.metric) <==> LimitOf(metrics, e.metric).Some?
    ensures SoundException(e, metrics, today, dates)
       <==> && NonEmpty(e.metric) && IsHex(e.base, 40) && IsHex(e.content, 64)
            && e.allowed >= 0.0 && NonEmpty(e.reason) && NonEmpty(e.approver) && NonEmpty(e.expires)
            && dates(e.expires).Some? && today <= dates(e.expires).value
            && LimitOf(metrics, e.metric).Some? && LimitOf(metrics, e.metric).value <= e.allowed
  {
    hide NonEmpty, IsHex, LimitOf;
    LimitOfName(metrics, e.metric);
  }

  lemma BrokenPrefix(metrics: seq<Metric>, i: nat)
    requires i < |metrics|
    ensures SoundMetrics(metrics) ==> SoundMetrics(metrics[..i + 1])
  {
  }

  lemma BrokenExceptions(entries: seq<Reviewed>, i: nat, metrics: seq<Metric>, today: int, dates: string -> Option<int>)
    requires i < |entries|
    ensures SoundExceptions(entries, metrics, today, dates) ==> SoundExceptions(entries[..i + 1], metrics, today, dates)
  {
  }

  /** The limit of the first metric with that name. */
  function LimitOf(metrics: seq<Metric>, name: string): Option<real> {
    if metrics == [] then None
    else if metrics[0].name == name then Some(metrics[0].allowed)
    else LimitOf(metrics[1..], name)
  }

  lemma {:induction false} LimitOfName(metrics: seq<Metric>, name: string)
    requires DistinctNames(metrics)
    ensures LimitOf(metrics, name).Some? <==> exists i | 0 <= i < |metrics| :: metrics[i].name == name
    ensures forall i | 0 <= i < |metrics| && metrics[i].name == name :: LimitOf(metrics, name) == Some(metrics[i].allowed)
  {
    if metrics != [] && metrics[0].name != name {
      LimitOfName(metrics[1..], name);
      forall i | 0 <= i < |metrics| && metrics[i].name == name
        ensures LimitOf(metrics, name) == Some(metrics[i].allowed)
      {
        assert metrics[1..][i - 1] == metrics[i];
      }
    }
  }

  // ----- reading a report -----

  /** The interrogate counts of a report. */
  datatype Counts = Counts(total: nat, missing: nat, covered: nat)

  /** `_measurement` of the docstring metric; None when it raises. */
  function Coverage(c: Counts): Option<real> {
    if c.total == 0 || c.missing + c.covered != c.total then None
    else Some(c.covered as real / c.total as real * 100.0)
  }

  /** A percentage that falls exactly with the missing share. */
  lemma CoverageExact(c: Counts)
    ensures Coverage(c).Some? <==> c.total > 0 && c.missing + c.covered == c.total
    ensures Coverage(c).Some? ==>
              && 0.0 <= Coverage(c).value <= 100.0
              && (Coverage(c).value == 100.0 <==> c.missing == 0)
              && (100.0 - Coverage(c).value) * c.total as real == 100.0 * c.missing as real
  {
    if Coverage(c).Some? {
      var total, covered := c.total as real, c.covered as real;
      var share := covered / total;
      assert share * total == covered;
      assert total - covered == c.missing as real;
      ShareExact(share, total, covered);
    }
  }

  /** The arithmetic of a share, as a percentage. */
  lemma ShareExact(share: real, total: real, part: real)
    requires total > 0.0 && 0.0 <= part <= total && share * total == part
    ensures 0.0 <= share * 100.0 <= 100.0 && (share * 100.0 == 100.0 <==> part == total)
    ensures (100.0 - share * 100.0) * total == 100.0 * (total - part)
  {
    NonNegativeFactor(share, total);
    NonNegativeFactor(1.0 - share, total);
    assert (1.0 - share) * total == total - part;
    assert (100.0 - share * 100.0) * total == 100.0 * ((1.0 - share) * total);
  }

  lemma NonNegativeFactor(x: real, y: real)
    requires y > 0.0 && x * y >= 0.0
    ensures x >= 0.0 && (x == 0.0 <==> x * y == 0.0)
  {
    if x < 0.0 {
      NegativeProduct(x, y);
    } else if x > 0.0 {
      NegativeProduct(-x, y);
      assert (-x) * y == -(x * y);
    }
  }

  lemma NegativeProduct(x: real, y: real)
    requires y > 0.0 && x < 0.0
    ensures x * y < 0.0
  {
  }

  // ----- comparing two reports -----

  type Measurements = map<string, real>

  datatype Status = Passed | Failed

  datatype MetricResult = MetricResult(
    name: string, base: real, head: real, limit: real, allowed: real, status: Status, exception: Option<Reviewed>)

  predicate Applies(e: Reviewed, name: string, base: string, content: string) {
    e.metric == name && e.base == base && e.content == content
  }

  function Matching(entries: seq<Reviewed>, name: string, base: string, content: string): seq<Reviewed> {
    if entries == [] then []
    else (if Applies(entries[0], name, base, content) then [entries[0]] else []) + Matching(entries[1..], name, base, content)
  }

  function AllowedDelta(m: Metric, entries: seq<Reviewed>, base: string, content: string): real {
    var matching := Matching(entries, m.name, base, content);
    if matching == [] then m.allowed else matching[0].allowed
  }

  predicate Regressed(direction: string, delta: real, allowed: real) {
    if direction == "increase" then delta > allowed else delta < -allowed
  }

  predicate Measures(policy: Policy, measured: Measurements) {
    forall i | 0 <= i < |policy.metrics| :: policy.metrics[i].name in measured
  }

  /** A metric that must not increase is at most `allowed` above its base; any other at most `allowed` below. */
  predicate Within(direction: string, was: real, now: real, allowed: real) {
    if direction == "increase" then now <= was + allowed else was - allowed <= now
  }

  lemma WithinIff(direction: string, was: real, now: real, allowed: real)
    ensures Within(direction, was, now, allowed) <==> !Regressed(direction, now - was, allowed)
  {
  }

  /** The delta allowed at that base: that of an exception for exactly this comparison, or else the policy's. */
  predicate IsAllowed(m: Metric, entries: seq<Reviewed>, base: string, content: string, exception: Option<Reviewed>, allowed: real) {
    match exception
    case Some(e) => e in entries && e.metric == m.name && e.base == base && e.content == content && allowed == e.allowed
    case None => allowed == m.allowed && forall e | e in entries :: e.metric != m.name || e.base != base || e.content != content
  }

  /** The metric stays within what is allowed at that base. */
  predicate Holds(m: Metric, was: real, now: real, entries: seq<Reviewed>, base: string, content: string) {
    Within(m.direction, was, now, AllowedDelta(m, entries, base, content))
  }

  /** Every metric holds. */
  predicate Passes(policy: Policy, was: Measurements, now: Measurements, base: string, content: string)
    requires Measures(policy, was) && Measures(policy, now)
  {
    forall i | 0 <= i < |policy.metrics| ::
      var m := policy.metrics[i];
      Holds(m, was[m.name], now[m.name], policy.entries, base, content)
  }

  /** A result states the two readings, the limits and the exception that it was judged by, and the judgement. */
  predicate IsResult(r: MetricResult, m: Metric, was: real, now: real, entries: seq<Reviewed>, base: string, content: string) {
    && r.name == m.name && r.base == was && r.head == now && r.limit == m.allowed
    && IsAllowed(m, entries, base, content, r.exception, r.allowed)
    && (r.status == Passed <==> if m.direction == "increase" then now <= was + r.allowed else was - r.allowed <= now)
  }

  datatype GateError = DuplicateException(metric: string) | AmbiguousBase | UnreadableReport(revision: string)

  /** The verdict on one metric, under the exception that applies if there is one. */
  function Judge(m: Metric, was: real, now: real, matching: seq<Reviewed>): MetricResult {
    var exception := if matching == [] then None else Some(matching[0]);
    var allowed := if exception.None? then m.allowed else exception.value.allowed;
    MetricResult(m.name, was, now, m.allowed, allowed,
                 if Regressed(m.direction, now - was, allowed) then Failed else Passed, exception)
  }

  lemma {:induction false} MatchingMembers(entries: seq<Reviewed>, name: string, base: string, content: string)
    ensures forall e :: e in Matching(entries, name, base, content) <==> e in entries && Applies(e, name, base, content)
  {
    if entries == [] {
    } else {
      MatchingMembers(entries[1..], name, base, content);
      assert entries == [entries[0]] + entries[1..];
    }
  }

  lemma JudgeIsResult(m: Metric, was: real, now: real, entries: seq<Reviewed>, base: string, content: string)
    requires |Matching(entries, m.name, base, content)| <= 1
    ensures var r := Judge(m, was, now, Matching(entries, m.name, base, content));
            && IsResult(r, m, was, now, entries, base, content)
            && (r.status == Passed <==> Holds(m, was, now, entries, base, content))
  {
    MatchingMembers(entries, m.name, base, content);
    var matching := Matching(entries, m.name, base, content);
    if matching == [] {
      forall e | e in entries
        ensures !Applies(e, m.name, base, content)
      {
        assert e !in matching;
      }
    } else {
      assert matching[0] in matching;
    }
  }

  /** `compare_metrics`; the measurements hold every supported metric. */
  method CompareMetrics(was: Measurements, now: Measurements, policy: Policy, base: string, content: string)
    returns (outcome: Result<(seq<MetricResult>, seq<string>), GateError>)
    requires Measures(policy, was) && Measures(policy, now)
    ensures outcome.Err? <==>
              exists i | 0 <= i < |policy.metrics| :: |Matching(policy.entries, policy.metrics[i].name, base, content)| > 1
    ensures outcome.Err? ==>
              exists i | 0 <= i < |policy.metrics| ::
                && outcome.error == DuplicateException(policy.metrics[i].name)
                && |Matching(policy.entries, policy.metrics[i].name, base, content)| > 1
    ensures outcome.Ok? ==>
              var (results, failures) := outcome.value;
              && |results| == |policy.metrics|
              && (failures == [] <==> Passes(policy, was, now, base, content))
              && (forall x :: x in failures <==> exists i | 0 <= i < |results| :: results[i].name == x && results[i].status == Failed)
              && forall i | 0 <= i < |results| ::
                   var m := policy.metrics[i];
                   IsResult(results[i], m, was[m.name], now[m.name], policy.entries, base, content)
  {
    hide IsResult, Holds;
    var results: seq<MetricResult>, failures: seq<string> := [], [];
    for i := 0 to |policy.metrics|
      invariant |results| == i
      invariant forall k | 0 <= k < i :: |Matching(policy.entries, policy.metrics[k].name, base, content)| <= 1
      invariant forall k | 0 <= k < i ::
                  var m := policy.metrics[k];
                  && IsResult(results[k], m, was[m.name], now[m.name], policy.entries, base, content)
                  && (results[k].status == Passed <==> Holds(m, was[m.name], now[m.name], policy.entries, base, content))
      invariant failures == [] <==> forall k | 0 <= k < i :: results[k].status == Passed
      invariant forall x :: x in failures <==> exists k | 0 <= k < i :: results[k].name == x && results[k].status == Failed
    {
      var m := policy.metrics[i];
      var matching := Matching(policy.entries, m.name, base, content);
      if |matching| > 1 {
        return Err(DuplicateException(m.name));
      }
      var result := Judge(m, was[m.name], now[m.name], matching);
      JudgeIsResult(m, was[m.name], now[m.name], policy.entries, base, content);
      results := results + [result];
      if result.status == Failed {
        failures := failures + [m.name];
      }
    }
    return Ok((results, failures));
  }

  // ----- what a loaded policy guarantees -----

  lemma SomeMember(entries: seq<Reviewed>)
    ensures entries == [] || exists e :: e in entries
  {
    if entries != [] {
      assert entries[0] in entries;
    }
  }

  /** No two exceptions of a loaded policy apply to the same comparison: the duplicate error is out of reach. */
  lemma {:induction false} AtMostOneApplies(entries: seq<Reviewed>, name: string, base: string, content: string)
    requires DistinctExceptions(entries)
    ensures |Matching(entries, name, base, content)| <= 1
  {
    if entries == [] {
    } else {
      AtMostOneApplies(entries[1..], name, base, content);
      MatchingMembers(entries[1..], name, base, content);
      if Applies(entries[0], name, base, content) {
        forall k | 0 <= k < |entries[1..]|
          ensures !Applies(entries[1..][k], name, base, content)
        {
          assert !SameIdentity(entries[0], entries[k + 1]);
        }
        SomeMember(Matching(entries[1..], name, base, content));
      }
    }
  }

  /** At a fixed base, the exceptions of a loaded policy only widen its limits. */
  lemma ExceptionsWiden(policy: Policy, i: nat, today: int, dates: string -> Option<int>, base: string, content: string)
    requires Loads(policy, today, dates) && i < |policy.metrics|
    ensures 0.0 <= policy.metrics[i].allowed <= AllowedDelta(policy.metrics[i], policy.entries, base, content)
  {
    hide NonEmpty, IsHex, SUPPORTED;
    var m := policy.metrics[i];
    MatchingMembers(policy.entries, m.name, base, content);
    var matching := Matching(policy.entries, m.name, base, content);
    if matching != [] {
      assert matching[0] in matching;
      var k :| 0 <= k < |policy.entries| && policy.entries[k] == matching[0];
      assert SoundException(policy.entries[k], policy.metrics, today, dates);
    }
  }

  /** What passes without exceptions passes with those of a loaded policy. */
  lemma ExceptionsOnlyHelp(policy: Policy, today: int, dates: string -> Option<int>,
                           was: Measurements, now: Measurements, base: string, content: string)
    requires Loads(policy, today, dates) && Measures(policy, was) && Measures(policy, now)
    requires Passes(Policy(policy.metrics, []), was, now, base, content)
    ensures Passes(policy, was, now, base, content)
  {
    forall i | 0 <= i < |policy.metrics|
      ensures var m := policy.metrics[i]; Holds(m, was[m.name], now[m.name], policy.entries, base, content)
    {
      ExceptionsWiden(policy, i, today, dates, base, content);
      var m := policy.metrics[i];
      assert Holds(m, was[m.name], now[m.name], [], base, content);
    }
  }

  /** A comparison passes exactly when every metric stays, in its own direction, within the delta allowed for it. */
  lemma PassesIff(policy: Policy, was: Measurements, now: Measurements, base: string, content: string)
    requires Measures(policy, was) && Measures(policy, now) && DistinctExceptions(policy.entries)
    ensures Passes(policy, was, now, base, content)
       <==> forall i | 0 <= i < |policy.metrics| :: PassesAt(policy, policy.metrics[i], was, now, base, content)
  {
    hide IsResult, PassesAt, Holds;
    forall i | 0 <= i < |policy.metrics|
      ensures var m := policy.metrics[i];
              Holds(m, was[m.name], now[m.name], policy.entries, base, content) <==> PassesAt(policy, m, was, now, base, content)
    {
      HoldsExact(policy, policy.metrics[i], was, now, base, content);
    }
  }

  /** The metric's reading at the head against the one at the base. */
  ghost predicate PassesAt(policy: Policy, m: Metric, was: Measurements, now: Measurements, base: string, content: string)
    requires m.name in was && m.name in now
  {
    exists exception: Option<Reviewed>, allowed: real ::
      && IsAllowed(m, policy.entries, base, content, exception, allowed)
      && if m.direction == "increase" then now[m.name] <= was[m.name] + allowed else now[m.name] >= was[m.name] - allowed
  }

  lemma HoldsExact(policy: Policy, m: Metric, was: Measurements, now: Measurements, base: string, content: string)
    requires m.name in was && m.name in now && DistinctExceptions(policy.entries)
    ensures Holds(m, was[m.name], now[m.name], policy.entries, base, content) <==> PassesAt(policy, m, was, now, base, content)
  {
    var matching := Matching(policy.entries, m.name, base, content);
    AtMostOneApplies(policy.entries, m.name, base, content);
    JudgeIsResult(m, was[m.name], now[m.name], policy.entries, base, content);
    MatchingMembers(policy.entries, m.name, base, content);
    var r := Judge(m, was[m.name], now[m.name], matching);
    forall exception: Option<Reviewed>, allowed: real | IsAllowed(m, policy.entries, base, content, exception, allowed)
      ensures allowed == r.allowed
    {
      if exception.Some? {
        assert Applies(exception.value, m.name, base, content) && exception.value in matching;
      }
    }
    assert IsAllowed(m, policy.entries, base, content, r.exception, r.allowed);
    hide Holds, Judge, AllowedDelta, Matching, IsAllowed;
  }

  // ----- choosing the base of the comparison -----

  /**
   `isAncestor` is git's ancestry; `measured` the report committed at a revision, parsed, or None when there is none
   or it lacks a metric.
   */
  datatype Repository = Repository(isAncestor: (string, string) -> bool, measured: string -> Option<Measurements>)

  /** The report can be read, and has every metric of the policy. */
  predicate Readable(policy: Policy, repo: Repository, revision: string) {
    repo.measured(revision).Some? && Measures(policy, repo.measured(revision).value)
  }

  function ReviewedBases(policy: Policy, repo: Repository, head: string, content: string): set<string> {
    set i | 0 <= i < |policy.entries| && policy.entries[i].content == content && repo.isAncestor(policy.entries[i].base, head)
      :: policy.entries[i].base
  }

  datatype BaseSource = SuppliedMergeBase | ReviewedException

  lemma OneElement(s: set<string>)
    requires |s| == 1
    ensures forall x, y | x in s && y in s :: x == y
  {
    forall x, y | x in s && y in s
      ensures x == y
    {
      assert |s - {x}| == 0;
      assert y !in s - {x};
    }
  }

  function TheElement(s: set<string>): (x: string)
    requires |s| == 1
    ensures s == {x}
  {
    OneElement(s);
    var x :| x in s;
    x
  }

  /** `_reviewed_exception_comparison_base` */
  function ComparisonBase(policy: Policy, repo: Repository, supplied: string, head: string, content: string)
    : Result<(string, BaseSource), GateError>
  {
    var bases := ReviewedBases(policy, repo, head, content);
    if bases == {} || supplied in bases then Ok((supplied, SuppliedMergeBase))
    else if |bases| != 1 then Err(AmbiguousBase)
    else Ok((TheElement(bases), ReviewedException))
  }

  /** Some exception was reviewed for this content against `base`, an ancestor of the head. */
  predicate IsReviewed(policy: Policy, repo: Repository, head: string, content: string, base: string) {
    exists e :: e in policy.entries && e.base == base && e.content == content && repo.isAncestor(base, head)
  }

  /** The one reviewed base is chosen, unless the supplied one is reviewed too or none is; several are ambiguous. */
  lemma BaseChosen(policy: Policy, repo: Repository, supplied: string, head: string, content: string)
    ensures var choice := ComparisonBase(policy, repo, supplied, head, content);
            && (choice == Ok((supplied, SuppliedMergeBase)) <==>
                  || IsReviewed(policy, repo, head, content, supplied)
                  || forall b :: !IsReviewed(policy, repo, head, content, b))
            && (forall b :: choice == Ok((b, ReviewedException)) <==>
                  && b != supplied && IsReviewed(policy, repo, head, content, b)
                  && forall other | IsReviewed(policy, repo, head, content, other) :: other == b)
            && (choice == Err(AmbiguousBase) <==>
                  && !IsReviewed(policy, repo, head, content, supplied)
                  && exists a, b :: a != b && IsReviewed(policy, repo, head, content, a) && IsReviewed(policy, repo, head, content, b))
  {
    var bases := ReviewedBases(policy, repo, head, content);
    forall b
      ensures b in bases <==> IsReviewed(policy, repo, head, content, b)
    {
      if e :| e in policy.entries && e.base == b && e.content == content && repo.isAncestor(b, head) {
        var i :| 0 <= i < |policy.entries| && policy.entries[i] == e;
      }
    }
    hide IsReviewed, ReviewedBases;
    if |bases| == 1 {
      var x := TheElement(bases);
      assert x in bases;
    } else if bases != {} {
      var x :| x in bases;
      assert bases != {x};
      var y :| y in bases && y != x;
    }
  }

  predicate SameBase(a: Result<(string, BaseSource), GateError>, b: Result<(string, BaseSource), GateError>) {
    a.Ok? && b.Ok? && a.value.0 == b.value.0
  }

  /** The base of the comparison is the same for every supplied merge base exactly when one base is reviewed. */
  lemma BaseIndependentIff(policy: Policy, repo: Repository, head: string, content: string)
    ensures (forall a, b :: SameBase(ComparisonBase(policy, repo, a, head, content), ComparisonBase(policy, repo, b, head, content)))
            <==> |ReviewedBases(policy, repo, head, content)| == 1
  {
    var bases := ReviewedBases(policy, repo, head, content);
    if |bases| == 1 {
      var x := TheElement(bases);
      forall a, b
        ensures SameBase(ComparisonBase(policy, repo, a, head, content), ComparisonBase(policy, repo, b, head, content))
      {
      }
    } else if bases == {} {
      assert !SameBase(ComparisonBase(policy, repo, "a", head, content), ComparisonBase(policy, repo, "b", head, content)) by {
        assert "a"[0] != "b"[0];
      }
    } else {
      var x := Outside(bases);
      assert !SameBase(ComparisonBase(policy, repo, x, head, content), ComparisonBase(policy, repo, x, head, content));
    }
  }

  /** A string that is not in a given finite set. */
  lemma Outside(s: set<string>) returns (x: string)
    ensures x !in s
  {
    var n: nat := 0;
    var rest := s;
    while rest != {}
      invariant rest <= s && forall y | y in s - rest :: |y| < n
      decreases rest
    {
      var y :| y in rest;
      rest := rest - {y};
      n := if |y| < n then n else |y| + 1;
    }
    assert s - {} == s;
    x := seq(n, _ => 'a');
    assert |x| == n;
  }

  datatype Verdict = Verdict(base: string, passed: bool)

  /** The comparison part of `run_gate`, for a policy that loads. */
  function Gate(policy: Policy, repo: Repository, supplied: string, head: string, content: string): Result<Verdict, GateError> {
    match ComparisonBase(policy, repo, supplied, head, content)
    case Err(e) => Err(e)
    case Ok((base, _)) =>
      if !Readable(policy, repo, base) then Err(UnreadableReport(base))
      else if !Readable(policy, repo, head) then Err(UnreadableReport(head))
      else Ok(Verdict(base, Passes(policy, repo.measured(base).value, repo.measured(head).value, base, content)))
  }

  /**
   `run_gate` from the choice of the base to its verdict: for a policy that loads it fails only when several bases are
   reviewed and none is the supplied one, or when one of the two reports cannot be read.
   */
  method RunGate(policy: Policy, repo: Repository, supplied: string, head: string, content: string,
                 today: int, dates: string -> Option<int>)
    returns (verdict: Result<Verdict, GateError>)
    requires Loads(policy, today, dates)
    ensures verdict == Gate(policy, repo, supplied, head, content)
    ensures verdict == Err(AmbiguousBase) <==>
              |ReviewedBases(policy, repo, head, content)| > 1 && supplied !in ReviewedBases(policy, repo, head, content)
    ensures verdict.Err? ==> !verdict.error.DuplicateException?
  {
    hide Passes;
    var choice := ComparisonBase(policy, repo, supplied, head, content);
    if choice.Err? {
      return Err(choice.error);
    }
    var base := choice.value.0;
    if !Readable(policy, repo, base) {
      return Err(UnreadableReport(base));
    }
    if !Readable(policy, repo, head) {
      return Err(UnreadableReport(head));
    }
    forall i | 0 <= i < |policy.metrics|
      ensures |Matching(policy.entries, policy.metrics[i].name, base, content)| <= 1
    {
      AtMostOneApplies(policy.entries, policy.metrics[i].name, base, content);
    }
    var outcome := CompareMetrics(repo.measured(base).value, repo.measured(head).value, policy, base, content);
    return Ok(Verdict(base, outcome.value.1 == []));
  }

  /** With one reviewed base, the outcome does not depend on the supplied merge base: it is that of the reviewed one. */
  lemma VerdictIndependent(policy: Policy, repo: Repository, a: string, b: string, head: string, content: string)
    requires |ReviewedBases(policy, repo, head, content)| == 1
    ensures Gate(policy, repo, a, head, content) == Gate(policy, repo, b, head, content) != Err(AmbiguousBase)
    ensures Gate(policy, repo, a, head, content).Ok? ==>
              Gate(policy, repo, a, head, content).value.base in ReviewedBases(policy, repo, head, content)
  {
    hide Passes, Readable;
    BaseIndependentIff(policy, repo, head, content);
    var s := ReviewedBases(policy, repo, head, content);
    assert s == {TheElement(s)};
    assert SameBase(ComparisonBase(policy, repo, a, head, content), ComparisonBase(policy, repo, b, head, content));
  }

  // ----- drift over a chain of runs -----

  /** One passing run as one metric sees it: its value before and after, and the delta that was allowed. */
  datatype Run = Run(was: real, now: real, allowed: real)

  predicate Chained(runs: seq<Run>) {
    forall i | 0 < i < |runs| :: runs[i].was == runs[i - 1].now
  }

  function TotalAllowed(runs: seq<Run>): real {
    if runs == [] then 0.0 else TotalAllowed(runs[..|runs| - 1]) + runs[|runs| - 1].allowed
  }

  /**
   Over a chain of runs in which a metric held, its total drift in the bad direction is at most the sum of the
   allowed deltas.
   */
  lemma {:induction false} DriftBounded(runs: seq<Run>, direction: string)
    requires runs != [] && Chained(runs)
    requires forall i | 0 <= i < |runs| :: !Regressed(direction, runs[i].now - runs[i].was, runs[i].allowed)
    ensures direction == "increase" ==> runs[|runs| - 1].now - runs[0].was <= TotalAllowed(runs)
    ensures direction != "increase" ==> runs[0].was - runs[|runs| - 1].now <= TotalAllowed(runs)
  {
    var init := runs[..|runs| - 1];
    if init == [] {
      assert TotalAllowed(runs) == runs[0].allowed;
    } else {
      DriftBounded(init, direction);
    }
  }

  /** The bound is reached: from any value, a chain of runs that use up their allowances drifts by their sum. */
  lemma {:induction false} DriftReached(start: real, allowances: seq<real>, direction: string) returns (runs: seq<Run>)
    ensures |runs| == |allowances| && Chained(runs) && forall i | 0 <= i < |runs| :: runs[i].allowed == allowances[i]
    ensures forall i | 0 <= i < |runs| :: !Regressed(direction, runs[i].now - runs[i].was, runs[i].allowed)
    ensures runs != [] ==>
              && runs[0].was == start
              && runs[|runs| - 1].now - start == if direction == "increase" then TotalAllowed(runs) else -TotalAllowed(runs)
  {
    runs := [];
    if allowances == [] {
    } else {
      var n := |allowances| - 1;
      var init := DriftReached(start, allowances[..n], direction);
      var last := if init == [] then start else init[n - 1].now;
      var step := if direction == "increase" then allowances[n] else -allowances[n];
      var run := Run(last, last + step, allowances[n]);
      runs := init + [run];
      TotalAllowedAppend(init, run);
      assert forall i | 0 <= i < n :: runs[i] == init[i] && allowances[..n][i] == allowances[i];
      assert runs[n] == run;
      assert !Regressed(direction, run.now - run.was, run.allowed);
      hide *;
      assert init == [] ==> TotalAllowed(init) == 0.0 by {
        NothingAllowed();
      }
    }
  }

  lemma NothingAllowed()
    ensures TotalAllowed([]) == 0.0
  {
  }

  lemma TotalAllowedAppend(runs: seq<Run>, run: Run)
    ensures TotalAllowed(runs + [run]) == TotalAllowed(runs) + run.allowed
  {
    assert (runs + [run])[..|runs|] == runs;
  }

  /** A passing run of the gate on one metric of its policy. */
  datatype GateRun = GateRun(policy: Policy, metric: Metric, was: Measurements, now: Measurements, base: string, content: string)

  predicate PassingRun(g: GateRun, name: string, direction: string) {
    && g.metric in g.policy.metrics && g.metric.name == name && g.metric.direction == direction
    && Measures(g.policy, g.was) && Measures(g.policy, g.now)
    && Passes(g.policy, g.was, g.now, g.base, g.content)
  }

  function AsRun(g: GateRun, name: string): Run {
    Run(if name in g.was then g.was[name] else 0.0, if name in g.now then g.now[name] else 0.0,
        AllowedDelta(g.metric, g.policy.entries, g.base, g.content))
  }

  /** The runs of the gate as one metric sees them. */
  function Runs(gateRuns: seq<GateRun>, name: string): seq<Run> {
    seq(|gateRuns|, i requires 0 <= i < |gateRuns| => AsRun(gateRuns[i], name))
  }

  lemma PassingRunHolds(g: GateRun, name: string, direction: string)
    requires PassingRun(g, name, direction)
    ensures name in g.was && name in g.now
    ensures !Regressed(direction, g.now[name] - g.was[name], AsRun(g, name).allowed)
  {
    WithinIff(direction, g.was[name], g.now[name], AsRun(g, name).allowed);
  }

  /**
   Over any chain of passing gate runs, each comparing with the metrics that the one before left and each under a
   policy of its own, a metric drifts by at most the sum of the deltas that the runs allowed.
   */
  lemma PassingChainDrift(gateRuns: seq<GateRun>, name: string, direction: string)
    requires gateRuns != [] && forall i | 0 <= i < |gateRuns| :: PassingRun(gateRuns[i], name, direction)
    requires forall i | 0 < i < |gateRuns| :: gateRuns[i].was == gateRuns[i - 1].now
    ensures name in gateRuns[0].was && name in gateRuns[|gateRuns| - 1].now
    ensures var start, end := gateRuns[0].was[name], gateRuns[|gateRuns| - 1].now[name];
            && (direction == "increase" ==> end - start <= TotalAllowed(Runs(gateRuns, name)))
            && (direction != "increase" ==> start - end <= TotalAllowed(Runs(gateRuns, name)))
  {
    hide PassingRun, Regressed;
    forall i | 0 <= i < |gateRuns|
      ensures name in gateRuns[i].was && name in gateRuns[i].now
      ensures !Regressed(direction, gateRuns[i].now[name] - gateRuns[i].was[name], AsRun(gateRuns[i], name).allowed)
    {
      PassingRunHolds(gateRuns[i], name, direction);
    }
    DriftBounded(Runs(gateRuns, name), direction);
  }
}
