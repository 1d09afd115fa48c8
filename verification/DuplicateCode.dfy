/** The clone fingerprints of scripts/duplicate_code_gate.py. */
module DuplicateCode {
  import opened Wrappers
  import opened Text
  import opened Sorting

  // ----- jscpd findings -----

  datatype RawLocation = RawLocation(name: string, start: int, end: int)

  /** One entry of the jscpd report. */
  datatype RawDuplicate = RawDuplicate(
    format: string, fragment: string, first: RawLocation, second: RawLocation, lines: int, tokens: int)

  datatype Location = Location(path: string, start: int, end: int)

  datatype Candidate = Candidate(
    format: string, left: Location, right: Location, lines: int, tokens: int, base: string)

  datatype Finding = Finding(
    format: string, first: Location, second: Location, lines: int, tokens: int, fingerprint: string)

  datatype ReportError =
    | BlankField | UnsupportedFormat(format: string) | PathNotRelative(path: string)
    | AmbiguousPath(path: string) | InvalidBounds | InvalidCounts | DuplicateFingerprints

  /**
   The scan's surroundings: allowed formats, scan paths, which paths are files of the repository (None
   without a repository root), and SHA-256 as a hexadecimal digest.
   */
  datatype Scan = Scan(
    formats: set<string>, scanPaths: seq<string>, isFile: Option<string -> bool>, digest: string -> string)

  predicate Blank(s: string) {
    Strip(s) == ""
  }

  /** `":/" in path` */
  predicate HasDrive(path: string) {
    exists i | 0 <= i < |path| - 1 :: path[i] == ':' && path[i + 1] == '/'
  }

  /** `_canonical_path` */
  function CanonicalPath(name: string): Result<string, ReportError> {
    if Blank(name) then Err(BlankField)
    else
      var path := Replace(name, '\\', '/');
      if StartsWith(path, "/") || HasDrive(path) then Err(PathNotRelative(path))
      else Ok(if StartsWith(path, "./") then path[2..] else path)
  }

  function Matches(scopes: seq<string>, path: string, isFile: string -> bool): seq<string> {
    if scopes == [] then []
    else
      var candidate := scopes[0] + "/" + path;
      (if isFile(candidate) then [candidate] else []) + Matches(scopes[1..], path, isFile)
  }

  /** `_scoped_path` */
  function ScopedPath(scan: Scan, path: string): Result<string, ReportError> {
    match scan.isFile
    case None => Ok(path)
    case Some(isFile) =>
      if exists i | 0 <= i < |scan.scanPaths| ::
           path == scan.scanPaths[i] || StartsWith(path, scan.scanPaths[i] + "/") then Ok(path)
      else
        var matches := Matches(scan.scanPaths, path, isFile);
        if |matches| > 1 then Err(AmbiguousPath(path)) else Ok(if matches == [] then path else matches[0])
  }

  /** `_finding_location` */
  function LocationOf(scan: Scan, raw: RawLocation): Result<Location, ReportError> {
    match CanonicalPath(raw.name)
    case Err(e) => Err(e)
    case Ok(canonical) =>
      match ScopedPath(scan, canonical)
      case Err(e) => Err(e)
      case Ok(path) =>
        if raw.start < 1 || raw.end < raw.start then Err(InvalidBounds) else Ok(Location(path, raw.start, raw.end))
  }

  /** The order of `(path, start, end)` tuples. */
  predicate LocationLess(a: Location, b: Location) {
    if a.path != b.path then LexLe(a.path, b.path)
    else a.start < b.start || (a.start == b.start && a.end < b.end)
  }

  /** `fragment.replace("\r\n", "\n")` */
  function UnixNewlines(s: string): string {
    if |s| < 2 then s
    else if s[0] == '\r' && s[1] == '\n' then "\n" + UnixNewlines(s[2..])
    else [s[0]] + UnixNewlines(s[1..])
  }

  function BaseFingerprint(scan: Scan, format: string, first: string, second: string, fragment: string): string {
    "jscpd.v1|" + format + "|" + first + "|" + second + "|" + scan.digest(UnixNewlines(fragment))
  }

  function CandidateOf(scan: Scan, raw: RawDuplicate): Result<Candidate, ReportError> {
    if Blank(raw.format) then Err(BlankField)
    else if raw.format !in scan.formats then Err(UnsupportedFormat(raw.format))
    else if Blank(raw.fragment) then Err(BlankField)
    else
      match LocationOf(scan, raw.first)
      case Err(e) => Err(e)
      case Ok(first) =>
        match LocationOf(scan, raw.second)
        case Err(e) => Err(e)
        case Ok(second) =>
          var left := if LocationLess(second, first) then second else first;
          var right := if LocationLess(second, first) then first else second;
          if raw.lines < 1 || raw.tokens < 1 then Err(InvalidCounts)
          else Ok(Candidate(raw.format, left, right, raw.lines, raw.tokens,
                            BaseFingerprint(scan, raw.format, left.path, right.path, raw.fragment)))
  }

  function CandidatesOf(scan: Scan, raws: seq<RawDuplicate>): Result<seq<Candidate>, ReportError> {
    if raws == [] then Ok([])
    else
      match CandidatesOf(scan, raws[..|raws| - 1])
      case Err(e) => Err(e)
      case Ok(candidates) =>
        match CandidateOf(scan, raws[|raws| - 1])
        case Err(e) => Err(e)
        case Ok(candidate) => Ok(candidates + [candidate])
  }

  // ----- grouping and numbering -----

  /** The order of `(left[1:], right[1:])`. */
  predicate BoundsLe(a: Candidate, b: Candidate) {
    if a.left.start != b.left.start then a.left.start < b.left.start
    else if a.left.end != b.left.end then a.left.end < b.left.end
    else if a.right.start != b.right.start then a.right.start < b.right.start
    else a.right.end <= b.right.end
  }

  predicate SameBounds(a: Candidate, b: Candidate) {
    BoundsLe(a, b) && BoundsLe(b, a)
  }

  predicate FingerprintLe(a: Finding, b: Finding) {
    LexLe(a.fingerprint, b.fingerprint)
  }

  function Group(cs: seq<Candidate>, base: string): seq<Candidate> {
    if cs == [] then []
    else
      var last := cs[|cs| - 1];
      Group(cs[..|cs| - 1], base) + if last.base == base then [last] else []
  }

  /** The distinct bases, in order of first appearance. */
  function Bases(cs: seq<Candidate>): seq<string> {
    if cs == [] then []
    else
      var before := Bases(cs[..|cs| - 1]);
      if cs[|cs| - 1].base in before then before else before + [cs[|cs| - 1].base]
  }

  /** `f"{base}|occurrence={n}"` */
  function Occurrence(base: string, n: nat): string {
    base + "|occurrence=" + Digits(n)
  }

  function FindingOf(c: Candidate, base: string, n: nat): Finding {
    Finding(c.format, c.left, c.right, c.lines, c.tokens, Occurrence(base, n))
  }

  function Numbered(group: seq<Candidate>, base: string): seq<Finding> {
    seq(|group|, i requires 0 <= i < |group| => FindingOf(group[i], base, i + 1))
  }

  function SortedGroup(cs: seq<Candidate>, base: string): seq<Candidate> {
    Sort(BoundsLe, Group(cs, base))
  }

  function NumberedGroups(bases: seq<string>, cs: seq<Candidate>): seq<Finding> {
    if bases == [] then []
    else
      var last := bases[|bases| - 1];
      NumberedGroups(bases[..|bases| - 1], cs) + Numbered(SortedGroup(cs, last), last)
  }

  function Findings(cs: seq<Candidate>): seq<Finding> {
    Sort(FingerprintLe, NumberedGroups(Bases(cs), cs))
  }

  /** `parse_jscpd_report` */
  method ParseJscpdReport(scan: Scan, raws: seq<RawDuplicate>) returns (r: Result<seq<Finding>, ReportError>)
    ensures r == match CandidatesOf(scan, raws) case Err(e) => Err(e) case Ok(cs) => Ok(Findings(cs))
  {
    var candidates: seq<Candidate> := [];
    for index := 0 to |raws|
      invariant CandidatesOf(scan, raws[..index]) == Ok(candidates)
    {
      assert raws[..index + 1][..index] == raws[..index];
      var candidate := CandidateOf(scan, raws[index]);
      if candidate.Err? {
        FirstErrorWins(scan, raws, index + 1);
        return Err(candidate.error);
      }
      candidates := candidates + [candidate.value];
    }
    assert raws[..|raws|] == raws;
    var findings := NumberOccurrences(candidates);
    return Ok(Sort(FingerprintLe, findings));
  }

  lemma {:induction false} FirstErrorWins(scan: Scan, raws: seq<RawDuplicate>, n: nat)
    requires n <= |raws| && CandidatesOf(scan, raws[..n]).Err?
    ensures CandidatesOf(scan, raws) == CandidatesOf(scan, raws[..n])
    decreases |raws|
  {
    if n == |raws| {
      assert raws[..n] == raws;
    } else {
      assert raws[..|raws| - 1][..n] == raws[..n];
      FirstErrorWins(scan, raws[..|raws| - 1], n);
    }
  }

  /** The grouping dictionary, with its keys in insertion order. */
  method GroupCandidates(candidates: seq<Candidate>) returns (grouped: map<string, seq<Candidate>>, bases: seq<string>)
    ensures bases == Bases(candidates)
    ensures forall b :: b in grouped <==> b in bases
    ensures forall b | b in grouped :: grouped[b] == Group(candidates, b)
  {
    grouped, bases := map[], [];
    for i := 0 to |candidates|
      invariant bases == Bases(candidates[..i])
      invariant forall b :: b in grouped <==> b in bases
      invariant forall b | b in grouped :: grouped[b] == Group(candidates[..i], b)
    {
      var candidate := candidates[i];
      assert candidates[..i + 1][..i] == candidates[..i];
      if candidate.base !in grouped {
        GroupEmpty(candidates[..i], candidate.base);
        grouped := grouped[candidate.base := []];
        bases := bases + [candidate.base];
      }
      grouped := grouped[candidate.base := grouped[candidate.base] + [candidate]];
    }
    assert candidates[..|candidates|] == candidates;
  }

  lemma {:induction false} GroupEmpty(cs: seq<Candidate>, base: string)
    requires base !in Bases(cs)
    ensures Group(cs, base) == []
  {
    if cs == [] {
    } else {
      GroupEmpty(cs[..|cs| - 1], base);
    }
  }

  /** The occurrence loop of one group. */
  method NumberGroup(group: seq<Candidate>, base: string) returns (findings: seq<Finding>)
    ensures findings == Numbered(group, base)
  {
    findings := [];
    for k := 0 to |group|
      invariant findings == Numbered(group[..k], base)
    {
      findings := findings + [FindingOf(group[k], base, k + 1)];
    }
    assert group[..|group|] == group;
  }

  method NumberOccurrences(candidates: seq<Candidate>) returns (findings: seq<Finding>)
    ensures findings == NumberedGroups(Bases(candidates), candidates)
  {
    hide Bases, Group, Sort, Numbered;
    var grouped, bases := GroupCandidates(candidates);
    findings := [];
    for i := 0 to |bases|
      invariant findings == NumberedGroups(bases[..i], candidates)
    {
      assert bases[..i + 1][..i] == bases[..i];
      var numbered := NumberGroup(Sort(BoundsLe, grouped[bases[i]]), bases[i]);
      findings := findings + numbered;
    }
    assert bases[..|bases|] == bases;
  }

  // ----- fingerprints encode the multiset of bases -----

  function BasesOf(cs: seq<Candidate>): seq<string> {
    seq(|cs|, i requires 0 <= i < |cs| => cs[i].base)
  }

  ghost function Encoded(m: multiset<string>): set<string> {
    set b, n | b in m && 1 <= n <= m[b] :: Occurrence(b, n)
  }

  ghost function Fingerprints(findings: seq<Finding>): set<string> {
    set f | f in findings :: f.fingerprint
  }

  lemma OccurrenceTail(base: string, n: nat)
    ensures var s, k := Occurrence(base, n), |Digits(n)|;
            && |s| > k && s[|s| - k..] == Digits(n) && s[|s| - k - 1] == '='
            && (forall i | |s| - k <= i < |s| :: IsDigit(s[i]))
  {
  }

  lemma OccurrenceInjective(a: string, m: nat, b: string, n: nat)
    requires Occurrence(a, m) == Occurrence(b, n)
    ensures a == b && m == n
  {
    var s, j, k := Occurrence(a, m), |Digits(m)|, |Digits(n)|;
    OccurrenceTail(a, m);
    OccurrenceTail(b, n);
    assert !IsDigit('=');
    assert j == k;
    DigitsInjective(m, n);
    assert s[..|a|] == a && s[..|b|] == b;
  }

  lemma {:induction false} GroupSize(cs: seq<Candidate>, base: string)
    ensures |Group(cs, base)| == multiset(BasesOf(cs))[base]
  {
    if cs == [] {
    } else {
      var init := cs[..|cs| - 1];
      GroupSize(init, base);
      assert BasesOf(cs) == BasesOf(init) + [cs[|cs| - 1].base];
    }
  }

  lemma {:induction false} BasesExact(cs: seq<Candidate>)
    ensures NoRepeats(Bases(cs)) && forall b :: b in Bases(cs) <==> b in multiset(BasesOf(cs))
  {
    if cs == [] {
    } else {
      var init := cs[..|cs| - 1];
      BasesExact(init);
      assert BasesOf(cs) == BasesOf(init) + [cs[|cs| - 1].base];
    }
  }

  lemma SortedGroupSize(cs: seq<Candidate>, base: string)
    ensures |SortedGroup(cs, base)| == multiset(BasesOf(cs))[base]
  {
    SortPermutes(BoundsLe, Group(cs, base));
    GroupSize(cs, base);
  }

  /** `f` is the finding of the i-th member of the sorted group of `base`. */
  predicate IsNumbered(cs: seq<Candidate>, base: string, i: int, f: Finding) {
    0 <= i < |SortedGroup(cs, base)| && f == FindingOf(SortedGroup(cs, base)[i], base, i + 1)
  }

  lemma {:induction false} NumberedGroupsExact(bases: seq<string>, cs: seq<Candidate>, f: Finding)
    ensures f in NumberedGroups(bases, cs) <==> exists b, i :: b in bases && IsNumbered(cs, b, i, f)
  {
    hide SortedGroup, FindingOf;
    if bases == [] {
    } else {
      var init, last := bases[..|bases| - 1], bases[|bases| - 1];
      NumberedGroupsExact(init, cs, f);
      assert bases == init + [last];
      var numbered := Numbered(SortedGroup(cs, last), last);
      if f in numbered {
        var i :| 0 <= i < |numbered| && numbered[i] == f;
        assert IsNumbered(cs, last, i, f);
      }
      if i :| IsNumbered(cs, last, i, f) {
        assert numbered[i] == f;
      }
    }
  }

  /** All findings have distinct fingerprints. */
  lemma {:induction false} NumberedGroupsDistinct(bases: seq<string>, cs: seq<Candidate>)
    requires NoRepeats(bases)
    ensures forall p, q | 0 <= p < q < |NumberedGroups(bases, cs)| ::
              NumberedGroups(bases, cs)[p].fingerprint != NumberedGroups(bases, cs)[q].fingerprint
  {
    hide SortedGroup, Occurrence;
    if bases == [] {
    } else {
      var init, last := bases[..|bases| - 1], bases[|bases| - 1];
      var before, numbered := NumberedGroups(init, cs), Numbered(SortedGroup(cs, last), last);
      NumberedGroupsDistinct(init, cs);
      forall p, q | 0 <= p < |before| && 0 <= q < |numbered|
        ensures before[p].fingerprint != numbered[q].fingerprint
      {
        NumberedGroupsExact(init, cs, before[p]);
        assert before[p] in before;
        var b, i :| b in init && IsNumbered(cs, b, i, before[p]);
        if before[p].fingerprint == numbered[q].fingerprint {
          OccurrenceInjective(b, i + 1, last, q + 1);
        }
      }
      forall p, q | 0 <= p < q < |numbered|
        ensures numbered[p].fingerprint != numbered[q].fingerprint
      {
        if numbered[p].fingerprint == numbered[q].fingerprint {
          OccurrenceInjective(last, p + 1, last, q + 1);
        }
      }
    }
  }

  /**
   The findings' fingerprints are pairwise distinct and are exactly the occurrences of the multiset of
   base fingerprints, so `run_gate` never sees a duplicate.
   */
  lemma FingerprintsEncode(cs: seq<Candidate>)
    ensures Fingerprints(Findings(cs)) == Encoded(multiset(BasesOf(cs)))
    ensures forall p, q | 0 <= p < q < |Findings(cs)| :: Findings(cs)[p].fingerprint != Findings(cs)[q].fingerprint
  {
    var bases, all := Bases(cs), NumberedGroups(Bases(cs), cs);
    BasesExact(cs);
    NumberedGroupsDistinct(bases, cs);
    SortPermutes(FingerprintLe, all);
    SortedFingerprints(all);
    forall x
      ensures x in Fingerprints(all) <==> x in Encoded(multiset(BasesOf(cs)))
    {
      hide *;
      if x in Fingerprints(all) {
        NumberedIsEncoded(cs, x);
      }
      if x in Encoded(multiset(BasesOf(cs))) {
        EncodedIsNumbered(cs, x);
      }
    }
    hide *;
    SameFingerprints(Findings(cs), all, Encoded(multiset(BasesOf(cs))));
  }

  lemma SameFingerprints(sorted: seq<Finding>, all: seq<Finding>, encoded: set<string>)
    requires forall f :: f in sorted <==> f in all
    requires forall x :: x in Fingerprints(all) <==> x in encoded
    ensures Fingerprints(sorted) == encoded
  {
  }

  lemma NumberedIsEncoded(cs: seq<Candidate>, x: string)
    requires x in Fingerprints(NumberedGroups(Bases(cs), cs))
    ensures x in Encoded(multiset(BasesOf(cs)))
  {
    hide SortedGroup, Occurrence, BasesOf, Bases, NumberedGroups;
    var f :| f in NumberedGroups(Bases(cs), cs) && f.fingerprint == x;
    NumberedGroupsExact(Bases(cs), cs, f);
    var b, i :| b in Bases(cs) && IsNumbered(cs, b, i, f);
    SortedGroupSize(cs, b);
  }

  lemma EncodedIsNumbered(cs: seq<Candidate>, x: string)
    requires x in Encoded(multiset(BasesOf(cs)))
    ensures x in Fingerprints(NumberedGroups(Bases(cs), cs))
  {
    hide SortedGroup, Occurrence, BasesOf, Bases, NumberedGroups;
    var m := multiset(BasesOf(cs));
    var b, n :| b in m && 1 <= n <= m[b] && x == Occurrence(b, n);
    SortedGroupSize(cs, b);
    var f := FindingOf(SortedGroup(cs, b)[n - 1], b, n);
    assert IsNumbered(cs, b, n - 1, f);
    BasesExact(cs);
    NumberedGroupsExact(Bases(cs), cs, f);
  }

  lemma SortedFingerprints(all: seq<Finding>)
    requires forall p, q | 0 <= p < q < |all| :: all[p].fingerprint != all[q].fingerprint
    ensures var r := Sort(FingerprintLe, all);
            && (forall f :: f in r <==> f in all)
            && (forall p, q | 0 <= p < q < |r| :: r[p].fingerprint != r[q].fingerprint)
  {
    var r := Sort(FingerprintLe, all);
    SortPermutes(FingerprintLe, all);
    SortKeepsDistinct(FingerprintLe, all);
    forall f
      ensures f in r <==> f in all
    {
      assert f in r <==> f in multiset(r);
      assert f in all <==> f in multiset(all);
    }
    forall p, q | 0 <= p < q < |r|
      ensures r[p].fingerprint != r[q].fingerprint
    {
      assert r[p] in r && r[q] in r && r[p] != r[q];
      var i, j :| 0 <= i < |all| && 0 <= j < |all| && all[i] == r[p] && all[j] == r[q];
      assert i != j;
    }
  }

  // ----- what the fingerprint set does and does not depend on -----

  /** The encoding loses nothing. */
  lemma EncodedInjective(m: multiset<string>, n: multiset<string>)
    ensures Encoded(m) == Encoded(n) <==> m == n
  {
    if Encoded(m) == Encoded(n) {
      forall b
        ensures m[b] == n[b]
      {
        EncodedCount(m, b, n[b]);
        EncodedCount(n, b, m[b]);
      }
    }
  }

  lemma EncodedCount(m: multiset<string>, b: string, n: nat)
    ensures n >= 1 ==> (Occurrence(b, n) in Encoded(m) <==> n <= m[b])
  {
    if n >= 1 && Occurrence(b, n) in Encoded(m) {
      var c, k :| c in m && 1 <= k <= m[c] && Occurrence(b, n) == Occurrence(c, k);
      OccurrenceInjective(b, n, c, k);
    }
  }

  /** One more clone adds exactly one fingerprint (and so one fewer removes exactly one). */
  lemma EncodedOneMore(m: multiset<string>, b: string)
    ensures Encoded(m + multiset{b}) == Encoded(m) + {Occurrence(b, m[b] + 1)}
    ensures Occurrence(b, m[b] + 1) !in Encoded(m)
  {
    var more := m + multiset{b};
    EncodedCount(m, b, m[b] + 1);
    forall x
      ensures x in Encoded(more) <==> x in Encoded(m) || x == Occurrence(b, m[b] + 1)
    {
      if x in Encoded(more) {
        var c, n :| c in more && 1 <= n <= more[c] && x == Occurrence(c, n);
        if c != b || n <= m[b] {
          assert c in m && n <= m[c];
        }
      }
      if x in Encoded(m) {
        var c, n :| c in m && 1 <= n <= m[c] && x == Occurrence(c, n);
        assert c in more && n <= more[c];
      }
      assert b in more && more[b] == m[b] + 1;
    }
  }

  /** A clone as jscpd sees it: the two files in no order, and no line numbers. */
  datatype Clone = Clone(format: string, names: multiset<string>, fragment: string)

  function CloneOf(raw: RawDuplicate): Clone {
    Clone(raw.format, multiset{raw.first.name, raw.second.name}, raw.fragment)
  }

  function Clones(raws: seq<RawDuplicate>): seq<Clone> {
    seq(|raws|, i requires 0 <= i < |raws| => CloneOf(raws[i]))
  }

  /** Swapping the files of a clone or shifting its lines does not change its base fingerprint. */
  lemma BaseOfSameClone(scan: Scan, r: RawDuplicate, s: RawDuplicate)
    requires CandidateOf(scan, r).Ok? && CandidateOf(scan, s).Ok? && CloneOf(r) == CloneOf(s)
    ensures CandidateOf(scan, r).value.base == CandidateOf(scan, s).value.base
  {
    hide CanonicalPath, ScopedPath;
    var a, b := LocationOf(scan, r.first).value, LocationOf(scan, r.second).value;
    var c, d := LocationOf(scan, s.first).value, LocationOf(scan, s.second).value;
    assert r.first.name in CloneOf(s).names && r.second.name in CloneOf(s).names;
    if r.first.name == s.first.name {
      assert CloneOf(r).names - multiset{r.first.name} == multiset{r.second.name};
      assert CloneOf(s).names - multiset{r.first.name} == multiset{s.second.name};
      assert r.second.name in multiset{s.second.name};
      assert a.path == c.path && b.path == d.path;
    } else {
      assert CloneOf(r).names - multiset{r.first.name} == multiset{r.second.name};
      assert CloneOf(s).names - multiset{s.second.name} == multiset{s.first.name};
      assert r.second.name in multiset{s.first.name};
      assert a.path == d.path && b.path == c.path;
    }
    LexTotal(a.path, b.path);
    if LexLe(a.path, b.path) && LexLe(b.path, a.path) {
      LexAntisymmetric(a.path, b.path);
    }
  }

  ghost predicate Reports(scan: Scan, raw: RawDuplicate, clone: Clone) {
    CandidateOf(scan, raw).Ok? && CloneOf(raw) == clone
  }

  ghost function ReportOf(scan: Scan, clone: Clone): (raw: RawDuplicate)
    requires exists r :: Reports(scan, r, clone)
    ensures Reports(scan, raw, clone)
  {
    var r :| Reports(scan, r, clone);
    r
  }

  /** The base fingerprint of a clone, however it is reported. */
  ghost function BaseOfClone(scan: Scan, clone: Clone): string {
    if exists r :: Reports(scan, r, clone) then CandidateOf(scan, ReportOf(scan, clone)).value.base else ""
  }

  lemma BaseOfCloneExact(scan: Scan, raw: RawDuplicate)
    requires CandidateOf(scan, raw).Ok?
    ensures BaseOfClone(scan, CloneOf(raw)) == CandidateOf(scan, raw).value.base
  {
    hide CandidateOf, CloneOf, ReportOf;
    assert Reports(scan, raw, CloneOf(raw));
    BaseOfSameClone(scan, raw, ReportOf(scan, CloneOf(raw)));
  }

  lemma {:induction false} BasesOfClones(scan: Scan, raws: seq<RawDuplicate>)
    requires CandidatesOf(scan, raws).Ok?
    ensures BasesOf(CandidatesOf(scan, raws).value)
         == Mapped(Clones(raws), (c: Clone) => BaseOfClone(scan, c))
  {
    hide CandidateOf, BaseOfClone, CloneOf;
    if raws == [] {
    } else {
      var init, last := raws[..|raws| - 1], raws[|raws| - 1];
      BasesOfClones(scan, init);
      BaseOfCloneExact(scan, last);
      var before := CandidatesOf(scan, init).value;
      assert CandidatesOf(scan, raws).value == before + [CandidateOf(scan, last).value];
      assert BasesOf(CandidatesOf(scan, raws).value) == BasesOf(before) + [BaseOfClone(scan, CloneOf(last))];
      assert Clones(raws) == Clones(init) + [CloneOf(last)];
    }
  }

  /** The fingerprint set depends only on the multiset of clones: not on report order, file order or lines. */
  lemma FingerprintsInvariant(scan: Scan, raws: seq<RawDuplicate>, others: seq<RawDuplicate>)
    requires CandidatesOf(scan, raws).Ok? && CandidatesOf(scan, others).Ok?
    requires multiset(Clones(raws)) == multiset(Clones(others))
    ensures Fingerprints(Findings(CandidatesOf(scan, raws).value))
         == Fingerprints(Findings(CandidatesOf(scan, others).value))
  {
    hide Encoded, Findings, CandidatesOf;
    FingerprintsEncode(CandidatesOf(scan, raws).value);
    FingerprintsEncode(CandidatesOf(scan, others).value);
    BasesOfClones(scan, raws);
    BasesOfClones(scan, others);
    MappedPermutes(Clones(raws), Clones(others), (c: Clone) => BaseOfClone(scan, c));
  }

  // ----- the gate -----

  datatype Verdict = Verdict(newFindings: seq<Finding>, resolved: set<string>) {
    predicate Passes() {
      newFindings == [] && resolved == {}
    }
  }

  /** The decision of `run_gate`; policy loading insists on zero allowed new findings. */
  method Decide(findings: seq<Finding>, baseline: set<string>) returns (r: Result<Verdict, ReportError>)
    ensures r.Err? <==> !DistinctFingerprints(findings)
    ensures r.Ok? ==> (r.value.Passes() <==> Fingerprints(findings) == baseline)
    ensures r.Ok? ==> forall f :: f in r.value.newFindings <==> f in findings && f.fingerprint !in baseline
    ensures r.Ok? ==> r.value.resolved == baseline - Fingerprints(findings)
  {
    var observed: map<string, Finding> := map[];
    var newFindings: seq<Finding> := [];
    for i := 0 to |findings|
      invariant observed.Keys == Fingerprints(findings[..i])
      invariant forall f :: f in newFindings <==> f in findings[..i] && f.fingerprint !in baseline
    {
      var f := findings[i];
      assert findings[..i + 1] == findings[..i] + [f];
      observed := observed[f.fingerprint := f];
      if f.fingerprint !in baseline {
        newFindings := newFindings + [f];
      }
    }
    assert findings[..|findings|] == findings;
    FingerprintCount(findings);
    assert |observed| == |observed.Keys|;
    if |observed| != |findings| {
      return Err(DuplicateFingerprints);
    }
    if newFindings == [] {
      assert Fingerprints(findings) <= baseline;
      assert baseline - Fingerprints(findings) == {} <==> Fingerprints(findings) == baseline by {
        if baseline - Fingerprints(findings) == {} {
          assert forall x | x in baseline :: x !in baseline - Fingerprints(findings);
        }
      }
    } else {
      assert newFindings[0] in newFindings;
      assert newFindings[0].fingerprint in Fingerprints(findings);
    }
    r := Ok(Verdict(newFindings, baseline - observed.Keys));
  }

  predicate DistinctFingerprints(findings: seq<Finding>) {
    forall p, q | 0 <= p < q < |findings| :: findings[p].fingerprint != findings[q].fingerprint
  }

  lemma DistinctAppend(init: seq<Finding>, last: Finding)
    ensures DistinctFingerprints(init + [last]) <==>
            DistinctFingerprints(init) && last.fingerprint !in Fingerprints(init)
    ensures Fingerprints(init + [last]) == Fingerprints(init) + {last.fingerprint}
  {
    var all := init + [last];
    if DistinctFingerprints(all) {
      assert forall p, q | 0 <= p < q < |init| :: all[p] == init[p] && all[q] == init[q];
      forall f | f in init
        ensures f.fingerprint != last.fingerprint
      {
        var p :| 0 <= p < |init| && init[p] == f;
        assert all[p] == f && all[|init|] == last;
      }
    }
    if DistinctFingerprints(init) && last.fingerprint !in Fingerprints(init) {
      forall p, q | 0 <= p < q < |all|
        ensures all[p].fingerprint != all[q].fingerprint
      {
        assert all[p] == init[p] && init[p] in init;
      }
    }
  }

  lemma {:induction false} FingerprintCount(findings: seq<Finding>)
    ensures |Fingerprints(findings)| <= |findings|
    ensures |Fingerprints(findings)| == |findings| <==> DistinctFingerprints(findings)
  {
    if findings == [] {
    } else {
      var init, last := findings[..|findings| - 1], findings[|findings| - 1];
      assert findings == init + [last];
      FingerprintCount(init);
      DistinctAppend(init, last);
      hide Fingerprints, DistinctFingerprints;
      var before := Fingerprints(init);
      if last.fingerprint in before {
        assert before + {last.fingerprint} == before;
      } else {
        assert |before + {last.fingerprint}| == |before| + 1;
      }
    }
  }

  // ----- when the findings themselves do not depend on report order -----

  ghost predicate Permutes(cs: seq<Candidate>, ds: seq<Candidate>) {
    multiset(cs) == multiset(ds)
  }

  /** Clones of one base with the same line bounds are identical records. */
  ghost predicate TiesIdentical(cs: seq<Candidate>) {
    forall c, d | c in cs && d in cs && c.base == d.base && SameBounds(c, d) :: c == d
  }

  lemma {:induction false} GroupMultiset(cs: seq<Candidate>, base: string, c: Candidate)
    ensures multiset(Group(cs, base))[c] == if c.base == base then multiset(cs)[c] else 0
  {
    if cs == [] {
    } else {
      var init, last := cs[..|cs| - 1], cs[|cs| - 1];
      GroupMultiset(init, base, c);
      assert cs == init + [last];
    }
  }

  lemma BoundsIsTotalPreorder()
    ensures TotalPreorder(BoundsLe)
  {
  }

  lemma FingerprintIsTotalPreorder()
    ensures TotalPreorder(FingerprintLe)
  {
    LexIsTotalPreorder();
    forall x: Finding, y: Finding
      ensures FingerprintLe(x, y) || FingerprintLe(y, x)
    {
      assert LexLe(x.fingerprint, y.fingerprint) || LexLe(y.fingerprint, x.fingerprint);
    }
    forall x: Finding, y: Finding, z: Finding | FingerprintLe(x, y) && FingerprintLe(y, z)
      ensures FingerprintLe(x, z)
    {
      LexTransitive(x.fingerprint, y.fingerprint, z.fingerprint);
    }
  }

  lemma GroupPermutes(cs: seq<Candidate>, ds: seq<Candidate>, base: string)
    requires Permutes(cs, ds)
    ensures multiset(Group(cs, base)) == multiset(Group(ds, base))
  {
    forall c
      ensures multiset(Group(cs, base))[c] == multiset(Group(ds, base))[c]
    {
      GroupMultiset(cs, base, c);
      GroupMultiset(ds, base, c);
    }
  }

  lemma SortedGroupMember(cs: seq<Candidate>, base: string, c: Candidate)
    ensures c in SortedGroup(cs, base) <==> c in cs && c.base == base
  {
    var g := Group(cs, base);
    SortPermutes(BoundsLe, g);
    GroupMultiset(cs, base, c);
    assert c in Sort(BoundsLe, g) <==> c in multiset(Sort(BoundsLe, g));
    assert c in cs <==> c in multiset(cs);
  }

  lemma SortedGroupStable(cs: seq<Candidate>, ds: seq<Candidate>, base: string)
    requires TiesIdentical(cs) && Permutes(cs, ds)
    ensures SortedGroup(cs, base) == SortedGroup(ds, base)
  {
    var g, h := Group(cs, base), Group(ds, base);
    GroupPermutes(cs, ds, base);
    BoundsIsTotalPreorder();
    SortSorted(BoundsLe, g);
    SortSorted(BoundsLe, h);
    SortPermutes(BoundsLe, g);
    SortPermutes(BoundsLe, h);
    var r := Sort(BoundsLe, g);
    forall x, y | x in r && y in r && BoundsLe(x, y) && BoundsLe(y, x)
      ensures x == y
    {
      SortedGroupMember(cs, base, x);
      SortedGroupMember(cs, base, y);
      assert SameBounds(x, y);
    }
    hide BoundsLe, Group, Sort;
    SortedUnique(BoundsLe, r, Sort(BoundsLe, h));
  }

  lemma FindingsStable(cs: seq<Candidate>, ds: seq<Candidate>)
    requires TiesIdentical(cs) && Permutes(cs, ds)
    ensures Findings(cs) == Findings(ds)
  {
    hide Sort, Group, Bases;
    var all, others := NumberedGroups(Bases(cs), cs), NumberedGroups(Bases(ds), ds);
    BasesExact(cs);
    BasesExact(ds);
    SameBases(cs, ds);
    NumberedGroupsDistinct(Bases(cs), cs);
    NumberedGroupsDistinct(Bases(ds), ds);
    forall f
      ensures f in all <==> f in others
    {
      NumberedGroupsExact(Bases(cs), cs, f);
      NumberedGroupsExact(Bases(ds), ds, f);
      forall b, i
        ensures IsNumbered(cs, b, i, f) == IsNumbered(ds, b, i, f)
      {
        SortedGroupStable(cs, ds, b);
      }
    }
    FingerprintOrderUnique(all, others);
  }

  lemma SameBases(cs: seq<Candidate>, ds: seq<Candidate>)
    requires Permutes(cs, ds)
    ensures multiset(BasesOf(cs)) == multiset(BasesOf(ds))
  {
    var base := (c: Candidate) => c.base;
    MappedPermutes(cs, ds, base);
    assert BasesOf(cs) == Mapped(cs, base);
    assert BasesOf(ds) == Mapped(ds, base);
  }

  lemma FingerprintOrderUnique(all: seq<Finding>, others: seq<Finding>)
    requires forall p, q | 0 <= p < q < |all| :: all[p].fingerprint != all[q].fingerprint
    requires forall p, q | 0 <= p < q < |others| :: others[p].fingerprint != others[q].fingerprint
    requires forall f :: f in all <==> f in others
    ensures Sort(FingerprintLe, all) == Sort(FingerprintLe, others)
  {
    FingerprintIsTotalPreorder();
    NoRepeatsPermute(all, others);
    SortSorted(FingerprintLe, all);
    SortSorted(FingerprintLe, others);
    SortPermutes(FingerprintLe, all);
    SortPermutes(FingerprintLe, others);
    SortedFingerprints(all);
    var r := Sort(FingerprintLe, all);
    forall x, y | x in r && y in r && FingerprintLe(x, y) && FingerprintLe(y, x)
      ensures x == y
    {
      LexAntisymmetric(x.fingerprint, y.fingerprint);
      var p, q :| 0 <= p < |r| && 0 <= q < |r| && r[p] == x && r[q] == y;
    }
    SortedUnique(FingerprintLe, r, Sort(FingerprintLe, others));
  }

  // ----- and when they do: exchanging two tied clones changes the findings -----

  /** The members of `cs` with the base and the bounds of `c`, in report order. */
  function Tied(cs: seq<Candidate>, c: Candidate): seq<Candidate> {
    if cs == [] then []
    else
      var last := cs[|cs| - 1];
      Tied(cs[..|cs| - 1], c) + if last.base == c.base && SameBounds(last, c) then [last] else []
  }

  lemma {:induction false} TiedAppend(a: seq<Candidate>, b: seq<Candidate>, c: Candidate)
    ensures Tied(a + b, c) == Tied(a, c) + Tied(b, c)
  {
    if b == [] {
      assert a + b == a;
    } else {
      var all := a + b;
      assert all[..|all| - 1] == a + b[..|b| - 1];
      TiedAppend(a, b[..|b| - 1], c);
    }
  }

  lemma {:induction false} TiedGroup(cs: seq<Candidate>, c: Candidate)
    ensures Tied(Group(cs, c.base), c) == Tied(cs, c)
  {
    if cs == [] {
    } else {
      var init, last := cs[..|cs| - 1], cs[|cs| - 1];
      TiedGroup(init, c);
      if last.base == c.base {
        TiedAppend(Group(init, c.base), [last], c);
        TiedOne(last, c);
      } else {
        assert Group(init, c.base) + [] == Group(init, c.base);
      }
    }
  }

  lemma TiedOne(last: Candidate, c: Candidate)
    ensures Tied([last], c) == if last.base == c.base && SameBounds(last, c) then [last] else []
  {
  }

  /** Members in strict order are not both tied to `c`. */
  lemma TiedSwap(x: Candidate, y: Candidate, c: Candidate)
    requires !BoundsLe(x, y)
    ensures Tied([x], c) + Tied([y], c) == Tied([y], c) + Tied([x], c)
  {
  }

  /** Sorting is stable. */
  lemma {:induction false} TiedInsert(x: Candidate, s: seq<Candidate>, c: Candidate)
    ensures Tied(Insert(BoundsLe, x, s), c) == Tied([x] + s, c)
  {
    if s != [] && !BoundsLe(x, s[0]) {
      TiedSwap(x, s[0], c);
      var rest := Insert(BoundsLe, x, s[1..]);
      assert Insert(BoundsLe, x, s) == [s[0]] + rest;
      TiedInsert(x, s[1..], c);
      TiedExchange(x, s[0], s[1..], rest, c);
      assert s == [s[0]] + s[1..];
    }
  }

  lemma TiedExchange(x: Candidate, y: Candidate, s: seq<Candidate>, r: seq<Candidate>, c: Candidate)
    requires Tied([x], c) + Tied([y], c) == Tied([y], c) + Tied([x], c) && Tied(r, c) == Tied([x] + s, c)
    ensures Tied([y] + r, c) == Tied([x] + ([y] + s), c)
  {
    hide BoundsLe, Tied, SameBounds;
    TiedAppend([y], r, c);
    TiedAppend([x], s, c);
    TiedAppend([x], [y] + s, c);
    TiedAppend([y], s, c);
    var tx, ty, ts := Tied([x], c), Tied([y], c), Tied(s, c);
    assert ty + (tx + ts) == (ty + tx) + ts && tx + (ty + ts) == (tx + ty) + ts;
  }

  lemma {:induction false} TiedSort(s: seq<Candidate>, c: Candidate)
    ensures Tied(Sort(BoundsLe, s), c) == Tied(s, c)
  {
    if s == [] {
    } else {
      TiedSort(s[1..], c);
      TiedInsert(s[0], Sort(BoundsLe, s[1..]), c);
      TiedAppend([s[0]], Sort(BoundsLe, s[1..]), c);
      TiedAppend([s[0]], s[1..], c);
      assert s == [s[0]] + s[1..];
    }
  }

  function Exchanged(cs: seq<Candidate>, i: nat, j: nat): seq<Candidate>
    requires i < j < |cs|
  {
    cs[i := cs[j]][j := cs[i]]
  }

  /** Exchanging two different tied clones exchanges them in the sorted group as well. */
  lemma ExchangeShows(cs: seq<Candidate>, i: nat, j: nat)
    requires i < j < |cs| && cs[i] != cs[j] && cs[i].base == cs[j].base && SameBounds(cs[i], cs[j])
    ensures Permutes(cs, Exchanged(cs, i, j))
    ensures SortedGroup(cs, cs[i].base) != SortedGroup(Exchanged(cs, i, j), cs[i].base)
  {
    var ds, c := Exchanged(cs, i, j), cs[i];
    TiedPlace(cs, i, c);
    TiedPlace(ds, i, c);
    assert ds[..i] == cs[..i];
    TiedGroup(cs, c);
    TiedGroup(ds, c);
    TiedSort(Group(cs, c.base), c);
    TiedSort(Group(ds, c.base), c);
  }

  /** A tied member stands right after the tied members before it. */
  lemma TiedPlace(cs: seq<Candidate>, i: nat, c: Candidate)
    requires i < |cs| && cs[i].base == c.base && SameBounds(cs[i], c)
    ensures var k := |Tied(cs[..i], c)|; k < |Tied(cs, c)| && Tied(cs, c)[k] == cs[i]
  {
    assert cs == (cs[..i] + [cs[i]]) + cs[i + 1..];
    TiedAppend(cs[..i] + [cs[i]], cs[i + 1..], c);
    TiedAppend(cs[..i], [cs[i]], c);
    TiedOne(cs[i], c);
  }

  /** The findings determine every sorted group. */
  lemma FindingsDetermineGroups(cs: seq<Candidate>, ds: seq<Candidate>, base: string)
    requires Findings(cs) == Findings(ds) && Permutes(cs, ds)
    ensures SortedGroup(cs, base) == SortedGroup(ds, base)
  {
    var g, h := SortedGroup(cs, base), SortedGroup(ds, base);
    SortedGroupSize(cs, base);
    SortedGroupSize(ds, base);
    SameBases(cs, ds);
    forall i | 0 <= i < |g|
      ensures g[i] == h[i]
    {
      var f := FindingOf(g[i], base, i + 1);
      assert IsNumbered(cs, base, i, f);
      assert g[i] in g;
      SortedGroupMember(cs, base, g[i]);
      FindingInGroups(cs, base, i, f);
      FindingInGroups(ds, base, i, f);
      SortedGroupMember(ds, base, h[i]);
      assert h[i] in h;
    }
  }

  /** The finding with the (i + 1)-th fingerprint of `base` is that of the i-th member of its sorted group. */
  lemma FindingInGroups(cs: seq<Candidate>, base: string, i: nat, f: Finding)
    requires i < |SortedGroup(cs, base)| && f.fingerprint == Occurrence(base, i + 1)
    ensures f in Findings(cs) <==> IsNumbered(cs, base, i, f)
  {
    hide SortedGroup, Bases, NumberedGroups, Occurrence;
    var all := NumberedGroups(Bases(cs), cs);
    SortPermutes(FingerprintLe, all);
    assert f in Findings(cs) <==> f in all by {
      assert f in Findings(cs) <==> f in multiset(Findings(cs));
    }
    NumberedGroupsExact(Bases(cs), cs, f);
    if f in all {
      var b, k :| b in Bases(cs) && IsNumbered(cs, b, k, f);
      OccurrenceInjective(base, i + 1, b, k + 1);
    }
    if IsNumbered(cs, base, i, f) {
      BaseOfMember(cs, base, i);
    }
  }

  lemma BaseOfMember(cs: seq<Candidate>, base: string, i: nat)
    requires i < |SortedGroup(cs, base)|
    ensures base in Bases(cs)
  {
    SortedGroupSize(cs, base);
    BasesExact(cs);
  }

  /** The findings are the same for every order of the report exactly when tied clones are identical. */
  lemma OrderIrrelevantIff(cs: seq<Candidate>)
    ensures (forall ds | Permutes(cs, ds) :: Findings(ds) == Findings(cs)) <==> TiesIdentical(cs)
  {
    if TiesIdentical(cs) {
      forall ds | Permutes(cs, ds)
        ensures Findings(ds) == Findings(cs)
      {
        FindingsStable(cs, ds);
      }
    } else {
      var c, d :| c in cs && d in cs && c.base == d.base && SameBounds(c, d) && c != d;
      var i :| 0 <= i < |cs| && cs[i] == c;
      var j :| 0 <= j < |cs| && cs[j] == d;
      var lo, hi := if i < j then i else j, if i < j then j else i;
      ExchangeShows(cs, lo, hi);
      var ds := Exchanged(cs, lo, hi);
      if Findings(ds) == Findings(cs) {
        FindingsDetermineGroups(cs, ds, cs[lo].base);
      }
    }
  }
}
