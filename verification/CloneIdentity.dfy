/** Which clones scripts/duplicate_code_gate.py takes for the same one, and what its findings say of them. */
module CloneIdentity {
  import opened Wrappers
  import opened Text
  import opened Sorting
  import opened DuplicateCode

  // ----- the path of a location -----

  /** `path` is what is left of `name`: slashes for backslashes, and no "./" in front. */
  ghost predicate Relative(name: string, path: string) {
    exists slashed: string ::
      && Slashed(name, slashed)
      && !("/" <= slashed)
      && (forall i | 0 <= i < |slashed| - 1 :: slashed[i] == ':' ==> slashed[i + 1] != '/')
      && (slashed == "./" + path || (slashed == path && !("./" <= path)))
  }

  /** A name is canonical path `path` exactly when it is not blank, is relative, and reads as `path`. */
  lemma CanonicalExact(name: string, path: string)
    ensures CanonicalPath(name) == Ok(path) <==> (exists i | 0 <= i < |name| :: !IsSpace(name[i])) && Relative(name, path)
  {
    hide Strip, IsSpace;
    var slashed := Replace(name, '\\', '/');
    BlankIff(name);
    SlashedIff(name, slashed);
    assert forall other | Slashed(name, other) :: other == slashed by {
      forall other | Slashed(name, other)
        ensures other == slashed
      {
        SlashedIff(name, other);
      }
    }
    if StartsWith(slashed, "./") {
      assert slashed == "./" + slashed[2..];
      assert slashed == "./" + path ==> slashed[2..] == path;
    }
  }

  /** The path lies in a scan path, or is one. */
  predicate InScope(scan: Scan, path: string) {
    exists i | 0 <= i < |scan.scanPaths| :: path == scan.scanPaths[i] || scan.scanPaths[i] + "/" <= path
  }

  /** The i-th scan path has a file of this name. */
  predicate FoundIn(scopes: seq<string>, path: string, isFile: string -> bool, i: nat) {
    i < |scopes| && isFile(scopes[i] + "/" + path)
  }

  lemma FoundShift(scopes: seq<string>, path: string, isFile: string -> bool)
    requires scopes != []
    ensures forall i: nat :: FoundIn(scopes[1..], path, isFile, i) <==> FoundIn(scopes, path, isFile, i + 1)
    ensures forall i: nat | i > 0 :: FoundIn(scopes, path, isFile, i) <==> FoundIn(scopes[1..], path, isFile, i - 1)
  {
  }

  /** Some scan path has the file. */
  ghost predicate FoundOnce(scopes: seq<string>, path: string, isFile: string -> bool) {
    exists i: nat :: FoundIn(scopes, path, isFile, i)
  }

  /** Two entries of the scan paths have it. */
  ghost predicate FoundTwice(scopes: seq<string>, path: string, isFile: string -> bool) {
    exists i: nat, j: nat :: i < j && FoundIn(scopes, path, isFile, i) && FoundIn(scopes, path, isFile, j)
  }

  lemma {:induction false} MatchesExact(scopes: seq<string>, path: string, isFile: string -> bool)
    ensures Matches(scopes, path, isFile) != [] <==> FoundOnce(scopes, path, isFile)
    ensures |Matches(scopes, path, isFile)| > 1 <==> FoundTwice(scopes, path, isFile)
    ensures Matches(scopes, path, isFile) != [] ==>
              exists i: nat :: FoundIn(scopes, path, isFile, i) && Matches(scopes, path, isFile)[0] == scopes[i] + "/" + path
  {
    if scopes == [] {
      assert Matches(scopes, path, isFile) == [];
    } else {
      var rest := scopes[1..];
      MatchesExact(rest, path, isFile);
      FoundShift(scopes, path, isFile);
      assert FoundOnce(scopes, path, isFile) <==> FoundIn(scopes, path, isFile, 0) || FoundOnce(rest, path, isFile);
      assert FoundTwice(scopes, path, isFile)
        <==> (FoundIn(scopes, path, isFile, 0) && FoundOnce(rest, path, isFile)) || FoundTwice(rest, path, isFile) by {
        if i: nat, j: nat :| i < j && FoundIn(rest, path, isFile, i) && FoundIn(rest, path, isFile, j) {
          assert FoundIn(scopes, path, isFile, i + 1) && FoundIn(scopes, path, isFile, j + 1);
        }
        if i: nat, j: nat :| i < j && FoundIn(scopes, path, isFile, i) && FoundIn(scopes, path, isFile, j) {
          assert FoundIn(rest, path, isFile, j - 1);
          assert i > 0 ==> FoundIn(rest, path, isFile, i - 1);
        }
      }
      if FoundIn(scopes, path, isFile, 0) {
        assert Matches(scopes, path, isFile)[0] == scopes[0] + "/" + path;
      } else if i: nat :| FoundIn(rest, path, isFile, i) && Matches(rest, path, isFile)[0] == rest[i] + "/" + path {
        assert FoundIn(scopes, path, isFile, i + 1) && rest[i] == scopes[i + 1];
      }
    }
  }

  /** What a canonical path stands for: itself, or the one scan path that has such a file. */
  ghost predicate Scoped(scan: Scan, path: string, scoped: string) {
    match scan.isFile
    case None => scoped == path
    case Some(isFile) =>
      if InScope(scan, path) || !FoundOnce(scan.scanPaths, path, isFile) then scoped == path
      else
        && !FoundTwice(scan.scanPaths, path, isFile)
        && exists i: nat :: FoundIn(scan.scanPaths, path, isFile, i) && scoped == scan.scanPaths[i] + "/" + path
  }

  lemma ScopedExact(scan: Scan, path: string, scoped: string)
    ensures ScopedPath(scan, path) == Ok(scoped) <==> Scoped(scan, path, scoped)
  {
    if scan.isFile.Some? {
      var isFile := scan.isFile.value;
      MatchesExact(scan.scanPaths, path, isFile);
      if !FoundTwice(scan.scanPaths, path, isFile) {
        assert forall i: nat, j: nat | FoundIn(scan.scanPaths, path, isFile, i) && FoundIn(scan.scanPaths, path, isFile, j) ::
            i == j by {
          forall i: nat, j: nat | FoundIn(scan.scanPaths, path, isFile, i) && FoundIn(scan.scanPaths, path, isFile, j)
            ensures i == j
          {
            assert i < j ==> FoundTwice(scan.scanPaths, path, isFile);
            assert j < i ==> FoundTwice(scan.scanPaths, path, isFile);
          }
        }
      }
    }
  }

  /** The repository path that a report's name stands for. */
  ghost predicate Stands(scan: Scan, name: string, path: string) {
    && (exists i | 0 <= i < |name| :: !IsSpace(name[i]))
    && exists relative: string :: Relative(name, relative) && Scoped(scan, relative, path)
  }

  /** A location is read exactly when its name stands for a path and its bounds are in order. */
  lemma LocationExact(scan: Scan, raw: RawLocation, location: Location)
    ensures LocationOf(scan, raw) == Ok(location)
       <==> && Stands(scan, raw.name, location.path)
            && location.start == raw.start && location.end == raw.end && 1 <= raw.start <= raw.end
  {
    hide CanonicalPath, ScopedPath, Relative, Scoped, IsSpace;
    forall relative: string
      ensures CanonicalPath(raw.name) == Ok(relative)
         <==> (exists i | 0 <= i < |raw.name| :: !IsSpace(raw.name[i])) && Relative(raw.name, relative)
    {
      CanonicalExact(raw.name, relative);
    }
    if CanonicalPath(raw.name).Ok? {
      ScopedExact(scan, CanonicalPath(raw.name).value, location.path);
      assert Relative(raw.name, CanonicalPath(raw.name).value);
    }
  }

  // ----- the lines of a fragment -----

  /** A line without the carriage return before its line feed. */
  function Chop(line: string): string {
    if line != "" && line[|line| - 1] == '\r' then line[..|line| - 1] else line
  }

  /** The lines of a fragment: what its line feeds separate, each but the last without a final carriage return. */
  function FragmentLines(fragment: string): seq<string> {
    var pieces := Split(fragment, '\n');
    seq(|pieces|, i requires 0 <= i < |pieces| => if i < |pieces| - 1 then Chop(pieces[i]) else pieces[i])
  }

  lemma {:induction false} UnixLastLine(s: string)
    requires '\n' !in s
    ensures UnixNewlines(s) == s
  {
    if |s| >= 2 {
      assert '\n' !in s[1..];
      assert s[1] in s;
      UnixLastLine(s[1..]);
    }
  }

  lemma {:induction false} UnixFirstLine(line: string, rest: string)
    requires '\n' !in line
    ensures UnixNewlines(line + "\n" + rest) == Chop(line) + "\n" + UnixNewlines(rest)
  {
    var s := line + "\n" + rest;
    if line == "" {
      assert s[1..] == rest;
    } else if line == "\r" {
      assert s[2..] == rest;
    } else {
      assert line[0] in line;
      assert s[1..] == line[1..] + "\n" + rest;
      KeepsFirst(line, rest);
      hide UnixNewlines, Chop;
      UnixFirstLine(line[1..], rest);
      ChopTail(line);
      assert [line[0]] + (Chop(line[1..]) + "\n" + UnixNewlines(rest)) == [line[0]] + Chop(line[1..]) + "\n" + UnixNewlines(rest);
    }
  }

  /** A character of a line is kept unless it is the carriage return at its end. */
  lemma KeepsFirst(line: string, rest: string)
    requires '\n' !in line && line != "" && line != "\r"
    ensures var s := line + "\n" + rest; UnixNewlines(s) == [s[0]] + UnixNewlines(s[1..])
  {
    var s := line + "\n" + rest;
    if |line| > 1 {
      assert line[1] in line && s[1] == line[1];
    } else {
      assert s[0] == line[0] && line == [line[0]];
    }
  }

  lemma ChopTail(line: string)
    requires line != "" && line != "\r"
    ensures Chop(line) == [line[0]] + Chop(line[1..])
  {
    if |line| == 1 {
      assert line == [line[0]];
    }
  }

  lemma OneLine(line: string)
    requires '\n' !in line
    ensures FragmentLines(line) == [line]
  {
    IndexOfAbsent(line, '\n');
  }

  lemma LinesMore(line: string, rest: string)
    requires '\n' !in line
    ensures FragmentLines(line + "\n" + rest) == [Chop(line)] + FragmentLines(rest)
    ensures FragmentLines(rest) != []
  {
    hide Split, Chop;
    SplitOnce(line, '\n', rest);
    assert line + "\n" + rest == line + ['\n'] + rest;
    assert Split(line + "\n" + rest, '\n')[1..] == Split(rest, '\n');
  }

  lemma ChopPlain(line: string)
    requires '\n' !in line
    ensures '\n' !in Chop(line)
  {
  }

  lemma JoinMore(head: string, rest: seq<string>)
    requires rest != []
    ensures Join([head] + rest, '\n') == head + "\n" + Join(rest, '\n')
  {
    assert ([head] + rest)[1..] == rest;
  }

  /** Reading "\r\n" as "\n" joins the lines of a fragment. */
  lemma {:induction false} UnixIsJoined(fragment: string)
    ensures FragmentLines(fragment) != [] && UnixNewlines(fragment) == Join(FragmentLines(fragment), '\n')
    ensures forall i | 0 <= i < |FragmentLines(fragment)| :: '\n' !in FragmentLines(fragment)[i]
    decreases |fragment|
  {
    hide *;
    var n := IndexOf(fragment, '\n');
    if n == |fragment| {
      assert fragment[..n] == fragment;
      UnixLastLine(fragment);
      OneLine(fragment);
      JoinOne(fragment);
    } else {
      var line, rest := fragment[..n], fragment[n + 1..];
      assert fragment == line + "\n" + rest;
      UnixFirstLine(line, rest);
      UnixIsJoined(rest);
      LinesMore(line, rest);
      ChopPlain(line);
      JoinMore(Chop(line), FragmentLines(rest));
    }
  }

  lemma JoinOne(line: string)
    ensures Join([line], '\n') == line
  {
  }

  lemma UnixEqualIff(a: string, b: string)
    ensures UnixNewlines(a) == UnixNewlines(b) <==> FragmentLines(a) == FragmentLines(b)
  {
    hide UnixNewlines, FragmentLines, Join, Split;
    UnixIsJoined(a);
    UnixIsJoined(b);
    SplitJoin(FragmentLines(a), '\n');
    SplitJoin(FragmentLines(b), '\n');
  }

  // ----- when two clones are the same -----

  /** What the gate remembers of a clone: its format, its two repository paths in no order, and the lines of its fragment. */
  datatype Identity = Identity(format: string, paths: multiset<string>, lines: seq<string>)

  /** The entry is read, and stands for this clone. */
  ghost predicate Identifies(scan: Scan, raw: RawDuplicate, id: Identity) {
    && CandidateOf(scan, raw).Ok?
    && id.format == raw.format
    && id.lines == FragmentLines(raw.fragment)
    && exists p: string, q: string ::
         Stands(scan, raw.first.name, p) && Stands(scan, raw.second.name, q) && id.paths == multiset{p, q}
  }

  ghost predicate InjectiveDigest(scan: Scan) {
    forall x, y | scan.digest(x) == scan.digest(y) :: x == y
  }

  /** Neither the format nor a path has the character that separates them. */
  ghost predicate Separable(id: Identity) {
    '|' !in id.format && forall p | p in id.paths :: '|' !in p
  }

  /** The clone that an entry stands for, from its locations. */
  lemma IdentityExact(scan: Scan, raw: RawDuplicate, id: Identity)
    requires CandidateOf(scan, raw).Ok?
    ensures LocationOf(scan, raw.first).Ok? && LocationOf(scan, raw.second).Ok?
    ensures Identifies(scan, raw, id)
       <==> id == Identity(raw.format, multiset{LocationOf(scan, raw.first).value.path, LocationOf(scan, raw.second).value.path},
                           FragmentLines(raw.fragment))
  {
    hide LocationOf, FragmentLines, Stands;
    var first, second := LocationOf(scan, raw.first).value, LocationOf(scan, raw.second).value;
    LocationExact(scan, raw.first, first);
    LocationExact(scan, raw.second, second);
    forall p: string, q: string | Stands(scan, raw.first.name, p) && Stands(scan, raw.second.name, q)
      ensures p == first.path && q == second.path
    {
      LocationExact(scan, raw.first, first.(path := p));
      LocationExact(scan, raw.second, second.(path := q));
    }
  }

  /** The parts of a base fingerprint, the smaller path first. */
  lemma BaseParts(scan: Scan, raw: RawDuplicate, id: Identity) returns (p: string, q: string)
    requires Identifies(scan, raw, id)
    ensures id.paths == multiset{p, q} && LexLe(p, q)
    ensures CandidateOf(scan, raw).value.base
         == "jscpd.v1|" + (id.format + "|" + (p + "|" + (q + "|" + scan.digest(UnixNewlines(raw.fragment)))))
  {
    hide LocationOf, UnixNewlines, LexLe, Stands, FragmentLines;
    IdentityExact(scan, raw, id);
    var c := CandidateOf(scan, raw).value;
    p, q := c.left.path, c.right.path;
    LexTotal(p, q);
    var digest := scan.digest(UnixNewlines(raw.fragment));
    assert "jscpd.v1|" + id.format + "|" + p + "|" + q + "|" + digest
        == "jscpd.v1|" + (id.format + "|" + (p + "|" + (q + "|" + digest)));
  }

  lemma PipeSplits(a: string, x: string, b: string, y: string)
    requires '|' !in a && '|' !in b && a + "|" + x == b + "|" + y
    ensures a == b && x == y
  {
    IndexOfAppend(a, '|', x);
    IndexOfAppend(b, '|', y);
    assert (a + "|" + x)[|a| + 1..] == x && (b + "|" + y)[|b| + 1..] == y;
    assert (a + "|" + x)[..|a|] == a && (b + "|" + y)[..|b|] == b;
  }

  lemma SortedPair(p: string, q: string, r: string, s: string)
    requires LexLe(p, q) && LexLe(r, s) && multiset{p, q} == multiset{r, s}
    ensures p == r && q == s
  {
    hide LexLe;
    assert p in multiset{r, s} && q in multiset{r, s} && r in multiset{p, q};
    if p != r {
      assert p == s && r == q;
      LexAntisymmetric(p, q);
    }
    assert multiset{p, q} - multiset{p} == multiset{q} && multiset{r, s} - multiset{r} == multiset{s};
    assert q in multiset{s};
  }

  /** Entries have the same base fingerprint exactly when they stand for the same clone. */
  lemma BaseEqualIff(scan: Scan, raw: RawDuplicate, id: Identity, other: RawDuplicate, id': Identity)
    requires InjectiveDigest(scan) && Separable(id) && Separable(id')
    requires Identifies(scan, raw, id) && Identifies(scan, other, id')
    ensures CandidateOf(scan, raw).value.base == CandidateOf(scan, other).value.base <==> id == id'
  {
    hide CandidateOf, UnixNewlines, FragmentLines, LexLe, Stands;
    var p, q := BaseParts(scan, raw, id);
    var r, s := BaseParts(scan, other, id');
    UnixEqualIff(raw.fragment, other.fragment);
    if id == id' {
      SortedPair(p, q, r, s);
    }
    if CandidateOf(scan, raw).value.base == CandidateOf(scan, other).value.base {
      assert p in id.paths && q in id.paths && r in id'.paths && s in id'.paths;
      var digest, digest' := scan.digest(UnixNewlines(raw.fragment)), scan.digest(UnixNewlines(other.fragment));
      var tail, tail' := q + "|" + digest, s + "|" + digest';
      PrefixSplits("jscpd.v1|", id.format + "|" + (p + "|" + tail), id'.format + "|" + (r + "|" + tail'));
      PipeSplits(id.format, p + "|" + tail, id'.format, r + "|" + tail');
      PipeSplits(p, tail, r, tail');
      PipeSplits(q, digest, s, digest');
    }
  }

  lemma PrefixSplits(head: string, x: string, y: string)
    requires head + x == head + y
    ensures x == y
  {
    assert (head + x)[|head|..] == x && (head + y)[|head|..] == y;
  }

  // ----- whole reports -----

  /** `ids` are the clones that the entries stand for. */
  ghost predicate Identify(scan: Scan, raws: seq<RawDuplicate>, ids: seq<Identity>) {
    |ids| == |raws| && forall i | 0 <= i < |raws| :: Identifies(scan, raws[i], ids[i]) && Separable(ids[i])
  }

  lemma {:induction false} CandidatesAt(scan: Scan, raws: seq<RawDuplicate>)
    requires CandidatesOf(scan, raws).Ok?
    ensures |CandidatesOf(scan, raws).value| == |raws|
    ensures forall i | 0 <= i < |raws| :: CandidateOf(scan, raws[i]) == Ok(CandidatesOf(scan, raws).value[i])
  {
    hide CandidateOf;
    if raws == [] {
      assert CandidatesOf(scan, raws).value == [];
    } else {
      CandidatesAt(scan, raws[..|raws| - 1]);
    }
  }

  /** Where two lists single out the same places, the two things occur equally often. */
  lemma {:induction false} SameCount<S, T>(a: seq<S>, b: seq<T>, x: S, y: T)
    requires |a| == |b| && forall i | 0 <= i < |a| :: a[i] == x <==> b[i] == y
    ensures multiset(a)[x] == multiset(b)[y]
  {
    if a == [] {
      assert b == [];
    } else {
      var k := |a| - 1;
      assert a == a[..k] + [a[k]] && b == b[..k] + [b[k]];
      SameCount(a[..k], b[..k], x, y);
    }
  }

  /** A clone and a base that go together occur equally often in a report. */
  lemma CloneCount(scan: Scan, raws: seq<RawDuplicate>, ids: seq<Identity>, raw: RawDuplicate, id: Identity)
    requires InjectiveDigest(scan) && CandidatesOf(scan, raws).Ok? && Identify(scan, raws, ids)
    requires Identifies(scan, raw, id) && Separable(id)
    ensures multiset(ids)[id] == multiset(BasesOf(CandidatesOf(scan, raws).value))[CandidateOf(scan, raw).value.base]
  {
    hide CandidateOf, Separable, InjectiveDigest, Stands, FragmentLines;
    CandidatesAt(scan, raws);
    var bases, base := BasesOf(CandidatesOf(scan, raws).value), CandidateOf(scan, raw).value.base;
    forall i | 0 <= i < |ids|
      ensures ids[i] == id <==> bases[i] == base
    {
      BaseEqualIff(scan, raws[i], ids[i], raw, id);
    }
    SameCount(ids, bases, id, base);
  }

  /** Two reports have the same fingerprints exactly when they report the same clones, each equally often. */
  lemma FingerprintsEqualIff(scan: Scan, raws: seq<RawDuplicate>, ids: seq<Identity>,
                             others: seq<RawDuplicate>, ids': seq<Identity>)
    requires InjectiveDigest(scan)
    requires CandidatesOf(scan, raws).Ok? && Identify(scan, raws, ids)
    requires CandidatesOf(scan, others).Ok? && Identify(scan, others, ids')
    ensures Fingerprints(Findings(CandidatesOf(scan, raws).value)) == Fingerprints(Findings(CandidatesOf(scan, others).value))
       <==> multiset(ids) == multiset(ids')
  {
    hide Findings, CandidatesOf, CandidateOf, Identifies, Separable, InjectiveDigest, BasesOf, Encoded;
    var cs, ds := CandidatesOf(scan, raws).value, CandidatesOf(scan, others).value;
    var m, n := multiset(BasesOf(cs)), multiset(BasesOf(ds));
    FingerprintsEncode(cs);
    FingerprintsEncode(ds);
    EncodedInjective(m, n);
    forall raw, id | Identifies(scan, raw, id) && Separable(id)
      ensures multiset(ids)[id] == m[CandidateOf(scan, raw).value.base]
      ensures multiset(ids')[id] == n[CandidateOf(scan, raw).value.base]
    {
      CloneCount(scan, raws, ids, raw, id);
      CloneCount(scan, others, ids', raw, id);
    }
    if m == n {
      forall id
        ensures multiset(ids)[id] == multiset(ids')[id]
      {
        if id in ids {
          var i :| 0 <= i < |ids| && ids[i] == id;
          assert Identifies(scan, raws[i], id);
        } else if id in ids' {
          var i :| 0 <= i < |ids'| && ids'[i] == id;
          assert Identifies(scan, others[i], id);
        }
      }
    }
    if multiset(ids) == multiset(ids') {
      forall base
        ensures m[base] == n[base]
      {
        if base in m {
          BaseReported(scan, raws, ids, base);
        } else if base in n {
          BaseReported(scan, others, ids', base);
        }
      }
    }
  }

  /** A base of a report is that of some entry. */
  lemma BaseReported(scan: Scan, raws: seq<RawDuplicate>, ids: seq<Identity>, base: string)
    requires CandidatesOf(scan, raws).Ok? && Identify(scan, raws, ids)
    requires base in multiset(BasesOf(CandidatesOf(scan, raws).value))
    ensures exists raw, id :: Identifies(scan, raw, id) && Separable(id) && CandidateOf(scan, raw).value.base == base
  {
    hide CandidateOf, Separable;
    CandidatesAt(scan, raws);
    var bases := BasesOf(CandidatesOf(scan, raws).value);
    var i :| 0 <= i < |bases| && bases[i] == base;
    assert Identifies(scan, raws[i], ids[i]) && Separable(ids[i]);
  }

  /**
   A "|" in a path is another matter: clones between different files get one fingerprint when the names of the files
   can be split in two ways.
   */
  lemma PipesCollide(scan: Scan, format: string, a: string, b: string, c: string, fragment: string)
    ensures BaseFingerprint(scan, format, a + "|" + b, c, fragment) == BaseFingerprint(scan, format, a, b + "|" + c, fragment)
  {
    var digest := scan.digest(UnixNewlines(fragment));
    var head := "jscpd.v1|" + format + "|";
    assert head + (a + "|" + b) + "|" + c + "|" + digest == head + a + "|" + (b + "|" + c) + "|" + digest;
  }

  // ----- what the findings say -----

  /** An entry is accepted exactly when its fields are given, its format is allowed and its numbers are in order. */
  lemma CandidateExact(scan: Scan, raw: RawDuplicate)
    ensures CandidateOf(scan, raw).Ok?
       <==> && (exists i | 0 <= i < |raw.format| :: !IsSpace(raw.format[i])) && raw.format in scan.formats
            && (exists i | 0 <= i < |raw.fragment| :: !IsSpace(raw.fragment[i]))
            && 1 <= raw.first.start <= raw.first.end && (exists p: string :: Stands(scan, raw.first.name, p))
            && 1 <= raw.second.start <= raw.second.end && (exists p: string :: Stands(scan, raw.second.name, p))
            && raw.lines >= 1 && raw.tokens >= 1
  {
    hide LocationOf, Stands, IsSpace, Strip, UnixNewlines, LocationLess;
    BlankIff(raw.format);
    BlankIff(raw.fragment);
    LocationReadIff(scan, raw.first);
    LocationReadIff(scan, raw.second);
  }

  lemma LocationReadIff(scan: Scan, raw: RawLocation)
    ensures LocationOf(scan, raw).Ok? <==> 1 <= raw.start <= raw.end && exists p: string :: Stands(scan, raw.name, p)
  {
    hide LocationOf, Stands;
    if LocationOf(scan, raw).Ok? {
      LocationExact(scan, raw, LocationOf(scan, raw).value);
    }
    if p: string :| Stands(scan, raw.name, p) && 1 <= raw.start <= raw.end {
      LocationExact(scan, raw, Location(p, raw.start, raw.end));
    }
  }

  /** What is said about a clone: its format, its two places in no order, its size. */
  datatype Account = Account(format: string, places: multiset<Location>, lines: int, tokens: int)

  function AccountOf(f: Finding): Account {
    Account(f.format, multiset{f.first, f.second}, f.lines, f.tokens)
  }

  function CandidateAccount(c: Candidate): Account {
    Account(c.format, multiset{c.left, c.right}, c.lines, c.tokens)
  }

  /** What the entry itself says. */
  ghost predicate Accounts(scan: Scan, raw: RawDuplicate, account: Account) {
    && account.format == raw.format && account.lines == raw.lines && account.tokens == raw.tokens
    && exists first: Location, second: Location ::
         && LocationOf(scan, raw.first) == Ok(first) && LocationOf(scan, raw.second) == Ok(second)
         && account.places == multiset{first, second}
  }

  /** The sorted groups, one after the other. */
  function Flat(bases: seq<string>, cs: seq<Candidate>): seq<Candidate> {
    if bases == [] then []
    else Flat(bases[..|bases| - 1], cs) + SortedGroup(cs, bases[|bases| - 1])
  }

  lemma {:induction false} FlatCount(bases: seq<string>, cs: seq<Candidate>, c: Candidate)
    requires NoRepeats(bases)
    ensures multiset(Flat(bases, cs))[c] == if c.base in bases then multiset(cs)[c] else 0
  {
    hide Group, Sort, BoundsLe;
    if bases == [] {
      assert Flat(bases, cs) == [];
    } else {
      var init, last := bases[..|bases| - 1], bases[|bases| - 1];
      FlatCount(init, cs, c);
      assert bases == init + [last] && last !in init;
      SortPermutes(BoundsLe, Group(cs, last));
      GroupMultiset(cs, last, c);
    }
  }

  /** Grouping and sorting keep every candidate. */
  lemma FlatPermutes(cs: seq<Candidate>)
    ensures multiset(Flat(Bases(cs), cs)) == multiset(cs)
  {
    hide Flat;
    BasesExact(cs);
    forall c
      ensures multiset(Flat(Bases(cs), cs))[c] == multiset(cs)[c]
    {
      FlatCount(Bases(cs), cs, c);
      if c in cs {
        var i :| 0 <= i < |cs| && cs[i] == c;
        assert BasesOf(cs)[i] == c.base;
      }
    }
  }

  lemma {:induction false} NumberedAccounts(bases: seq<string>, cs: seq<Candidate>)
    ensures Mapped(NumberedGroups(bases, cs), AccountOf) == Mapped(Flat(bases, cs), CandidateAccount)
  {
    hide SortedGroup, Occurrence;
    if bases == [] {
      assert NumberedGroups(bases, cs) == [];
    } else {
      var init, last := bases[..|bases| - 1], bases[|bases| - 1];
      NumberedAccounts(init, cs);
      var group := SortedGroup(cs, last);
      MappedAppend(NumberedGroups(init, cs), Numbered(group, last), AccountOf);
      MappedAppend(Flat(init, cs), group, CandidateAccount);
      assert Mapped(Numbered(group, last), AccountOf) == Mapped(group, CandidateAccount);
    }
  }

  /** The findings say of the clones exactly what the entries of the report say, as often as they say it. */
  lemma FindingsConserve(scan: Scan, raws: seq<RawDuplicate>, accounts: seq<Account>)
    requires CandidatesOf(scan, raws).Ok?
    requires |accounts| == |raws| && forall i | 0 <= i < |raws| :: Accounts(scan, raws[i], accounts[i])
    ensures multiset(Mapped(Findings(CandidatesOf(scan, raws).value), AccountOf)) == multiset(accounts)
  {
    hide NumberedGroups, Flat, Bases, Sort, FingerprintLe, CandidatesOf, AccountOf;
    var cs := CandidatesOf(scan, raws).value;
    var all := NumberedGroups(Bases(cs), cs);
    SortPermutes(FingerprintLe, all);
    MappedPermutes(Findings(cs), all, AccountOf);
    NumberedAccounts(Bases(cs), cs);
    FlatPermutes(cs);
    MappedPermutes(Flat(Bases(cs), cs), cs, CandidateAccount);
    CandidatesAt(scan, raws);
    assert Mapped(cs, CandidateAccount) == accounts by {
      forall i | 0 <= i < |raws|
        ensures CandidateAccount(cs[i]) == accounts[i]
      {
        AccountOfCandidate(scan, raws[i], accounts[i]);
      }
    }
  }

  lemma AccountOfCandidate(scan: Scan, raw: RawDuplicate, account: Account)
    requires CandidateOf(scan, raw).Ok? && Accounts(scan, raw, account)
    ensures CandidateAccount(CandidateOf(scan, raw).value) == account
  {
    hide LocationOf;
    var first, second := LocationOf(scan, raw.first).value, LocationOf(scan, raw.second).value;
    assert multiset{first, second} == multiset{second, first};
  }

  /** In every finding the smaller place comes first. */
  lemma FindingsOrdered(scan: Scan, raws: seq<RawDuplicate>, f: Finding)
    requires CandidatesOf(scan, raws).Ok? && f in Findings(CandidatesOf(scan, raws).value)
    ensures LexLe(f.first.path, f.second.path)
    ensures f.first.path == f.second.path ==>
              f.first.start < f.second.start || (f.first.start == f.second.start && f.first.end <= f.second.end)
  {
    hide NumberedGroups, Bases, Sort, FingerprintLe, CandidatesOf, SortedGroup, LexLe, CandidateOf;
    var cs := CandidatesOf(scan, raws).value;
    var all := NumberedGroups(Bases(cs), cs);
    SortPermutes(FingerprintLe, all);
    assert f in multiset(Findings(cs)) && f in all;
    NumberedGroupsExact(Bases(cs), cs, f);
    var b, i :| b in Bases(cs) && IsNumbered(cs, b, i, f);
    var c := SortedGroup(cs, b)[i];
    SortedGroupMember(cs, b, c);
    var k :| 0 <= k < |cs| && cs[k] == c;
    CandidatesAt(scan, raws);
    CandidateOrdered(scan, raws[k]);
  }

  lemma CandidateOrdered(scan: Scan, raw: RawDuplicate)
    requires CandidateOf(scan, raw).Ok?
    ensures var c := CandidateOf(scan, raw).value; LexLe(c.left.path, c.right.path) && !LocationLess(c.right, c.left)
  {
    hide LocationOf, LexLe;
    var first, second := LocationOf(scan, raw.first).value, LocationOf(scan, raw.second).value;
    LexTotal(first.path, second.path);
    if LexLe(first.path, second.path) && LexLe(second.path, first.path) {
      LexAntisymmetric(first.path, second.path);
    }
  }
}
