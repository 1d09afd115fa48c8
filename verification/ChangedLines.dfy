/** The unified-diff reader of scripts/changed_coverage_gate.py. */
module ChangedLines {
  import opened Wrappers
  import opened Text
  import opened TextLines

  type LineSets = map<string, set<nat>>

  datatype DiffError =
    | LineCountMismatch(file: string, expected: nat, parsed: nat)
    | MalformedHunk(line: string)

  // ----- hunk headers -----

  /** What `\d+(?:,\d+)?` matches at the start of a string, and what follows it. */
  datatype Range = Range(start: nat, count: Option<nat>, rest: string)

  function MatchRange(s: string): Option<Range> {
    var n := DigitRun(s);
    if n == 0 then None
    else
      var start, rest := NatOf(s[..n]), s[n..];
      var k := if StartsWith(rest, ",") then DigitRun(rest[1..]) else 0;
      if k == 0 then Some(Range(start, None, rest))
      else Some(Range(start, Some(NatOf(rest[1..][..k])), rest[1..][k..]))
  }

  datatype HunkHeader = HunkHeader(newStart: nat, newCount: nat)

  /** `^@@ -\d+(?:,\d+)? \+(\d+)(?:,(\d+))? @@`, with an absent count read as 1. */
  function MatchHunkHeader(line: string): Option<HunkHeader> {
    if !StartsWith(line, "@@ -") then None
    else
      match MatchRange(line[4..])
      case None => None
      case Some(oldRange) =>
        if !StartsWith(oldRange.rest, " +") then None
        else
          match MatchRange(oldRange.rest[2..])
          case None => None
          case Some(newRange) =>
            if !StartsWith(newRange.rest, " @@") then None
            else Some(HunkHeader(newRange.start, if newRange.count.Some? then newRange.count.value else 1))
  }

  // ----- the reader -----

  datatype Reader = Reader(
    currentFile: Option<string>,
    newLine: Option<nat>,
    expected: nat,
    parsed: nat,
    hunkStarted: bool,
    changed: LineSets)

  const START := Reader(None, None, 0, 0, false, map[])

  /** `line.removeprefix("+++ b/").replace("\\", "/")` */
  function FileOf(line: string): string
    requires StartsWith(line, "+++ b/")
  {
    Replace(line[6..], '\\', '/')
  }

  predicate IsPython(file: string) {
    EndsWith(file, ".py")
  }

  /** Only Python files are recorded: `changed.setdefault(file, set()).update(lines)`. */
  function Record(changed: LineSets, file: string, lines: set<nat>): LineSets {
    if IsPython(file) then changed[file := (if file in changed then changed[file] else {}) + lines] else changed
  }

  predicate Known(changed: LineSets, file: string) {
    IsPython(file) ==> file in changed
  }

  lemma RecordTwice(changed: LineSets, file: string, a: set<nat>, b: set<nat>)
    ensures Record(Record(changed, file, a), file, b) == Record(changed, file, a + b)
  {
    var before := if file in changed then changed[file] else {};
    assert (before + a) + b == before + (a + b);
  }

  lemma RecordNothing(changed: LineSets, file: string)
    requires Known(changed, file)
    ensures Record(changed, file, {}) == changed
  {
    if IsPython(file) {
      assert changed[file] + {} == changed[file];
    }
  }

  predicate HunkComplete(s: Reader) {
    s.currentFile.None? || s.expected == s.parsed
  }

  /** One line, without the failure of an incomplete hunk that it may close. */
  function Step(s: Reader, line: string): Result<Reader, DiffError> {
    if StartsWith(line, "+++ b/") && (!s.hunkStarted || s.expected == s.parsed) then
      if !HunkComplete(s) then Err(LineCountMismatch(s.currentFile.value, s.expected, s.parsed))
      else
        var file := FileOf(line);
        Ok(Reader(Some(file), None, 0, 0, false, Record(s.changed, file, {})))
    else
      match MatchHunkHeader(line)
      case Some(header) =>
        if !HunkComplete(s) then Err(LineCountMismatch(s.currentFile.value, s.expected, s.parsed))
        else Ok(s.(newLine := Some(header.newStart), expected := header.newCount, parsed := 0, hunkStarted := true))
      case None =>
        if StartsWith(line, "@@") && s.currentFile.Some? then Err(MalformedHunk(line))
        else if s.currentFile.None? || s.newLine.None? || StartsWith(line, "\\") then Ok(s)
        else if StartsWith(line, "+") then
          var file, n := s.currentFile.value, s.newLine.value;
          Ok(s.(newLine := Some(n + 1), parsed := s.parsed + 1, changed := Record(s.changed, file, {n})))
        else if StartsWith(line, "-") then Ok(s)
        else if StartsWith(line, " ") then Ok(s.(newLine := Some(s.newLine.value + 1), parsed := s.parsed + 1))
        else Ok(s)
  }

  function Read(s: Reader, lines: seq<string>): Result<Reader, DiffError>
    decreases lines
  {
    if lines == [] then Ok(s)
    else
      match Step(s, lines[0])
      case Err(e) => Err(e)
      case Ok(next) => Read(next, lines[1..])
  }

  function Finish(r: Result<Reader, DiffError>): Result<LineSets, DiffError> {
    match r
    case Err(e) => Err(e)
    case Ok(s) =>
      if HunkComplete(s) then Ok(s.changed) else Err(LineCountMismatch(s.currentFile.value, s.expected, s.parsed))
  }

  /** The outcome of reading a whole diff, as a fold of `Step`. */
  function ReadDiff(lines: seq<string>): Result<LineSets, DiffError> {
    Finish(Read(START, lines))
  }

  /** The loop of `_changed_source_lines`, over the output of git. */
  method ChangedSourceLines(output: string) returns (r: Result<LineSets, DiffError>)
    ensures r == ReadDiff(SplitLines(output))
  {
    hide MatchHunkHeader, SplitLines, FileOf, Record, Read, IsPython;
    var lines := SplitLines(output);
    assert lines[0..] == lines;
    var changed: LineSets := map[];
    var currentFile: Option<string> := None;
    var newLine: Option<nat> := None;
    var expected: nat, parsed: nat, hunkStarted := 0, 0, false;
    for i := 0 to |lines|
      invariant Read(START, lines)
             == Read(Reader(currentFile, newLine, expected, parsed, hunkStarted, changed), lines[i..])
      invariant currentFile.Some? ==> Known(changed, currentFile.value)
    {
      var line := lines[i];
      assert lines[i..][0] == line && lines[i..][1..] == lines[i + 1..];
      ReadUnfolds(Reader(currentFile, newLine, expected, parsed, hunkStarted, changed), lines[i..]);
      if StartsWith(line, "+++ b/") && (!hunkStarted || expected == parsed) {
        if currentFile.Some? && expected != parsed {
          return Err(LineCountMismatch(currentFile.value, expected, parsed));
        }
        hunkStarted := false;
        var file := FileOf(line);
        currentFile := Some(file);
        RecordedNothing(changed, file);
        if IsPython(file) {
          if file !in changed {
            changed := changed[file := {}];
          }
        }
        newLine, expected, parsed := None, 0, 0;
        continue;
      }
      var header := MatchHunkHeader(line);
      if header.Some? {
        if currentFile.Some? && expected != parsed {
          return Err(LineCountMismatch(currentFile.value, expected, parsed));
        }
        newLine, expected, parsed := Some(header.value.newStart), header.value.newCount, 0;
        hunkStarted := true;
        continue;
      }
      if StartsWith(line, "@@") && currentFile.Some? {
        return Err(MalformedHunk(line));
      }
      if currentFile.None? || newLine.None? || StartsWith(line, "\\") {
        continue;
      }
      if StartsWith(line, "+") {
        RecordedLine(changed, currentFile.value, newLine.value);
        if IsPython(currentFile.value) {
          changed := changed[currentFile.value := changed[currentFile.value] + {newLine.value}];
        }
        newLine, parsed := Some(newLine.value + 1), parsed + 1;
      } else if StartsWith(line, "-") {
        continue;
      } else if StartsWith(line, " ") {
        newLine, parsed := Some(newLine.value + 1), parsed + 1;
      }
    }
    assert lines[|lines|..] == [];
    ReadUnfolds(Reader(currentFile, newLine, expected, parsed, hunkStarted, changed), []);
    if currentFile.Some? && expected != parsed {
      return Err(LineCountMismatch(currentFile.value, expected, parsed));
    }
    return Ok(changed);
  }

  lemma ReadUnfolds(s: Reader, lines: seq<string>)
    ensures Read(s, lines)
         == if lines == [] then Ok(s) else match Step(s, lines[0]) case Err(e) => Err(e) case Ok(next) => Read(next, lines[1..])
  {
    hide Step;
  }

  /** `changed.setdefault(file, set())` */
  lemma RecordedNothing(changed: LineSets, file: string)
    ensures Record(changed, file, {}) == if IsPython(file) && file !in changed then changed[file := {}] else changed
    ensures Known(Record(changed, file, {}), file)
  {
    hide IsPython;
    var none: set<nat> := {};
    assert none + none == none;
    if file in changed {
      assert changed[file] + none == changed[file];
      assert changed[file := changed[file]] == changed;
    }
  }

  lemma RecordedLine(changed: LineSets, file: string, n: nat)
    requires Known(changed, file)
    ensures Record(changed, file, {n}) == if IsPython(file) then changed[file := changed[file] + {n}] else changed
    ensures Known(Record(changed, file, {n}), file)
  {
    hide IsPython;
  }

  // ----- diffs, and how git prints them -----

  /** A hunk line; `NoNewline` is the "\ No newline at end of file" marker. */
  datatype BodyLine = Added(text: string) | Removed(text: string) | Context(text: string) | NoNewline(text: string) {
    function Print(): string {
      match this
      case Added(t) => "+" + t
      case Removed(t) => "-" + t
      case Context(t) => " " + t
      case NoNewline(t) => "\\" + t
    }
  }

  datatype Hunk = Hunk(oldStart: nat, newStart: nat, heading: string, body: seq<BodyLine>)

  /** `prelude` holds the "diff --git", "index", "rename" and "--- a/" lines before "+++ b/". */
  datatype FileDiff =
    | Patched(prelude: seq<string>, path: string, hunks: seq<Hunk>)
    | HeadersOnly(prelude: seq<string>)

  function NewCount(body: seq<BodyLine>): nat {
    if body == [] then 0
    else (if body[0].Added? || body[0].Context? then 1 else 0) + NewCount(body[1..])
  }

  function OldCount(body: seq<BodyLine>): nat {
    if body == [] then 0
    else (if body[0].Removed? || body[0].Context? then 1 else 0) + OldCount(body[1..])
  }

  /** The new-file numbers of the added lines of a body whose first new line has number `n`. */
  function AddedNumbers(body: seq<BodyLine>, n: nat): set<nat> {
    if body == [] then {}
    else if body[0].Added? then {n} + AddedNumbers(body[1..], n + 1)
    else AddedNumbers(body[1..], if body[0].Context? then n + 1 else n)
  }

  function HunksNumbers(hunks: seq<Hunk>): set<nat> {
    if hunks == [] then {}
    else AddedNumbers(hunks[0].body, hunks[0].newStart) + HunksNumbers(hunks[1..])
  }

  function RangeText(start: nat, count: nat): string {
    Digits(start) + if count == 1 then "" else "," + Digits(count)
  }

  /** The header of `h`, announcing `newCount` new lines. */
  function HeaderText(h: Hunk, newCount: nat): string {
    "@@ -" + RangeText(h.oldStart, OldCount(h.body)) + " +" + RangeText(h.newStart, newCount) + " @@" + h.heading
  }

  function PrintBody(body: seq<BodyLine>): seq<string> {
    if body == [] then [] else [body[0].Print()] + PrintBody(body[1..])
  }

  function PrintHunks(hunks: seq<Hunk>): seq<string> {
    if hunks == [] then []
    else [HeaderText(hunks[0], NewCount(hunks[0].body))] + PrintBody(hunks[0].body) + PrintHunks(hunks[1..])
  }

  function PrintFile(f: FileDiff): seq<string> {
    match f
    case Patched(prelude, path, hunks) => prelude + ["+++ b/" + path] + PrintHunks(hunks)
    case HeadersOnly(prelude) => prelude
  }

  function PrintDiff(files: seq<FileDiff>): seq<string> {
    if files == [] then [] else PrintFile(files[0]) + PrintDiff(files[1..])
  }

  predicate IsPreludeLine(line: string) {
    !StartsWith(line, "+") && !StartsWith(line, " ") && !StartsWith(line, "@@")
  }

  predicate WellFormed(files: seq<FileDiff>) {
    forall i, j | 0 <= i < |files| && 0 <= j < |files[i].prelude| :: IsPreludeLine(files[i].prelude[j])
  }

  /** What a diff changes: for every patched Python file, the numbers of its added lines. */
  function Changed(files: seq<FileDiff>, changed: LineSets): LineSets {
    if files == [] then changed
    else Changed(files[1..], ChangedByFile(files[0], changed))
  }

  function ChangedByFile(f: FileDiff, changed: LineSets): LineSets {
    if f.Patched? then Record(changed, Replace(f.path, '\\', '/'), HunksNumbers(f.hunks)) else changed
  }

  // ----- reading back what was printed -----

  lemma MatchRangeText(start: nat, count: nat, rest: string)
    requires rest != "" && !IsDigit(rest[0]) && rest[0] != ','
    ensures var r := MatchRange(RangeText(start, count) + rest);
            r.Some? && r.value.start == start && r.value.rest == rest
            && (if r.value.count.Some? then r.value.count.value else 1) == count
  {
    var s := RangeText(start, count) + rest;
    var tail := (if count == 1 then "" else "," + Digits(count)) + rest;
    assert s == Digits(start) + tail;
    DigitRunOf(Digits(start), tail);
    assert s[..|Digits(start)|] == Digits(start) && s[|Digits(start)|..] == tail;
    NatOfDigits(start);
    if count == 1 {
      assert tail == rest;
    } else {
      assert tail[0] == ',' && StartsWith(tail, ",");
      assert tail[1..] == Digits(count) + rest;
      DigitRunOf(Digits(count), rest);
      assert tail[1..][..|Digits(count)|] == Digits(count) && tail[1..][|Digits(count)|..] == rest;
      NatOfDigits(count);
    }
  }

  /** The part of a header that describes the new file. */
  function NewRangeText(h: Hunk, newCount: nat): string {
    " +" + (RangeText(h.newStart, newCount) + (" @@" + h.heading))
  }

  lemma MatchNewRange(h: Hunk, newCount: nat)
    ensures var mid := NewRangeText(h, newCount);
            && mid[0] == ' ' && StartsWith(mid, " +")
            && MatchRange(mid[2..]).Some?
            && var r := MatchRange(mid[2..]).value;
               r.start == h.newStart && (if r.count.Some? then r.count.value else 1) == newCount && StartsWith(r.rest, " @@")
  {
    var mid := NewRangeText(h, newCount);
    var tail := " @@" + h.heading;
    assert mid[..2] == " +" && mid[2..] == RangeText(h.newStart, newCount) + tail;
    MatchRangeText(h.newStart, newCount, tail);
    assert tail[..3] == " @@";
  }

  lemma {:induction false} HeaderTextParts(h: Hunk, newCount: nat)
    ensures var line := HeaderText(h, newCount);
            && line[0] == '@' && StartsWith(line, "@@ -")
            && line[4..] == RangeText(h.oldStart, OldCount(h.body)) + NewRangeText(h, newCount)
  {
    var old', new' := RangeText(h.oldStart, OldCount(h.body)), RangeText(h.newStart, newCount);
    var line := HeaderText(h, newCount);
    assert line == "@@ -" + (old' + NewRangeText(h, newCount));
    assert line[..4] == "@@ -";
  }

  lemma MatchHeaderText(h: Hunk, newCount: nat)
    ensures MatchHunkHeader(HeaderText(h, newCount)) == Some(HunkHeader(h.newStart, newCount))
    ensures !StartsWith(HeaderText(h, newCount), "+++ b/")
  {
    HeaderTextParts(h, newCount);
    MatchNewRange(h, newCount);
    MatchRangeText(h.oldStart, OldCount(h.body), NewRangeText(h, newCount));
  }

  lemma {:induction false} ReadAppend(s: Reader, a: seq<string>, b: seq<string>)
    decreases a
    ensures Read(s, a + b) == if Read(s, a).Ok? then Read(Read(s, a).value, b) else Read(s, a)
  {
    if a == [] {
      assert a + b == b;
    } else {
      assert (a + b)[1..] == a[1..] + b;
      if Step(s, a[0]).Ok? {
        ReadAppend(Step(s, a[0]).value, a[1..], b);
      }
    }
  }

  lemma ReadOne(s: Reader, line: string)
    ensures Read(s, [line]) == Step(s, line)
  {
  }

  /** Between files: every hunk met so far was complete. */
  predicate Ready(s: Reader) {
    s.expected == s.parsed && (s.currentFile.None? ==> s.newLine.None?)
  }

  lemma {:induction false} ReadPrelude(s: Reader, prelude: seq<string>)
    requires forall j | 0 <= j < |prelude| :: IsPreludeLine(prelude[j])
    ensures Read(s, prelude) == Ok(s)
  {
    if prelude == [] {
    } else {
      var line := prelude[0];
      assert StartsWith(line, "+++ b/") ==> StartsWith(line, "+");
      assert StartsWith(line, "@@ -") ==> StartsWith(line, "@@");
      ReadPrelude(s, prelude[1..]);
    }
  }

  /** Inside a hunk: each printed body line advances the numbering as the body prescribes. */
  lemma {:induction false} ReadBody(s: Reader, body: seq<BodyLine>)
    requires s.currentFile.Some? && s.newLine.Some? && s.hunkStarted && Known(s.changed, s.currentFile.value)
    requires s.parsed + NewCount(body) <= s.expected
    ensures Read(s, PrintBody(body)) == Ok(s.(
              newLine := Some(s.newLine.value + NewCount(body)),
              parsed := s.parsed + NewCount(body),
              changed := Record(s.changed, s.currentFile.value, AddedNumbers(body, s.newLine.value))))
    decreases body
  {
    hide Step;
    var file, n := s.currentFile.value, s.newLine.value;
    if body == [] {
      RecordNothing(s.changed, file);
    } else {
      var next := StepBody(s, body[0]);
      assert PrintBody(body)[0] == body[0].Print() && PrintBody(body)[1..] == PrintBody(body[1..]);
      ReadBody(next, body[1..]);
      if body[0].Added? {
        RecordTwice(s.changed, file, {n}, AddedNumbers(body[1..], n + 1));
      }
    }
  }

  lemma StepBody(s: Reader, line: BodyLine) returns (next: Reader)
    requires s.currentFile.Some? && s.newLine.Some? && s.hunkStarted
    requires line.Added? || line.Context? ==> s.parsed < s.expected
    ensures Step(s, line.Print()) == Ok(next)
    ensures next == match line
                    case Added(_) =>
                      s.(newLine := Some(s.newLine.value + 1), parsed := s.parsed + 1,
                         changed := Record(s.changed, s.currentFile.value, {s.newLine.value}))
                    case Context(_) => s.(newLine := Some(s.newLine.value + 1), parsed := s.parsed + 1)
                    case _ => s
  {
    var text := line.Print();
    assert text[0] == match line case Added(_) => '+' case Removed(_) => '-' case Context(_) => ' ' case NoNewline(_) => '\\';
    next := Step(s, text).value;
  }

  lemma {:induction false} ReadHunks(s: Reader, hunks: seq<Hunk>)
    requires Ready(s) && s.currentFile.Some? && Known(s.changed, s.currentFile.value)
    ensures var r := Read(s, PrintHunks(hunks));
            && r.Ok? && Ready(r.value) && r.value.currentFile == s.currentFile
            && r.value.changed == Record(s.changed, s.currentFile.value, HunksNumbers(hunks))
    decreases hunks
  {
    var file := s.currentFile.value;
    if hunks == [] {
      RecordNothing(s.changed, file);
    } else {
      var h := hunks[0];
      var inside := OpenHunk(s, h, NewCount(h.body));
      ReadBody(inside, h.body);
      var head := [HeaderText(h, NewCount(h.body))];
      ReadAppend(s, head + PrintBody(h.body), PrintHunks(hunks[1..]));
      ReadAppend(s, head, PrintBody(h.body));
      var next := Read(inside, PrintBody(h.body)).value;
      ReadHunks(next, hunks[1..]);
      RecordTwice(s.changed, file, AddedNumbers(h.body, h.newStart), HunksNumbers(hunks[1..]));
    }
  }

  lemma OpenHunk(s: Reader, h: Hunk, newCount: nat) returns (inside: Reader)
    requires HunkComplete(s)
    ensures inside == s.(newLine := Some(h.newStart), expected := newCount, parsed := 0, hunkStarted := true)
    ensures Read(s, [HeaderText(h, newCount)]) == Ok(inside)
  {
    MatchHeaderText(h, newCount);
    inside := s.(newLine := Some(h.newStart), expected := newCount, parsed := 0, hunkStarted := true);
    ReadOne(s, HeaderText(h, newCount));
  }

  /** The state right after the "+++ b/" line of a patched file. */
  lemma ReadFileHead(s: Reader, f: FileDiff) returns (inside: Reader)
    requires Ready(s) && f.Patched? && WellFormed([f])
    ensures var file := Replace(f.path, '\\', '/');
            && inside == Reader(Some(file), None, 0, 0, false, Record(s.changed, file, {}))
            && Known(inside.changed, file)
            && Read(s, f.prelude + ["+++ b/" + f.path]) == Ok(inside)
  {
    var line: string := "+++ b/" + f.path;
    var file := Replace(f.path, '\\', '/');
    assert [f][0] == f;
    ReadPrelude(s, f.prelude);
    ReadAppend(s, f.prelude, [line]);
    assert line[6..] == f.path;
    inside := Reader(Some(file), None, 0, 0, false, Record(s.changed, file, {}));
    ReadOne(s, line);
  }

  lemma ReadFile(s: Reader, f: FileDiff)
    requires Ready(s) && WellFormed([f])
    ensures var r := Read(s, PrintFile(f));
            r.Ok? && Ready(r.value) && r.value.changed == ChangedByFile(f, s.changed)
  {
    assert [f][0] == f;
    match f {
      case HeadersOnly(prelude) =>
        ReadPrelude(s, prelude);
      case Patched(prelude, path, hunks) =>
        var file := Replace(path, '\\', '/');
        var inside := ReadFileHead(s, f);
        ReadAppend(s, prelude + ["+++ b/" + path], PrintHunks(hunks));
        ReadHunks(inside, hunks);
        RecordTwice(s.changed, file, {}, HunksNumbers(hunks));
        assert {} + HunksNumbers(hunks) == HunksNumbers(hunks);
    }
  }

  lemma {:induction false} ReadFiles(s: Reader, files: seq<FileDiff>)
    requires Ready(s) && WellFormed(files)
    ensures var r := Read(s, PrintDiff(files));
            r.Ok? && Ready(r.value) && r.value.changed == Changed(files, s.changed)
    decreases files
  {
    if files == [] {
    } else {
      assert WellFormed([files[0]]);
      ReadFile(s, files[0]);
      ReadAppend(s, PrintFile(files[0]), PrintDiff(files[1..]));
      assert WellFormed(files[1..]) by {
        forall i, j | 0 <= i < |files[1..]| && 0 <= j < |files[1..][i].prelude|
          ensures IsPreludeLine(files[1..][i].prelude[j])
        {
          assert files[1..][i] == files[i + 1];
        }
      }
      ReadFiles(Read(s, PrintFile(files[0])).value, files[1..]);
    }
  }

  // ----- what is recorded, path by path -----

  predicate Patches(f: FileDiff, file: string) {
    f.Patched? && Slashed(f.path, file)
  }

  ghost predicate PythonPath(file: string) {
    exists stem: string :: file == stem + ".py"
  }

  ghost predicate PythonPatched(files: seq<FileDiff>, file: string) {
    PythonPath(file) && exists i | 0 <= i < |files| :: Patches(files[i], file)
  }

  /** Line `n` of `file` was added by some hunk that patches it. */
  predicate AddedBy(files: seq<FileDiff>, file: string, n: nat) {
    exists i | 0 <= i < |files| :: Patches(files[i], file) && n in HunksNumbers(files[i].hunks)
  }

  /** Exactly the patched paths `stem + ".py"` are recorded, each with the added lines of all its hunks. */
  ghost predicate Records(files: seq<FileDiff>, changed: LineSets) {
    && (forall file :: file in changed <==> PythonPatched(files, file))
    && (forall file, n: nat | file in changed :: n in changed[file] <==> AddedBy(files, file, n))
  }

  lemma PythonIff(file: string)
    ensures IsPython(file) <==> PythonPath(file)
  {
    if IsPython(file) {
      assert file == file[..|file| - 3] + ".py";
    }
    if stem: string :| file == stem + ".py" {
      assert file[|file| - 3..] == ".py";
    }
  }

  /** What one more file adds to the record. */
  lemma RecordedFile(f: FileDiff, changed: LineSets, file: string, n: nat)
    ensures file in ChangedByFile(f, changed)
       <==> file in changed || (PythonPath(file) && Patches(f, file))
    ensures file in ChangedByFile(f, changed) && PythonPath(file) ==>
              (n in ChangedByFile(f, changed)[file]
               <==> (file in changed && n in changed[file]) || (Patches(f, file) && n in HunksNumbers(f.hunks)))
  {
    PythonIff(file);
    if f.Patched? {
      SlashedIff(f.path, file);
    }
    hide Slashed, IsPython, PythonPath, HunksNumbers;
  }

  lemma {:induction false} ChangedExact(files: seq<FileDiff>, before: LineSets, file: string, n: nat)
    ensures file in Changed(files, before) <==> file in before || PythonPatched(files, file)
    ensures file in Changed(files, before) && PythonPath(file) ==>
              (n in Changed(files, before)[file] <==> (file in before && n in before[file]) || AddedBy(files, file, n))
    decreases files
  {
    hide ChangedByFile, Slashed, PythonPath, HunksNumbers;
    if files == [] {
      assert Changed(files, before) == before;
    } else {
      RecordedFile(files[0], before, file, n);
      ChangedExact(files[1..], ChangedByFile(files[0], before), file, n);
      assert forall i | 1 <= i < |files| :: files[i] == files[1..][i - 1];
      assert (exists i | 0 <= i < |files| :: Patches(files[i], file))
          == (Patches(files[0], file) || exists i | 0 <= i < |files[1..]| :: Patches(files[1..][i], file));
      assert AddedBy(files, file, n)
          == ((Patches(files[0], file) && n in HunksNumbers(files[0].hunks)) || AddedBy(files[1..], file, n));
    }
  }

  lemma ChangedRecords(files: seq<FileDiff>)
    ensures Records(files, Changed(files, map[]))
  {
    hide Changed, PythonPath, AddedBy;
    forall file
      ensures file in Changed(files, map[]) <==> PythonPatched(files, file)
    {
      ChangedExact(files, map[], file, 0);
    }
    forall file, n: nat | file in Changed(files, map[])
      ensures n in Changed(files, map[])[file] <==> AddedBy(files, file, n)
    {
      ChangedExact(files, map[], file, n);
    }
  }

  /**
   Reading the lines of a printed diff gives back exactly what it changes, whatever its files, hunks and texts are:
   an added line that looks like a file header is still an added line.
   */
  lemma ReadPrintedDiff(files: seq<FileDiff>)
    requires WellFormed(files)
    ensures ReadDiff(PrintDiff(files)).Ok? && Records(files, ReadDiff(PrintDiff(files)).value)
    ensures ReadDiff(PrintDiff(files)) == Ok(Changed(files, map[]))
  {
    ReadFiles(START, files);
    ChangedRecords(files);
  }

  /** In a zero-context hunk the added lines fill the announced new range exactly. */
  lemma {:induction false} ZeroContextRange(body: seq<BodyLine>, n: nat)
    requires forall i | 0 <= i < |body| :: !body[i].Context?
    ensures forall k: nat :: k in AddedNumbers(body, n) <==> n <= k < n + NewCount(body)
  {
    if body == [] {
    } else {
      forall i | 0 <= i < |body[1..]|
        ensures !body[1..][i].Context?
      {
        assert body[1..][i] == body[i + 1];
      }
      assert !body[0].Context?;
      ZeroContextRange(body[1..], if body[0].Added? then n + 1 else n);
    }
  }

  // ----- truncated and damaged diffs -----

  /** `h`, announcing `announced` new lines but carrying only `body`. */
  function PrintDamaged(h: Hunk, announced: nat, body: seq<BodyLine>): seq<string> {
    [HeaderText(h, announced)] + PrintBody(body)
  }

  /** A diff up to and including some complete hunks of its last file. */
  function PrintOpen(files: seq<FileDiff>, f: FileDiff): seq<string> {
    PrintDiff(files) + PrintFile(f)
  }

  lemma ReadOpen(files: seq<FileDiff>, f: FileDiff) returns (s: Reader)
    requires WellFormed(files) && WellFormed([f]) && f.Patched?
    ensures Read(START, PrintOpen(files, f)) == Ok(s) && Ready(s)
    ensures s.currentFile == Some(Replace(f.path, '\\', '/')) && Known(s.changed, s.currentFile.value)
    ensures s.changed == ChangedByFile(f, Changed(files, map[]))
  {
    ReadFiles(START, files);
    var s0 := Read(START, PrintDiff(files)).value;
    ReadAppend(START, PrintDiff(files), PrintFile(f));
    var s1 := ReadFileHead(s0, f);
    ReadAppend(s0, f.prelude + ["+++ b/" + f.path], PrintHunks(f.hunks));
    ReadHunks(s1, f.hunks);
    s := Read(s1, PrintHunks(f.hunks)).value;
    RecordTwice(s0.changed, s.currentFile.value, {}, HunksNumbers(f.hunks));
    assert {} + HunksNumbers(f.hunks) == HunksNumbers(f.hunks);
  }

  /** After an open file, a hunk whose body has fewer new lines than announced. */
  lemma ReadDamaged(files: seq<FileDiff>, f: FileDiff, h: Hunk, announced: nat, body: seq<BodyLine>)
    returns (s: Reader)
    requires WellFormed(files) && WellFormed([f]) && f.Patched? && NewCount(body) <= announced
    ensures Read(START, PrintOpen(files, f) + PrintDamaged(h, announced, body)) == Ok(s)
    ensures s.currentFile == Some(Replace(f.path, '\\', '/')) && Known(s.changed, s.currentFile.value)
    ensures s.newLine == Some(h.newStart + NewCount(body))
    ensures s.expected == announced && s.parsed == NewCount(body) && s.hunkStarted
    ensures s.changed == ChangedByFile(f.(hunks := f.hunks + [h.(body := body)]), Changed(files, map[]))
  {
    var open := ReadOpen(files, f);
    s := ReadDamagedHunk(open, h, announced, body);
    ReadAppend(START, PrintOpen(files, f), PrintDamaged(h, announced, body));
    RecordDamaged(files, f, h, body);
  }

  lemma ReadDamagedHunk(open: Reader, h: Hunk, announced: nat, body: seq<BodyLine>) returns (s: Reader)
    requires Ready(open) && open.currentFile.Some? && Known(open.changed, open.currentFile.value)
    requires NewCount(body) <= announced
    ensures Read(open, PrintDamaged(h, announced, body)) == Ok(s)
    ensures s == Reader(open.currentFile, Some(h.newStart + NewCount(body)), announced, NewCount(body), true,
                        Record(open.changed, open.currentFile.value, AddedNumbers(body, h.newStart)))
  {
    hide Step, MatchHunkHeader, HeaderText, AddedNumbers;
    var inside := OpenHunk(open, h, announced);
    ReadBody(inside, body);
    s := Read(inside, PrintBody(body)).value;
    ReadAppend(open, [HeaderText(h, announced)], PrintBody(body));
  }

  lemma RecordDamaged(files: seq<FileDiff>, f: FileDiff, h: Hunk, body: seq<BodyLine>)
    requires f.Patched?
    ensures ChangedByFile(f.(hunks := f.hunks + [h.(body := body)]), Changed(files, map[]))
         == Record(ChangedByFile(f, Changed(files, map[])), Replace(f.path, '\\', '/'), AddedNumbers(body, h.newStart))
  {
    HunksNumbersAppend(f.hunks, h.(body := body));
    RecordTwice(Changed(files, map[]), Replace(f.path, '\\', '/'), HunksNumbers(f.hunks), AddedNumbers(body, h.newStart));
  }

  lemma {:induction false} HunksNumbersAppend(hunks: seq<Hunk>, h: Hunk)
    ensures HunksNumbers(hunks + [h]) == HunksNumbers(hunks) + AddedNumbers(h.body, h.newStart)
  {
    if hunks == [] {
      assert hunks + [h] == [h] && [h][1..] == [];
    } else {
      assert (hunks + [h])[1..] == hunks[1..] + [h];
      HunksNumbersAppend(hunks[1..], h);
    }
  }

  /** A diff cut inside a hunk is accepted exactly when the cut drops none of the hunk's new lines. */
  lemma CutInsideHunk(files: seq<FileDiff>, f: FileDiff, h: Hunk, k: nat)
    requires WellFormed(files) && WellFormed([f]) && f.Patched? && k <= |h.body|
    ensures ReadDiff(PrintOpen(files, f) + PrintDamaged(h, NewCount(h.body), h.body[..k])).Ok?
       <==> NewCount(h.body[..k]) == NewCount(h.body)
  {
    NewCountPrefix(h.body, k);
    var s := ReadDamaged(files, f, h, NewCount(h.body), h.body[..k]);
  }

  lemma {:induction false} NewCountPrefix(body: seq<BodyLine>, k: nat)
    requires k <= |body|
    ensures NewCount(body[..k]) <= NewCount(body)
  {
    if k > 0 {
      assert body[..k][1..] == body[1..][..k - 1];
      NewCountPrefix(body[1..], k - 1);
    }
  }

  /** A hunk with missing lines is rejected when another hunk of the same file follows. */
  lemma DamagedBeforeHunk(files: seq<FileDiff>, f: FileDiff, h: Hunk, announced: nat, body: seq<BodyLine>,
                          later: seq<Hunk>)
    requires WellFormed(files) && WellFormed([f]) && f.Patched? && NewCount(body) <= announced && later != []
    ensures ReadDiff(PrintOpen(files, f) + PrintDamaged(h, announced, body) + PrintHunks(later)).Ok?
       <==> NewCount(body) == announced
  {
    var s := ReadDamaged(files, f, h, announced, body);
    ReadAppend(START, PrintOpen(files, f) + PrintDamaged(h, announced, body), PrintHunks(later));
    if NewCount(body) == announced {
      ReadHunks(s, later);
    } else {
      MatchHeaderText(later[0], NewCount(later[0].body));
      assert PrintHunks(later)[0] == HeaderText(later[0], NewCount(later[0].body));
    }
  }

  /** The lines after which a damaged hunk may be mistaken: the start of the next patched file. */
  lemma SwallowFileHead(s: Reader, f: FileDiff) returns (swallowed: Reader)
    requires s.currentFile.Some? && s.newLine.Some? && s.hunkStarted && s.parsed < s.expected
    requires f.Patched? && WellFormed([f])
    ensures swallowed == s.(newLine := Some(s.newLine.value + 1), parsed := s.parsed + 1,
                            changed := Record(s.changed, s.currentFile.value, {s.newLine.value}))
    ensures Read(s, f.prelude + ["+++ b/" + f.path]) == Ok(swallowed)
  {
    var line: string := "+++ b/" + f.path;
    assert [f][0] == f;
    ReadPrelude(s, f.prelude);
    ReadAppend(s, f.prelude, [line]);
    assert line[0] == '+';
    ReadOne(s, line);
    swallowed := Step(s, line).value;
  }

  /**
   When another file follows, a hunk with missing lines is rejected unless exactly one line is missing:
   then the next file's header is taken for that line.
   */
  lemma DamagedBeforeFile(files: seq<FileDiff>, f: FileDiff, h: Hunk, announced: nat, body: seq<BodyLine>,
                          next: FileDiff, later: seq<FileDiff>)
    requires WellFormed(files) && WellFormed([f]) && f.Patched? && NewCount(body) <= announced
    requires next.Patched? && next.hunks != [] && WellFormed([next]) && WellFormed(later)
    ensures ReadDiff(PrintOpen(files, f) + PrintDamaged(h, announced, body) + PrintDiff([next] + later)).Ok?
       <==> announced <= NewCount(body) + 1
  {
    var s := ReadDamaged(files, f, h, announced, body);
    var rest := PrintDiff([next] + later);
    ReadAppend(START, PrintOpen(files, f) + PrintDamaged(h, announced, body), rest);
    assert ([next] + later)[0] == next && ([next] + later)[1..] == later;
    ReadAppend(s, PrintFile(next), PrintDiff(later));
    if NewCount(body) == announced {
      ReadFile(s, next);
      ReadFiles(Read(s, PrintFile(next)).value, later);
    } else {
      var swallowed := SwallowFileHead(s, next);
      ReadAppend(s, next.prelude + ["+++ b/" + next.path], PrintHunks(next.hunks));
      if announced == NewCount(body) + 1 {
        ReadHunks(swallowed, next.hunks);
        ReadFiles(Read(swallowed, PrintHunks(next.hunks)).value, later);
      } else {
        MatchHeaderText(next.hunks[0], NewCount(next.hunks[0].body));
        assert PrintHunks(next.hunks)[0] == HeaderText(next.hunks[0], NewCount(next.hunks[0].body));
      }
    }
  }

  /**
   In that case the changes are misattributed: the next file's added lines, and one line that does not
   exist, are recorded for the damaged file.
   */
  lemma SwallowedHeaderMisattributes(files: seq<FileDiff>, f: FileDiff, h: Hunk, body: seq<BodyLine>, next: FileDiff)
    requires WellFormed(files) && WellFormed([f]) && f.Patched?
    requires next.Patched? && next.hunks != [] && WellFormed([next])
    ensures var file := Replace(f.path, '\\', '/');
            var damaged := ChangedByFile(f.(hunks := f.hunks + [h.(body := body)]), Changed(files, map[]));
            var text := PrintOpen(files, f) + PrintDamaged(h, NewCount(body) + 1, body) + PrintDiff([next]);
            ReadDiff(text) == Ok(Record(damaged, file, {h.newStart + NewCount(body)} + HunksNumbers(next.hunks)))
  {
    var s := ReadDamaged(files, f, h, NewCount(body) + 1, body);
    ReadAppend(START, PrintOpen(files, f) + PrintDamaged(h, NewCount(body) + 1, body), PrintDiff([next]));
    assert [next][1..] == [] && PrintDiff([next]) == PrintFile(next) + [] == PrintFile(next);
    var swallowed := SwallowFileHead(s, next);
    ReadAppend(s, next.prelude + ["+++ b/" + next.path], PrintHunks(next.hunks));
    ReadHunks(swallowed, next.hunks);
    var file := Replace(f.path, '\\', '/');
    RecordTwice(s.changed, file, {s.newLine.value}, HunksNumbers(next.hunks));
  }
}
