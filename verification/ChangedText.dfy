/**
 The unified-diff reader of scripts/changed_coverage_gate.py on the text that git prints.  The text is cut with
 `str.splitlines`, which also cuts inside a line at boundaries that git prints verbatim.
 */
module ChangedText {
  import opened Wrappers
  import opened Text
  import opened TextLines
  import opened ChangedLines

  function DiffText(files: seq<FileDiff>): string {
    TextOf(PrintDiff(files))
  }

  /** Paths and the lines around them are printed without boundaries (git quotes such paths). */
  predicate TextFormed(files: seq<FileDiff>) {
    && WellFormed(files)
    && forall i | 0 <= i < |files| ::
         && (forall j | 0 <= j < |files[i].prelude| :: NoBoundary(files[i].prelude[j]))
         && (files[i].Patched? ==> NoBoundary(files[i].path))
  }

  // ----- what stands after a boundary inside a text -----

  /** The reader passes over every piece that a boundary inside the text cuts off. */
  predicate Harmless(text: string) {
    forall i | 0 <= i < |Extras(text)| :: IsPreludeLine(Extras(text)[i])
  }

  predicate HarmlessHunk(h: Hunk) {
    Harmless(h.heading) && forall i | 0 <= i < |h.body| :: Harmless(h.body[i].text)
  }

  predicate HarmlessHunks(hunks: seq<Hunk>) {
    forall i | 0 <= i < |hunks| :: HarmlessHunk(hunks[i])
  }

  predicate HarmlessDiff(files: seq<FileDiff>) {
    forall i | 0 <= i < |files| && files[i].Patched? :: HarmlessHunks(files[i].hunks)
  }

  /** Neither a hunk header, nor what could be taken for a file header. */
  predicate NotHeader(line: string) {
    !StartsWith(line, "@@") && !StartsWith(line, "+++ b/")
  }

  predicate PlainText(text: string) {
    forall i | 0 <= i < |Extras(text)| :: NotHeader(Extras(text)[i])
  }

  /** No piece that is cut off, and no added line, looks like a header. */
  predicate PlainHunk(h: Hunk) {
    && PlainText(h.heading)
    && forall i | 0 <= i < |h.body| ::
         PlainText(h.body[i].text) && (h.body[i].Added? ==> !StartsWith(h.body[i].text, "++ b/"))
  }

  predicate PlainHunks(hunks: seq<Hunk>) {
    forall i | 0 <= i < |hunks| :: PlainHunk(hunks[i])
  }

  predicate PlainDiff(files: seq<FileDiff>) {
    forall i | 0 <= i < |files| && files[i].Patched? :: PlainHunks(files[i].hunks)
  }

  // ----- a hunk with too many new lines -----

  /** More new lines were met than the hunk announced. */
  predicate Overfull(s: Reader) {
    s.currentFile.Some? && s.newLine.Some? && s.hunkStarted && s.parsed > s.expected
  }

  predicate Doomed(r: Result<Reader, DiffError>) {
    r.Err? || Overfull(r.value)
  }

  /** Once a hunk has too many new lines the diff is rejected, whatever follows. */
  lemma {:induction false} OverfullRejected(s: Reader, lines: seq<string>)
    requires Overfull(s)
    ensures Doomed(Read(s, lines)) && Finish(Read(s, lines)).Err?
    decreases lines
  {
    if lines == [] {
      assert Read(s, lines) == Ok(s);
    } else {
      OverfullStep(s, lines[0]);
      if Step(s, lines[0]).Ok? {
        OverfullRejected(Step(s, lines[0]).value, lines[1..]);
      }
    }
  }

  lemma OverfullStep(s: Reader, line: string)
    requires Overfull(s)
    ensures Doomed(Step(s, line))
  {
    hide MatchHunkHeader;
  }

  lemma DoomedThen(s: Reader, a: seq<string>, b: seq<string>)
    requires Doomed(Read(s, a))
    ensures Doomed(Read(s, a + b))
  {
    ReadAppend(s, a, b);
    if Read(s, a).Ok? {
      OverfullRejected(Read(s, a).value, b);
    }
  }

  // ----- counting the new lines among pieces -----

  predicate IsNewLine(line: string) {
    StartsWith(line, "+") || StartsWith(line, " ")
  }

  function Count(lines: seq<string>): nat {
    if lines == [] then 0 else (if IsNewLine(lines[0]) then 1 else 0) + Count(lines[1..])
  }

  lemma {:induction false} CountAppend(a: seq<string>, b: seq<string>)
    ensures Count(a + b) == Count(a) + Count(b)
  {
    if a == [] {
      assert a + b == b;
    } else {
      assert (a + b)[1..] == a[1..] + b;
      CountAppend(a[1..], b);
    }
  }

  /** Among lines that are no headers, none is counted exactly when the reader passes over all of them. */
  lemma {:induction false} CountNoneIff(lines: seq<string>)
    requires forall i | 0 <= i < |lines| :: NotHeader(lines[i])
    ensures Count(lines) == 0 <==> forall i | 0 <= i < |lines| :: IsPreludeLine(lines[i])
  {
    if lines == [] {
      assert Count(lines) == 0;
    } else {
      assert NotHeader(lines[0]);
      forall i | 0 <= i < |lines[1..]|
        ensures NotHeader(lines[1..][i])
      {
        assert lines[1..][i] == lines[i + 1];
      }
      CountNoneIff(lines[1..]);
      assert forall i | 1 <= i < |lines| :: lines[i] == lines[1..][i - 1];
    }
  }

  predicate InHunk(s: Reader) {
    s.currentFile.Some? && s.newLine.Some? && s.hunkStarted
  }

  /** Inside a hunk, lines that are no headers are counted by their first character. */
  lemma {:induction false} ReadCounted(s: Reader, lines: seq<string>) returns (next: Reader)
    requires InHunk(s) && forall i | 0 <= i < |lines| :: NotHeader(lines[i])
    ensures Read(s, lines) == Ok(next) && InHunk(next)
    ensures next.expected == s.expected && next.parsed == s.parsed + Count(lines)
    decreases lines
  {
    hide Step;
    if lines == [] {
      next := s;
    } else {
      assert NotHeader(lines[0]);
      forall i | 0 <= i < |lines[1..]|
        ensures NotHeader(lines[1..][i])
      {
        assert lines[1..][i] == lines[i + 1];
      }
      var first := StepCounted(s, lines[0]);
      next := ReadCounted(first, lines[1..]);
    }
  }

  lemma StepCounted(s: Reader, line: string) returns (next: Reader)
    requires InHunk(s) && NotHeader(line)
    ensures Step(s, line) == Ok(next) && InHunk(next)
    ensures next.expected == s.expected && next.parsed == s.parsed + if IsNewLine(line) then 1 else 0
  {
    assert MatchHunkHeader(line).None? by {
      assert StartsWith(line, "@@ -") ==> StartsWith(line, "@@");
    }
    assert StartsWith(line, "+") ==> line[0] == '+';
    assert StartsWith(line, " ") ==> line[0] == ' ';
    hide MatchHunkHeader;
    next := Step(s, line).value;
  }

  // ----- the pieces of a hunk -----

  /** A body line with another text. */
  function WithText(line: BodyLine, text: string): BodyLine {
    match line
    case Added(_) => Added(text)
    case Removed(_) => Removed(text)
    case Context(_) => Context(text)
    case NoNewline(_) => NoNewline(text)
  }

  lemma BodyPieces(line: BodyLine)
    ensures Pieces(line.Print()) == [WithText(line, Pieces(line.text)[0]).Print()] + Extras(line.text)
  {
    hide Pieces;
    match line {
      case Added(t) => PiecesAfter("+", t);
      case Removed(t) => PiecesAfter("-", t);
      case Context(t) => PiecesAfter(" ", t);
      case NoNewline(t) => PiecesAfter("\\", t);
    }
  }

  lemma PlainFirst(line: BodyLine)
    requires line.Added? ==> !StartsWith(line.text, "++ b/")
    ensures NotHeader(WithText(line, Pieces(line.text)[0]).Print())
  {
    var first := Pieces(line.text)[0];
    FirstPiecePrefix(line.text);
    hide Pieces;
    var text := WithText(line, first).Print();
    assert text[0] == match line case Added(_) => '+' case Removed(_) => '-' case Context(_) => ' ' case NoNewline(_) => '\\';
    DropPlus(first);
    assert StartsWith(first, "++ b/") ==> StartsWith(line.text, "++ b/");
  }

  lemma DropPlus(text: string)
    ensures StartsWith("+" + text, "+++ b/") ==> StartsWith(text, "++ b/")
  {
    assert ("+" + text)[1..] == text && "+++ b/"[1..] == "++ b/";
  }

  lemma FirstPiecePrefix(line: string)
    ensures Pieces(line)[0] <= line
  {
    var t := line + "\n";
    assert IsBoundary(t[|line|]);
    var i := FirstBoundary(t);
    assert t[..i] <= line;
  }

  lemma {:induction false} NoBoundaryDigits(n: nat)
    ensures NoBoundary(Digits(n))
  {
    assert forall i | 0 <= i < |Digits(n)| :: IsDigit(Digits(n)[i]);
  }

  /** The header of a hunk before its heading. */
  function HeaderHead(h: Hunk, newCount: nat): string {
    HeaderText(h.(heading := ""), newCount)
  }

  lemma RangePlain(start: nat, count: nat)
    ensures NoBoundary(RangeText(start, count))
  {
    hide Digits;
    NoBoundaryDigits(start);
    NoBoundaryDigits(count);
  }

  lemma HeaderHeadPlain(h: Hunk, newCount: nat)
    ensures NoBoundary(HeaderHead(h, newCount))
    ensures HeaderText(h, newCount) == HeaderHead(h, newCount) + h.heading
  {
    hide RangeText, OldCount;
    RangePlain(h.oldStart, OldCount(h.body));
    RangePlain(h.newStart, newCount);
    var before := "@@ -" + RangeText(h.oldStart, OldCount(h.body)) + " +" + RangeText(h.newStart, newCount) + " @@";
    assert before + "" == before;
  }

  lemma HeaderPieces(h: Hunk, newCount: nat)
    ensures Pieces(HeaderText(h, newCount))
         == [HeaderText(h.(heading := Pieces(h.heading)[0]), newCount)] + Extras(h.heading)
  {
    hide Pieces, HeaderText;
    HeaderHeadPlain(h, newCount);
    PiecesAfter(HeaderHead(h, newCount), h.heading);
    HeaderHeadPlain(h.(heading := Pieces(h.heading)[0]), newCount);
    assert HeaderHead(h.(heading := Pieces(h.heading)[0]), newCount) == HeaderHead(h, newCount);
  }

  /** With harmless texts the pieces of a body are read like the body itself. */
  lemma {:induction false} ReadCutBody(s: Reader, body: seq<BodyLine>)
    requires InHunk(s) && Known(s.changed, s.currentFile.value) && s.parsed + NewCount(body) <= s.expected
    requires forall i | 0 <= i < |body| :: Harmless(body[i].text)
    ensures Read(s, AllPieces(PrintBody(body))) == Ok(s.(
              newLine := Some(s.newLine.value + NewCount(body)),
              parsed := s.parsed + NewCount(body),
              changed := Record(s.changed, s.currentFile.value, AddedNumbers(body, s.newLine.value))))
    decreases body
  {
    hide Step, Pieces, Harmless;
    var file, n := s.currentFile.value, s.newLine.value;
    if body == [] {
      RecordNothing(s.changed, file);
    } else {
      var line := body[0];
      var first := WithText(line, Pieces(line.text)[0]);
      var next := StepBody(s, first);
      BodyPieces(line);
      HarmlessExtras(next, line.text);
      assert PrintBody(body)[0] == line.Print() && PrintBody(body)[1..] == PrintBody(body[1..]);
      ReadAppend(s, [first.Print()], Extras(line.text));
      ReadOne(s, first.Print());
      ReadAppend(s, Pieces(line.Print()), AllPieces(PrintBody(body[1..])));
      assert forall i | 0 <= i < |body[1..]| :: body[1..][i] == body[i + 1];
      ReadCutBody(next, body[1..]);
      if line.Added? {
        RecordTwice(s.changed, file, {n}, AddedNumbers(body[1..], n + 1));
      }
    }
  }

  lemma HarmlessExtras(s: Reader, text: string)
    requires Harmless(text)
    ensures Read(s, Extras(text)) == Ok(s)
  {
    hide Extras;
    ReadPrelude(s, Extras(text));
  }

  function PrintHunk(h: Hunk): seq<string> {
    [HeaderText(h, NewCount(h.body))] + PrintBody(h.body)
  }

  lemma HunkPieces(h: Hunk)
    ensures AllPieces(PrintHunk(h))
         == [HeaderText(h.(heading := Pieces(h.heading)[0]), NewCount(h.body))]
            + Extras(h.heading) + AllPieces(PrintBody(h.body))
  {
    hide Pieces, HeaderText;
    HeaderPieces(h, NewCount(h.body));
    AllPiecesAppend([HeaderText(h, NewCount(h.body))], PrintBody(h.body));
    AllPiecesOne(HeaderText(h, NewCount(h.body)));
  }

  lemma ReadCutHunk(s: Reader, h: Hunk)
    requires Ready(s) && s.currentFile.Some? && Known(s.changed, s.currentFile.value) && HarmlessHunk(h)
    ensures var r := Read(s, AllPieces(PrintHunk(h)));
            && r.Ok? && Ready(r.value) && r.value.currentFile == s.currentFile
            && r.value.changed == Record(s.changed, s.currentFile.value, AddedNumbers(h.body, h.newStart))
  {
    hide Step, HeaderText, Pieces, Extras, Harmless;
    var cut := h.(heading := Pieces(h.heading)[0]);
    HunkPieces(h);
    var inside := OpenHunk(s, cut, NewCount(h.body));
    var head := [HeaderText(cut, NewCount(h.body))];
    HarmlessExtras(inside, h.heading);
    ReadAppend(s, head, Extras(h.heading));
    ReadAppend(s, head + Extras(h.heading), AllPieces(PrintBody(h.body)));
    ReadCutBody(inside, h.body);
  }

  // ----- a harmful piece -----

  /** The pieces of a body hold its own new lines and those among the pieces that are cut off. */
  lemma {:induction false} CountBody(body: seq<BodyLine>)
    requires forall i | 0 <= i < |body| :: PlainText(body[i].text) && (body[i].Added? ==> !StartsWith(body[i].text, "++ b/"))
    ensures forall i | 0 <= i < |AllPieces(PrintBody(body))| :: NotHeader(AllPieces(PrintBody(body))[i])
    ensures Count(AllPieces(PrintBody(body))) >= NewCount(body)
    ensures Count(AllPieces(PrintBody(body))) == NewCount(body) <==> forall i | 0 <= i < |body| :: Harmless(body[i].text)
    decreases body
  {
    hide Pieces, Extras, NotHeader, PlainText, Harmless;
    if body == [] {
      assert AllPieces(PrintBody(body)) == [];
    } else {
      var line := body[0];
      var first := WithText(line, Pieces(line.text)[0]).Print();
      assert PlainText(line.text);
      assert PrintBody(body)[0] == line.Print() && PrintBody(body)[1..] == PrintBody(body[1..]);
      BodyPieces(line);
      PlainFirst(line);
      assert forall i | 0 <= i < |body[1..]| :: body[1..][i] == body[i + 1];
      CountBody(body[1..]);
      HarmlessCount(line.text);
      var rest := AllPieces(PrintBody(body[1..]));
      assert AllPieces(PrintBody(body)) == ([first] + Extras(line.text)) + rest;
      CountAppend([first] + Extras(line.text), rest);
      CountAppend([first], Extras(line.text));
      CountFirst(line, Pieces(line.text)[0]);
      assert (forall i | 0 <= i < |body| :: Harmless(body[i].text)) <==>
             Harmless(line.text) && forall i | 0 <= i < |body[1..]| :: Harmless(body[1..][i].text) by {
        assert forall i | 1 <= i < |body| :: body[i] == body[1..][i - 1];
      }
    }
  }

  lemma HarmlessCount(text: string)
    requires PlainText(text)
    ensures forall i | 0 <= i < |Extras(text)| :: NotHeader(Extras(text)[i])
    ensures Count(Extras(text)) == 0 <==> Harmless(text)
  {
    hide Extras;
    CountNoneIff(Extras(text));
  }

  lemma CountFirst(line: BodyLine, text: string)
    ensures Count([WithText(line, text).Print()]) == if line.Added? || line.Context? then 1 else 0
  {
    var printed := WithText(line, text).Print();
    var one: seq<string> := [printed];
    assert one[1..] == [];
    assert printed[0] == match line case Added(_) => '+' case Removed(_) => '-' case Context(_) => ' ' case NoNewline(_) => '\\';
  }

  lemma ReadHarmfulHunk(s: Reader, h: Hunk)
    requires Ready(s) && s.currentFile.Some? && PlainHunk(h) && !HarmlessHunk(h)
    ensures Doomed(Read(s, AllPieces(PrintHunk(h))))
  {
    hide Step, HeaderText, Pieces, Extras, Harmless, NotHeader, PlainText;
    var cut := h.(heading := Pieces(h.heading)[0]);
    HunkPieces(h);
    var inside := OpenHunk(s, cut, NewCount(h.body));
    var head, extras, body := [HeaderText(cut, NewCount(h.body))], Extras(h.heading), AllPieces(PrintBody(h.body));
    HarmlessCount(h.heading);
    CountBody(h.body);
    CountAppend(extras, body);
    var last := ReadCounted(inside, extras + body);
    ReadAppend(s, head, extras + body);
    assert head + (extras + body) == head + extras + body;
  }

  // ----- whole diffs -----

  /** Hunks whose texts are harmless read like their lines; one that is not, with no header in sight, ruins the diff. */
  lemma {:induction false} ReadCutHunks(s: Reader, hunks: seq<Hunk>)
    requires Ready(s) && s.currentFile.Some? && Known(s.changed, s.currentFile.value)
    ensures var r := Read(s, AllPieces(PrintHunks(hunks)));
            && (HarmlessHunks(hunks) ==>
                  && r.Ok? && Ready(r.value) && r.value.currentFile == s.currentFile
                  && r.value.changed == Record(s.changed, s.currentFile.value, HunksNumbers(hunks)))
            && (!HarmlessHunks(hunks) && PlainHunks(hunks) ==> Doomed(r))
    decreases hunks
  {
    hide HarmlessHunk, PlainHunk, Step, AddedNumbers;
    var file := s.currentFile.value;
    if hunks == [] {
      RecordNothing(s.changed, file);
    } else {
      var first, rest := AllPieces(PrintHunk(hunks[0])), AllPieces(PrintHunks(hunks[1..]));
      PrintHunksFirst(hunks);
      AllPiecesAppend(PrintHunk(hunks[0]), PrintHunks(hunks[1..]));
      ReadAppend(s, first, rest);
      assert forall i | 1 <= i < |hunks| :: hunks[i] == hunks[1..][i - 1];
      if HarmlessHunk(hunks[0]) {
        ReadCutHunk(s, hunks[0]);
        var next := Read(s, first).value;
        ReadCutHunks(next, hunks[1..]);
        RecordTwice(s.changed, file, AddedNumbers(hunks[0].body, hunks[0].newStart), HunksNumbers(hunks[1..]));
        assert HarmlessHunks(hunks) <==> HarmlessHunks(hunks[1..]);
        assert PlainHunks(hunks) ==> PlainHunks(hunks[1..]);
      } else if PlainHunk(hunks[0]) {
        ReadHarmfulHunk(s, hunks[0]);
        DoomedThen(s, first, rest);
      }
    }
  }

  lemma PrintHunksFirst(hunks: seq<Hunk>)
    requires hunks != []
    ensures PrintHunks(hunks) == PrintHunk(hunks[0]) + PrintHunks(hunks[1..])
  {
  }

  lemma FilePieces(f: FileDiff)
    requires TextFormed([f]) && f.Patched?
    ensures AllPieces(PrintFile(f)) == f.prelude + ["+++ b/" + f.path] + AllPieces(PrintHunks(f.hunks))
  {
    assert [f][0] == f;
    var head := f.prelude + ["+++ b/" + f.path];
    assert NoBoundary("+++ b/" + f.path);
    SplitPlainText(head);
    AllPiecesAppend(head, PrintHunks(f.hunks));
  }

  lemma ReadCutFile(s: Reader, f: FileDiff)
    requires Ready(s) && TextFormed([f])
    ensures var r := Read(s, AllPieces(PrintFile(f)));
            && ((f.Patched? ==> HarmlessHunks(f.hunks)) ==>
                  r.Ok? && Ready(r.value) && r.value.changed == ChangedByFile(f, s.changed))
            && (f.Patched? && !HarmlessHunks(f.hunks) && PlainHunks(f.hunks) ==> Doomed(r))
  {
    hide HarmlessHunks, PlainHunks, Step;
    assert [f][0] == f;
    match f {
      case HeadersOnly(prelude) =>
        SplitPlainText(prelude);
        ReadPrelude(s, prelude);
      case Patched(prelude, path, hunks) =>
        var file := Replace(path, '\\', '/');
        var inside := ReadFileHead(s, f);
        FilePieces(f);
        ReadAppend(s, prelude + ["+++ b/" + path], AllPieces(PrintHunks(hunks)));
        ReadCutHunks(inside, hunks);
        RecordTwice(s.changed, file, {}, HunksNumbers(hunks));
        assert {} + HunksNumbers(hunks) == HunksNumbers(hunks);
    }
  }

  lemma {:induction false} ReadCutFiles(s: Reader, files: seq<FileDiff>)
    requires Ready(s) && TextFormed(files)
    ensures var r := Read(s, AllPieces(PrintDiff(files)));
            && (HarmlessDiff(files) ==> r.Ok? && Ready(r.value) && r.value.changed == Changed(files, s.changed))
            && (!HarmlessDiff(files) && PlainDiff(files) ==> Doomed(r))
    decreases files
  {
    hide HarmlessHunks, PlainHunks, Step, NoBoundary, IsPreludeLine, PrintFile, ChangedByFile;
    if files == [] {
      assert Read(s, AllPieces(PrintDiff(files))) == Ok(s);
    } else {
      var f, first, rest := files[0], AllPieces(PrintFile(files[0])), AllPieces(PrintDiff(files[1..]));
      TextFormedParts(files);
      AllPiecesAppend(PrintFile(f), PrintDiff(files[1..]));
      ReadAppend(s, first, rest);
      ReadCutFile(s, f);
      assert forall i | 1 <= i < |files| :: files[i] == files[1..][i - 1];
      if f.Patched? && !HarmlessHunks(f.hunks) {
        if PlainHunks(f.hunks) {
          DoomedThen(s, first, rest);
        }
      } else {
        ReadCutFiles(Read(s, first).value, files[1..]);
        assert HarmlessDiff(files) <==> HarmlessDiff(files[1..]);
        assert PlainDiff(files) ==> PlainDiff(files[1..]);
      }
    }
  }

  lemma TextFormedParts(files: seq<FileDiff>)
    requires TextFormed(files) && files != []
    ensures TextFormed([files[0]]) && TextFormed(files[1..])
  {
    hide NoBoundary, IsPreludeLine;
    forall i | 0 <= i < |files[1..]|
      ensures files[1..][i] == files[i + 1]
    {
    }
  }

  /**
   Reading the text of a printed diff gives back exactly what it changes when nothing harmful stands after a boundary
   inside a line; in particular when no text has an inner boundary (`PlainPiece`, `ReturnPiece`).
   */
  lemma ReadPrintedText(files: seq<FileDiff>)
    requires TextFormed(files) && HarmlessDiff(files)
    ensures var r := ReadDiff(SplitLines(DiffText(files)));
            r.Ok? && Records(files, r.value) && r.value == Changed(files, map[])
  {
    SplitText(PrintDiff(files));
    ChangedRecords(files);
    ReadCutFiles(START, files);
  }

  /**
   As long as nothing cut off looks like a header, a printed diff is accepted exactly when every piece that is cut off
   is harmless: it starts with neither "+" nor a blank.
   */
  lemma InnerBoundariesIff(files: seq<FileDiff>)
    requires TextFormed(files) && PlainDiff(files)
    ensures ReadDiff(SplitLines(DiffText(files))).Ok? <==> HarmlessDiff(files)
  {
    SplitText(PrintDiff(files));
    ReadCutFiles(START, files);
    if !HarmlessDiff(files) {
      var r := Read(START, AllPieces(PrintDiff(files)));
      if r.Ok? {
        OverfullRejected(r.value, []);
      }
    }
  }

  /** A text without boundaries, or with just a final carriage return, is harmless. */
  lemma UncutIsHarmless(text: string)
    requires NoBoundary(text) || (text != "" && text[|text| - 1] == '\r' && NoBoundary(text[..|text| - 1]))
    ensures Harmless(text) && PlainText(text)
  {
    hide Pieces;
    if NoBoundary(text) {
      PlainPiece(text);
    } else {
      var line := text[..|text| - 1];
      assert text == line + "\r";
      ReturnPiece(line);
    }
  }

  // ----- harmful boundaries -----

  lemma TwoPieces(first: string, sep: char, second: string)
    requires NoBoundary(first) && NoBoundary(second) && IsBoundary(sep) && sep != '\r'
    ensures Pieces(first + [sep] + second) == [first, second]
    ensures Extras(first + [sep] + second) == [second]
  {
    hide SplitLines;
    assert Separates([sep], second + "\n");
    SplitParts(first, [sep], second + "\n");
    PlainPiece(second);
    assert first + [sep] + (second + "\n") == (first + [sep] + second) + "\n";
  }

  /** A diff of one file that adds the given lines from `start` on. */
  function Addition(path: string, start: nat, body: seq<BodyLine>): seq<FileDiff> {
    [Patched([], path, [Hunk(0, start, "", body)])]
  }

  lemma AdditionFormed(path: string, start: nat, body: seq<BodyLine>)
    requires NoBoundary(path)
    ensures TextFormed(Addition(path, start, body))
    ensures HarmlessDiff(Addition(path, start, body)) <==> forall i | 0 <= i < |body| :: Harmless(body[i].text)
    ensures PlainDiff(Addition(path, start, body)) <==>
            forall i | 0 <= i < |body| :: PlainText(body[i].text) && (body[i].Added? ==> !StartsWith(body[i].text, "++ b/"))
  {
    hide Harmless, PlainText;
    UncutIsHarmless("");
    var h := Hunk(0, start, "", body);
    assert HarmlessHunk(h) <==> forall i | 0 <= i < |body| :: Harmless(body[i].text);
    assert HarmlessHunks([h]) <==> HarmlessHunk(h) by {
      assert [h][0] == h;
    }
    assert PlainHunks([h]) <==> PlainHunk(h) by {
      assert [h][0] == h;
    }
    var files := Addition(path, start, body);
    assert files[0].Patched? && files[0].hunks == [h];
  }

  /** One added line, such as `a = "<U+2028> b"`, whose second half starts with a blank or "+" is rejected. */
  lemma InnerBlankRejected(path: string, start: nat, first: string, sep: char, second: string)
    requires NoBoundary(path) && NoBoundary(first) && NoBoundary(second) && IsBoundary(sep) && sep != '\r'
    requires IsNewLine(second) && !StartsWith(second, "+++ b/") && !StartsWith(first, "++ b/")
    ensures ReadDiff(SplitLines(DiffText(Addition(path, start, [Added(first + [sep] + second)])))).Err?
  {
    var text := first + [sep] + second;
    var body := [Added(text)];
    HarmfulText(first, sep, second);
    hide *;
    AdditionFormed(path, start, body);
    assert body[0].text == text;
    InnerBoundariesIff(Addition(path, start, body));
  }

  lemma HarmfulText(first: string, sep: char, second: string)
    requires NoBoundary(first) && NoBoundary(second) && IsBoundary(sep) && sep != '\r'
    requires IsNewLine(second) && !StartsWith(second, "+++ b/") && !StartsWith(first, "++ b/")
    ensures var text := first + [sep] + second;
            !Harmless(text) && PlainText(text) && !StartsWith(text, "++ b/")
  {
    hide Pieces;
    var text := first + [sep] + second;
    TwoPieces(first, sep, second);
    assert Extras(text)[0] == second;
    assert StartsWith(second, "+") ==> second[0] == '+';
    assert StartsWith(second, " ") ==> second[0] == ' ';
    assert NotHeader(second) && !IsPreludeLine(second);
    PrefixOfFirst(first, [sep] + second, sep);
    assert text == first + ([sep] + second);
  }

  lemma PrefixOfFirst(first: string, rest: string, sep: char)
    requires rest != "" && rest[0] == sep && IsBoundary(sep)
    ensures StartsWith(first + rest, "++ b/") ==> StartsWith(first, "++ b/")
  {
    var text := first + rest;
    if |first| < 6 {
      assert text[|first|] == sep;
      assert NoBoundary("++ b/");
    } else {
      assert text[..6] == first[..6];
    }
  }

  /**
   Without that condition acceptance means nothing: a piece that starts with "+" fills the count of its hunk, so that
   the added line `++ b/x.py` after it is taken for a file header.
   */
  lemma PieceFillsCount(path: string, start: nat, first: string, sep: char, second: string, other: string)
    requires NoBoundary(path) && NoBoundary(first) && NoBoundary(second) && NoBoundary(other) && IsBoundary(sep) && sep != '\r'
    ensures var file, fake := Replace(path, '\\', '/'), Replace(other, '\\', '/');
            ReadDiff(SplitLines(DiffText(Addition(path, start, [Added(first + [sep] + "+" + second), Added("++ b/" + other)]))))
            == Ok(Record(Record(Record(map[], file, {}), file, {start, start + 1}), fake, {}))
  {
    hide *;
    var body := [Added(first + [sep] + "+" + second), Added("++ b/" + other)];
    var lines := ["+" + first, "+" + second, "+++ b/" + other];
    var file, fake := Replace(path, '\\', '/'), Replace(other, '\\', '/');
    FillingPieces(first, sep, second, other);
    TwoAdded(body[0].text, body[1].text);
    var open := ReadAddition(path, start, body);
    ReadFilled(open, first, second, other);
    RecordTwice(Record(map[], file, {}), file, {start}, {start + 1});
    assert {start} + {start + 1} == {start, start + 1};
    FinishedAt(Read(open, lines).value);
  }

  lemma FinishedAt(s: Reader)
    requires s.expected == s.parsed
    ensures Finish(Ok(s)) == Ok(s.changed)
  {
  }

  /** Reading an addition up to its body. */
  lemma ReadAddition(path: string, start: nat, body: seq<BodyLine>) returns (open: Reader)
    requires NoBoundary(path)
    ensures InHunk(open)
    ensures open == Reader(Some(Replace(path, '\\', '/')), Some(start), NewCount(body), 0, true,
                           Record(map[], Replace(path, '\\', '/'), {}))
    ensures ReadDiff(SplitLines(DiffText(Addition(path, start, body)))) == Finish(Read(open, AllPieces(PrintBody(body))))
  {
    hide Pieces, AllPieces, Step, HeaderText, Digits, NewCount;
    var h, f := Hunk(0, start, "", body), Addition(path, start, body)[0];
    AdditionFormed(path, start, body);
    AdditionPieces(path, start, body);
    SplitText(PrintDiff(Addition(path, start, body)));
    var head, rest := ["+++ b/" + path], AllPieces(PrintBody(body));
    assert [f][0] == f && f.prelude + head == head;
    var inside := ReadFileHead(START, f);
    open := OpenHunk(inside, h, NewCount(body));
    ReadAppend(START, head, [HeaderText(h, NewCount(body))] + rest);
    ReadAppend(inside, [HeaderText(h, NewCount(body))], rest);
  }

  lemma AdditionPieces(path: string, start: nat, body: seq<BodyLine>)
    requires NoBoundary(path)
    ensures AllPieces(PrintDiff(Addition(path, start, body)))
         == ["+++ b/" + path] + ([HeaderText(Hunk(0, start, "", body), NewCount(body))] + AllPieces(PrintBody(body)))
  {
    hide Pieces, AllPieces, HeaderText, NewCount, PrintBody;
    var h, files := Hunk(0, start, "", body), Addition(path, start, body);
    AdditionFormed(path, start, body);
    var f := files[0];
    assert files[1..] == [] && PrintDiff(files) == PrintFile(f) + [] == PrintFile(f);
    assert files == [f] && f.hunks == [h];
    FilePieces(f);
    PrintHunksFirst([h]);
    assert [h][1..] == [] && PrintHunk(h) + [] == PrintHunk(h);
    HunkPieces(h);
    UncutIsHarmless("");
    PlainPiece("");
    var head := ["+++ b/" + path];
    assert f.prelude + head == head;
    assert [HeaderText(h, NewCount(body))] + [] + AllPieces(PrintBody(body)) == [HeaderText(h, NewCount(body))] + AllPieces(PrintBody(body));
  }

  lemma TwoAdded(one: string, two: string)
    ensures PrintBody([Added(one), Added(two)]) == ["+" + one, "+" + two]
    ensures NewCount([Added(one), Added(two)]) == 2
  {
    var body := [Added(one), Added(two)];
    assert body[1..] == [Added(two)] && body[1..][1..] == [];
    assert PrintBody(body[1..]) == ["+" + two] + [];
    assert NewCount(body[1..]) == 1;
  }

  lemma FillingPieces(first: string, sep: char, second: string, other: string)
    requires NoBoundary(first) && NoBoundary(second) && NoBoundary(other) && IsBoundary(sep) && sep != '\r'
    ensures AllPieces(PrintBody([Added(first + [sep] + "+" + second), Added("++ b/" + other)]))
         == ["+" + first, "+" + second, "+++ b/" + other]
  {
    hide Pieces, PrintBody;
    var one, two := first + [sep] + "+" + second, "++ b/" + other;
    TwoAdded(one, two);
    assert "+" + one == ("+" + first) + [sep] + ("+" + second) && "+" + two == "+++ b/" + other;
    TwoPieces("+" + first, sep, "+" + second);
    PlainPiece("+++ b/" + other);
    AllPiecesAppend(["+" + one], ["+" + two]);
    AllPiecesOne("+" + one);
    AllPiecesOne("+" + two);
  }

  lemma ReadFilled(s: Reader, first: string, second: string, other: string)
    requires InHunk(s) && s.expected == 2 && s.parsed == 0
    ensures var file, fake, n := s.currentFile.value, Replace(other, '\\', '/'), s.newLine.value;
            Read(s, ["+" + first, "+" + second, "+++ b/" + other])
            == Ok(Reader(Some(fake), None, 0, 0, false, Record(Record(Record(s.changed, file, {n}), file, {n + 1}), fake, {})))
  {
    hide Step;
    var one := StepBody(s, Added(first));
    var two := StepBody(one, Added(second));
    var f := Patched([], other, []);
    var line := "+++ b/" + other;
    assert WellFormed([f]) && f.prelude + [line] == [line];
    var three := ReadFileHead(two, f);
    ReadOne(two, line);
    var lines := ["+" + first, "+" + second, line];
    assert lines[1..] == ["+" + second, line] && lines[1..][1..] == [line] && [line][1..] == [];
  }
}
