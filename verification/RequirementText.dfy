/** Requirements files as they are written: printed lines and include trees, read back by the readers. */
module RequirementText {
  import opened Wrappers
  import opened Text
  import opened TextLines
  import opened Packaging
  import opened Sorting
  import opened RequirementFiles

  // ----- printing -----

  /** A requirement as it is written, with the versions that its specifier pins. */
  datatype Written = Written(name: string, extras: seq<string>, specifier: string, pins: seq<string>)

  /** What may stand around a line: blanks before and after it, and a comment. */
  datatype Margin = Margin(before: string, after: string, comment: Option<string>)

  /** The parts of a file; an include brings the whole file that it names. */
  datatype Part =
    | Need(requirement: Written, margin: Margin)
    | Sub(long: bool, gap: string, target: string, file: File, margin: Margin)
    | Note(margin: Margin)
    | Flag(text: string, margin: Margin)
    | Junk(text: string, margin: Margin)

  datatype File = File(path: string, parts: seq<Part>)

  function PrintWritten(r: Written): string {
    r.name + (if r.extras == [] then "" else "[" + Join(r.extras, ',') + "]") + r.specifier
  }

  function Body(part: Part): string {
    match part
    case Need(r, _) => PrintWritten(r)
    case Sub(long, gap, target, _, _) => (if long then "--requirement " else "-r ") + gap + target
    case Note(_) => ""
    case Flag(text, _) => text
    case Junk(text, _) => text
  }

  function PrintPart(part: Part): string {
    part.margin.before + Body(part) + part.margin.after
    + match part.margin.comment case None => "" case Some(text) => "#" + text
  }

  function PrintParts(parts: seq<Part>): seq<string> {
    if parts == [] then [] else [PrintPart(parts[0])] + PrintParts(parts[1..])
  }

  // ----- what can be printed -----

  /** Blanks that do not end a line. */
  predicate Blanks(s: string) {
    NoBoundary(s) && forall i | 0 <= i < |s| :: IsSpace(s[i])
  }

  predicate WellFormedMargin(m: Margin) {
    Blanks(m.before) && Blanks(m.after) && (m.comment.Some? ==> NoBoundary(m.comment.value))
  }

  /** Stands alone on its line: no comment sign, no boundary, no blank at its ends. */
  predicate Solid(s: string) {
    s != "" && NoBoundary(s) && '#' !in s && !IsSpace(s[0]) && !IsSpace(s[|s| - 1])
  }

  predicate IsInclude(line: string) {
    StartsWith(line, "-r ") || StartsWith(line, "--requirement ")
  }

  /** What the parser of requirements must make of the printed text. */
  predicate Understands(tree: Tree, r: Written) {
    tree.parse(PrintWritten(r)) == Some(Parsed(r.name, r.extras, r.pins))
  }

  predicate WellFormedPart(tree: Tree, path: string, part: Part) {
    && WellFormedMargin(part.margin)
    && match part
       case Need(r, _) => Solid(PrintWritten(r)) && r.name != "" && r.name[0] != '-' && Understands(tree, r)
       case Sub(_, gap, target, file, _) => Blanks(gap) && Solid(target) && tree.resolve(path, target) == file.path
       case Note(_) => true
       case Flag(text, _) => Solid(text) && text[0] == '-' && !IsInclude(text)
       case Junk(text, _) => Solid(text) && text[0] != '-' && tree.parse(text) == None
  }

  // ----- one line -----

  lemma {:induction false} StripLeftBlanks(before: string, s: string)
    requires forall i | 0 <= i < |before| :: IsSpace(before[i])
    requires s == "" || !IsSpace(s[0])
    ensures StripLeft(before + s) == s
  {
    hide IsSpace;
    if before == "" {
      assert before + s == s;
    } else {
      assert (before + s)[1..] == before[1..] + s;
      StripLeftBlanks(before[1..], s);
    }
  }

  lemma {:induction false} StripRightBlanks(s: string, after: string)
    requires forall i | 0 <= i < |after| :: IsSpace(after[i])
    requires s == "" || !IsSpace(s[|s| - 1])
    ensures StripRight(s + after) == s
  {
    hide IsSpace;
    if after == "" {
      assert s + after == s;
    } else {
      var t := s + after;
      assert t[|t| - 1] == after[|after| - 1] && t[..|t| - 1] == s + after[..|after| - 1];
      StripRightBlanks(s, after[..|after| - 1]);
    }
  }

  lemma StripBlanks(before: string, s: string, after: string)
    requires Blanks(before) && Blanks(after) && s != "" && !IsSpace(s[0]) && !IsSpace(s[|s| - 1])
    ensures Strip(before + s + after) == s
  {
    hide IsSpace, StripLeft, StripRight;
    assert before + s + after == before + (s + after) && (s + after)[0] == s[0];
    StripLeftBlanks(before, s + after);
    StripRightBlanks(s, after);
  }

  lemma StripOnlyBlanks(before: string, after: string)
    requires Blanks(before) && Blanks(after)
    ensures Strip(before + after) == ""
  {
    assert before + after + "" == before + after;
    StripLeftBlanks(before + after, "");
  }

  lemma BlanksPlain(s: string)
    requires Blanks(s)
    ensures '#' !in s
  {
    assert !IsSpace('#');
  }

  /** The reader finds the body of a printed line. */
  lemma ContentOfPrinted(part: Part)
    requires WellFormedMargin(part.margin) && (Body(part) == "" || Solid(Body(part)))
    ensures Content(PrintPart(part)) == Body(part) && NoBoundary(PrintPart(part))
  {
    var m, body := part.margin, Body(part);
    var text := m.before + body + m.after;
    BlanksPlain(m.before);
    BlanksPlain(m.after);
    assert '#' !in text && NoBoundary(text);
    assert Strip(text) == body by {
      if body == "" {
        assert text == m.before + m.after;
        StripOnlyBlanks(m.before, m.after);
      } else {
        StripBlanks(m.before, body, m.after);
      }
    }
    assert PrintPart(part) == text + match m.comment case None => "" case Some(comment) => "#" + comment;
    hide *;
    CommentCut(text, m.comment);
  }

  /** A comment is cut off. */
  lemma CommentCut(text: string, comment: Option<string>)
    requires '#' !in text && NoBoundary(text) && (comment.Some? ==> NoBoundary(comment.value))
    ensures var line := text + match comment case None => "" case Some(c) => "#" + c;
            Content(line) == Strip(text) && NoBoundary(line)
  {
    hide Strip;
    match comment {
      case None =>
        assert text + "" == text && text[..|text|] == text;
        IndexOfAbsent(text, '#');
      case Some(c) =>
        assert text + "#" + c == text + ("#" + c) && NoBoundary("#");
        IndexOfAppend(text, '#', c);
        assert (text + ("#" + c))[..|text|] == text;
    }
  }

  lemma IncludeTargetOf(long: bool, gap: string, target: string)
    requires Blanks(gap) && Solid(target)
    ensures var line := (if long then "--requirement " else "-r ") + gap + target;
            IsInclude(line) && Solid(line) && IncludeTarget(line) == target
  {
    hide IsSpace, Strip, IncludeTarget, IsInclude, Solid;
    var head: string := if long then "--requirement" else "-r";
    var line := (if long then "--requirement " else "-r ") + gap + target;
    assert line == head + (" " + gap + target) == head + " " + (gap + target);
    HeadSolid(long);
    StartsInclude(long, gap + target);
    IncludeTargetAfter(head, gap, target);
  }

  lemma HeadSolid(long: bool)
    ensures var head: string := if long then "--requirement" else "-r";
            Solid(head) && forall i | 0 <= i < |head| :: !IsSpace(head[i])
  {
    assert '#' !in "--requirement" && '#' !in "-r";
  }

  lemma StartsInclude(long: bool, rest: string)
    ensures IsInclude((if long then "--requirement" else "-r") + " " + rest)
  {
    var line := (if long then "--requirement" else "-r") + " " + rest;
    assert long ==> line[..14] == "--requirement ";
    assert !long ==> line[..3] == "-r ";
  }

  lemma IncludeTargetAfter(head: string, gap: string, target: string)
    requires Blanks(gap) && Solid(target) && Solid(head) && forall i | 0 <= i < |head| :: !IsSpace(head[i])
    ensures Solid(head + (" " + gap + target)) && IncludeTarget(head + (" " + gap + target)) == target
  {
    hide Strip, IncludeTarget, IsSpace, IsBoundary;
    var rest := " " + gap + target;
    SpaceBlank(gap);
    AfterWord(head, rest);
    assert rest == (" " + gap) + target + "";
    StripBlanks(" " + gap, target, "");
    SolidAround(head, " " + gap, target);
    assert head + rest == head + (" " + gap) + target;
  }

  lemma SpaceBlank(gap: string)
    requires Blanks(gap)
    ensures IsSpace(' ') && Blanks(" " + gap)
  {
    assert !IsBoundary(' ');
  }

  lemma SolidAround(head: string, blanks: string, target: string)
    requires Solid(head) && Blanks(blanks) && Solid(target)
    ensures Solid(head + blanks + target)
  {
    BlanksPlain(blanks);
    hide IsSpace, IsBoundary;
    var line := head + blanks + target;
    assert line[0] == head[0] && line[|line| - 1] == target[|target| - 1];
  }

  lemma {:induction false} AfterWord(word: string, rest: string)
    requires rest != "" && IsSpace(rest[0]) && forall i | 0 <= i < |word| :: !IsSpace(word[i])
    ensures IncludeTarget(word + rest) == Strip(rest)
  {
    hide IsSpace, Strip;
    if word == "" {
      assert word + rest == rest;
    } else {
      assert (word + rest)[1..] == word[1..] + rest;
      AfterWord(word[1..], rest);
    }
  }

  function Item(r: Written, path: string): DirectRequirement {
    DirectRequirement(Canonical(r.name), r.name, if |r.pins| == 1 then Some(r.pins[0]) else None, r.extras, path)
  }

  /** A requirement that is refused where exactly one pin is required. */
  predicate Refused(tree: Tree, r: Written) {
    tree.pinRequired && (r.pins == [] || |r.pins| > 1)
  }

  /** Each printed line reads back as what it was printed from; without exactly one pin a requirement may be refused. */
  lemma ReadPrintedPart(tree: Tree, path: string, part: Part)
    requires WellFormedPart(tree, path, part)
    ensures NoBoundary(PrintPart(part))
    ensures EntryOf(tree, path, PrintPart(part))
         == match part
            case Need(r, _) => if Refused(tree, r) then Unpinned(PrintWritten(r)) else Entry.Item(Item(r, path))
            case Sub(_, _, _, file, _) => Include(file.path)
            case _ => Ignored
  {
    hide Content, PrintPart, IncludeTarget, Canonical, IsSpace, Strip, PrintWritten;
    match part {
      case Need(r, _) =>
        WrittenStart(r);
        ContentOfPrinted(part);
        NoDash(PrintWritten(r));
      case Sub(long, gap, target, file, _) =>
        IncludeTargetOf(long, gap, target);
        ContentOfPrinted(part);
      case Note(_) => ContentOfPrinted(part);
      case Flag(text, _) =>
        ContentOfPrinted(part);
        assert StartsWith(text, "-");
      case Junk(text, _) =>
        ContentOfPrinted(part);
        NoDash(text);
    }
  }

  lemma WrittenStart(r: Written)
    requires r.name != ""
    ensures PrintWritten(r) != "" && PrintWritten(r)[0] == r.name[0]
  {
  }

  lemma NoDash(line: string)
    requires line != "" && line[0] != '-'
    ensures !StartsWith(line, "-") && !IsInclude(line)
  {
  }

  // ----- include trees -----

  /** The requirements of a file and of everything that it includes, in the order of the text. */
  function AllItems(file: File): seq<DirectRequirement>
    decreases file
  {
    PartItems(file.path, file.parts)
  }

  function PartItems(path: string, parts: seq<Part>): seq<DirectRequirement>
    decreases parts
  {
    if parts == [] then []
    else
      (match parts[0]
       case Need(r, _) => [Item(r, path)]
       case Sub(_, _, _, file, _) => AllItems(file)
       case _ => [])
      + PartItems(path, parts[1..])
  }

  /** The first requirement in the order of the text that is refused, with the file it stands in. */
  function FirstRefused(tree: Tree, file: File): Option<ReadError>
    decreases file
  {
    PartRefused(tree, file.path, file.parts)
  }

  function PartRefused(tree: Tree, path: string, parts: seq<Part>): Option<ReadError>
    decreases parts
  {
    if parts == [] then None
    else
      var first :=
        match parts[0]
        case Need(r, _) => if Refused(tree, r) then Some(NotPinned(path, PrintWritten(r))) else None
        case Sub(_, _, _, file, _) => FirstRefused(tree, file)
        case _ => None;
      if first.Some? then first else PartRefused(tree, path, parts[1..])
  }

  function AllPaths(file: File): seq<string> {
    [file.path] + PartPaths(file.parts)
  }

  function PartPaths(parts: seq<Part>): seq<string> {
    if parts == [] then []
    else (if parts[0].Sub? then AllPaths(parts[0].file) else []) + PartPaths(parts[1..])
  }

  /** The tree holds the printed text of the file and of everything that it includes. */
  predicate Holds(tree: Tree, file: File)
    decreases file
  {
    && file.path in tree.files && tree.files[file.path] == TextOf(PrintParts(file.parts))
    && HoldsParts(tree, file.path, file.parts)
  }

  predicate HoldsParts(tree: Tree, path: string, parts: seq<Part>)
    decreases parts
  {
    parts != [] ==>
      && WellFormedPart(tree, path, parts[0])
      && (parts[0].Sub? ==> Holds(tree, parts[0].file))
      && HoldsParts(tree, path, parts[1..])
  }

  lemma {:induction false} PrintedLines(tree: Tree, path: string, parts: seq<Part>)
    requires HoldsParts(tree, path, parts)
    ensures forall i | 0 <= i < |PrintParts(parts)| :: NoBoundary(PrintParts(parts)[i])
    ensures SplitLines(TextOf(PrintParts(parts))) == PrintParts(parts)
    decreases |parts|
  {
    hide WellFormedPart, PrintPart, NoBoundary, Holds, SplitLines;
    if parts == [] {
      SplitPlainText([]);
    } else {
      ReadPrintedPart(tree, path, parts[0]);
      PrintedLines(tree, path, parts[1..]);
      SplitPlainText(PrintParts(parts));
    }
  }

  /**
   Expanding a printed include tree, in which no file occurs twice, yields exactly its requirements in the order of
   the text, each with the file it stands in, and opens its files in that order; or it fails with the first
   requirement that is refused.
   */
  lemma {:induction false} ExpandPrinted(tree: Tree, file: File, order: seq<string>)
    requires Holds(tree, file) && NoRepeats(order + AllPaths(file))
    ensures Expand(tree, file.path, order)
         == match FirstRefused(tree, file)
            case None => Done(AllItems(file), order + AllPaths(file))
            case Some(error) => Failed(error)
    decreases file
  {
    hide EntryOf, PrintPart, WellFormedPart, ExpandLines, PartItems, PartPaths, PartRefused, NoRepeats, HoldsParts, SplitLines, TextOf;
    var path := file.path;
    NotAgain(order, path, PartPaths(file.parts));
    PrintedLines(tree, path, file.parts);
    assert order + AllPaths(file) == order + [path] + PartPaths(file.parts);
    ExpandPrintedParts(tree, path, file.parts, order + [path]);
  }

  lemma NotAgain(order: seq<string>, path: string, rest: seq<string>)
    requires NoRepeats(order + ([path] + rest))
    ensures path !in order
  {
    var s := order + ([path] + rest);
    assert s[|order|] == path;
    forall i | 0 <= i < |order|
      ensures order[i] != path
    {
      assert s[i] == order[i];
    }
  }

  lemma {:induction false} ExpandPrintedParts(tree: Tree, path: string, parts: seq<Part>, order: seq<string>)
    requires HoldsParts(tree, path, parts) && NoRepeats(order + PartPaths(parts))
    ensures ExpandLines(tree, path, PrintParts(parts), order)
         == match PartRefused(tree, path, parts)
            case None => Done(PartItems(path, parts), order + PartPaths(parts))
            case Some(error) => Failed(error)
    decreases parts
  {
    hide EntryOf, PrintPart, WellFormedPart, NoRepeats, Expand, ExpandLines, Holds, AllPaths, AllItems, FirstRefused;
    ExpandLinesUnfolds(tree, path, PrintParts(parts), order);
    if parts == [] {
      assert order + [] == order;
    } else {
      var part, rest := parts[0], parts[1..];
      ReadPrintedPart(tree, path, part);
      assert PrintParts(parts)[0] == PrintPart(part) && PrintParts(parts)[1..] == PrintParts(rest);
      if part.Sub? {
        var first := AllPaths(part.file);
        assert PartPaths(parts) == first + PartPaths(rest);
        assert order + PartPaths(parts) == order + first + PartPaths(rest);
        PrefixNoRepeats(order + first, PartPaths(rest));
        ExpandPrinted(tree, part.file, order);
        ExpandPrintedParts(tree, path, rest, order + first);
      } else {
        assert PartPaths(parts) == [] + PartPaths(rest) == PartPaths(rest);
        ExpandPrintedParts(tree, path, rest, order);
      }
    }
  }

  lemma ExpandLinesUnfolds(tree: Tree, path: string, lines: seq<string>, order: seq<string>)
    ensures lines == [] ==> ExpandLines(tree, path, lines, order) == Done([], order)
    ensures lines != [] && EntryOf(tree, path, lines[0]).Ignored? ==>
              ExpandLines(tree, path, lines, order) == ExpandLines(tree, path, lines[1..], order)
    ensures lines != [] && EntryOf(tree, path, lines[0]).Unpinned? ==>
              ExpandLines(tree, path, lines, order) == Failed(NotPinned(path, EntryOf(tree, path, lines[0]).line))
    ensures lines != [] && EntryOf(tree, path, lines[0]).Include? && Expand(tree, EntryOf(tree, path, lines[0]).path, order).Failed? ==>
              ExpandLines(tree, path, lines, order) == Expand(tree, EntryOf(tree, path, lines[0]).path, order)
    ensures lines != [] && EntryOf(tree, path, lines[0]).Item? ==>
              ExpandLines(tree, path, lines, order)
              == Prepend([EntryOf(tree, path, lines[0]).requirement], ExpandLines(tree, path, lines[1..], order))
    ensures lines != [] && EntryOf(tree, path, lines[0]).Include? && Expand(tree, EntryOf(tree, path, lines[0]).path, order).Done? ==>
              var first := Expand(tree, EntryOf(tree, path, lines[0]).path, order);
              ExpandLines(tree, path, lines, order) == Prepend(first.items, ExpandLines(tree, path, lines[1..], first.order))
  {
    hide EntryOf, Expand;
  }

  lemma PrefixNoRepeats(a: seq<string>, b: seq<string>)
    requires NoRepeats(a + b)
    ensures NoRepeats(a)
  {
    forall i, j | 0 <= i < j < |a|
      ensures a[i] != a[j]
    {
      assert (a + b)[i] == a[i] && (a + b)[j] == a[j];
    }
  }
}
