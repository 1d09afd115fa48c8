/** The reader of `git diff --name-status -z` in scripts/wiki_quality_gate.py. */
module WikiScope {
  import opened Wrappers
  import opened Text
  import opened Sorting

  const NUL: char := '\0'

  /** One change: renames (R) and copies (C) name two paths, every other status one. */
  datatype Record =
    | Single(status: string, path: string)
    | Pair(status: string, oldPath: string, path: string)

  predicate TakesTwo(status: string)
    requires status != ""
  {
    status[0] == 'R' || status[0] == 'C'
  }

  predicate WellFormed(r: Record) {
    && r.status != "" && NUL !in r.status && NUL !in r.path
    && (r.Pair? <==> TakesTwo(r.status))
    && (r.Pair? ==> NUL !in r.oldPath)
  }

  predicate IsKind(r: Record, kind: char) {
    r.status != "" && r.status[0] == kind
  }

  // ----- wiki pages -----

  const NAVIGATION_PAGES := {"Home.md", "_Sidebar.md"}

  /** The components that a `Path` keeps. */
  function Kept(pieces: seq<string>): seq<string> {
    if pieces == [] then []
    else (if pieces[0] == "" || pieces[0] == "." then [] else [pieces[0]]) + Kept(pieces[1..])
  }

  /** A file name whose `suffix` is ".md". */
  predicate IsPageName(name: string) {
    |name| > 3 && EndsWith(name, ".md")
  }

  /** The page that a path names when its parent is the wiki directory. */
  function PageOf(path: string): Option<string> {
    var parts := Kept(Split(path, '/'));
    if StartsWith(path, "/") || |parts| != 2 || parts[0] != "wiki" || !IsPageName(parts[1]) then None
    else Some(parts[1])
  }

  lemma PageNameExact(name: string)
    ensures IsPageName(name) <==> exists stem: string :: stem != "" && name == stem + ".md"
  {
    if IsPageName(name) {
      assert name == name[..|name| - 3] + ".md";
    }
    if stem: string :| stem != "" && name == stem + ".md" {
      assert name[|name| - 3..] == ".md";
    }
  }

  /** Two pages are for navigation. */
  lemma NavigationExact(name: string)
    ensures name in NAVIGATION_PAGES <==> name == "Home.md" || name == "_Sidebar.md"
  {
  }

  lemma {:induction false} KeptNone(pieces: seq<string>)
    ensures Kept(pieces) == [] <==> forall k | 0 <= k < |pieces| :: pieces[k] == "" || pieces[k] == "."
  {
    if pieces == [] {
      assert Kept(pieces) == [];
    } else {
      KeptNone(pieces[1..]);
      assert forall k | 1 <= k < |pieces| :: pieces[k] == pieces[1..][k - 1];
    }
  }

  /** Only the piece at `i` is kept. */
  predicate KeptAt(pieces: seq<string>, i: int, b: string) {
    0 <= i < |pieces| && pieces[i] == b && forall k | 0 <= k < |pieces| && k != i :: pieces[k] == "" || pieces[k] == "."
  }

  lemma {:induction false} KeptOne(pieces: seq<string>, b: string)
    requires b != "" && b != "."
    ensures Kept(pieces) == [b] <==> exists i :: KeptAt(pieces, i, b)
  {
    if pieces == [] {
      assert Kept(pieces) == [];
    } else {
      var rest := pieces[1..];
      KeptOne(rest, b);
      KeptNone(rest);
      assert forall k | 1 <= k < |pieces| :: pieces[k] == rest[k - 1];
      if pieces[0] == "" || pieces[0] == "." {
        assert forall i | i >= 1 :: KeptAt(pieces, i, b) <==> KeptAt(rest, i - 1, b);
        assert forall i :: KeptAt(rest, i, b) ==> KeptAt(pieces, i + 1, b);
      } else {
        assert Kept(pieces) == [pieces[0]] + Kept(rest);
        if Kept(pieces) == [b] {
          assert pieces[0] == Kept(pieces)[0] == b && Kept(rest) == Kept(pieces)[1..] == [];
          assert KeptAt(pieces, 0, b);
        }
      }
    }
  }

  /** Only the pieces at `i` and `j` are kept. */
  predicate KeptPair(pieces: seq<string>, i: int, j: int, a: string, b: string) {
    0 <= i < j < |pieces| && pieces[i] == a && pieces[j] == b
    && forall k | 0 <= k < |pieces| && k != i && k != j :: pieces[k] == "" || pieces[k] == "."
  }

  lemma {:induction false} KeptTwo(pieces: seq<string>, a: string, b: string)
    ensures a != "" && a != "." && b != "" && b != "." ==> (Kept(pieces) == [a, b] <==> exists i, j :: KeptPair(pieces, i, j, a, b))
  {
    if pieces == [] {
      assert Kept(pieces) == [];
    } else if a != "" && a != "." && b != "" && b != "." {
      var rest := pieces[1..];
      KeptTwo(rest, a, b);
      KeptOne(rest, b);
      assert forall k | 1 <= k < |pieces| :: pieces[k] == rest[k - 1];
      if pieces[0] == "" || pieces[0] == "." {
        assert forall i, j | i >= 1 :: KeptPair(pieces, i, j, a, b) ==> KeptPair(rest, i - 1, j - 1, a, b);
        assert forall i, j :: KeptPair(rest, i, j, a, b) ==> KeptPair(pieces, i + 1, j + 1, a, b);
      } else {
        assert Kept(pieces) == [pieces[0]] + Kept(rest);
        if Kept(pieces) == [a, b] {
          assert Kept(rest) == Kept(pieces)[1..] == [b];
          var j :| KeptAt(rest, j, b);
          assert pieces[0] == Kept(pieces)[0] == a;
          assert KeptPair(pieces, 0, j + 1, a, b);
        }
        if i, j :| KeptPair(pieces, i, j, a, b) {
          assert i == 0;
          assert KeptAt(rest, j - 1, b);
        }
      }
    }
  }

  /** In general a path may also have empty and "." components besides the two. */
  lemma PageGeneral(path: string, name: string)
    ensures PageOf(path) == Some(name)
       <==> && !("/" <= path) && (exists stem: string :: stem != "" && name == stem + ".md")
            && exists i, j :: KeptPair(Split(path, '/'), i, j, "wiki", name)
  {
    PageNameExact(name);
    if IsPageName(name) {
      assert name != "" && name != "." && "wiki" != "" && "wiki" != ".";
      KeptTwo(Split(path, '/'), "wiki", name);
    }
    hide IsPageName, KeptPair, Split;
    var pieces := Split(path, '/');
    assert IsPageName(name) ==> (Kept(pieces) == ["wiki", name] <==> exists i, j :: KeptPair(pieces, i, j, "wiki", name));
    PageIs(path, name);
  }

  lemma PageIs(path: string, name: string)
    ensures PageOf(path) == Some(name) <==> !("/" <= path) && Kept(Split(path, '/')) == ["wiki", name] && IsPageName(name)
  {
    hide IsPageName, Kept, Split;
    var parts := Kept(Split(path, '/'));
    if |parts| == 2 && parts[0] == "wiki" && parts[1] == name {
      assert parts == ["wiki", name];
    }
  }

  /** For paths without empty or "." components, pages are the files `wiki/<name>.md`. */
  lemma PageExact(path: string, name: string)
    requires forall i | 0 <= i < |Split(path, '/')| :: Split(path, '/')[i] != "" && Split(path, '/')[i] != "."
    ensures PageOf(path) == Some(name)
       <==> path == "wiki/" + name && '/' !in name && exists stem: string :: stem != "" && name == stem + ".md"
  {
    PageNameExact(name);
    KeptAll(Split(path, '/'));
    JoinSplit(path, '/');
    SplitClean(path, '/');
    assert "wiki/" == "wiki" + ['/'];
    if path == "wiki/" + name && '/' !in name {
      SplitOnce("wiki", '/', name);
      assert path == "wiki" + ['/'] + name;
      IndexOfAbsent(name, '/');
    }
  }

  lemma {:induction false} KeptAll(pieces: seq<string>)
    requires forall i | 0 <= i < |pieces| :: pieces[i] != "" && pieces[i] != "."
    ensures Kept(pieces) == pieces
  {
    if pieces == [] {
    } else {
      KeptAll(pieces[1..]);
    }
  }

  lemma JoinMore(head: string, rest: seq<string>, c: char)
    requires rest != []
    ensures Join([head] + rest, c) == head + [c] + Join(rest, c)
  {
  }

  lemma {:induction false} JoinSplit(s: string, c: char)
    ensures Join(Split(s, c), c) == s
  {
    var i := IndexOf(s, c);
    if i < |s| {
      JoinSplit(s[i + 1..], c);
      assert Split(s, c) == [s[..i]] + Split(s[i + 1..], c);
      hide *;
      JoinMore(s[..i], Split(s[i + 1..], c), c);
      assert s == s[..i] + [c] + s[i + 1..];
    }
  }

  lemma {:induction false} SplitClean(s: string, c: char)
    ensures forall i | 0 <= i < |Split(s, c)| :: c !in Split(s, c)[i]
  {
    var i := IndexOf(s, c);
    if i < |s| {
      SplitClean(s[i + 1..], c);
    }
  }

  // ----- what a list of changes asks for -----

  /** A page survives at the new path of a change that is not a deletion. */
  predicate Survives(r: Record, name: string) {
    !IsKind(r, 'D') && PageOf(r.path) == Some(name)
  }

  /** A page is deleted or renamed away, or a page at the new path (or the old one of a rename) is for navigation. */
  predicate NeedsAudit(r: Record) {
    || (IsKind(r, 'D') && PageOf(r.path).Some?)
    || (IsKind(r, 'R') && r.Pair? && PageOf(r.oldPath).Some?)
    || (PageOf(r.path).Some? && PageOf(r.path).value in NAVIGATION_PAGES)
  }

  ghost predicate PagesAre(pages: set<string>, records: seq<Record>) {
    forall name :: name in pages <==> exists i | 0 <= i < |records| :: Survives(records[i], name)
  }

  /** The surviving pages, sorted and each once. */
  ghost predicate ListsPages(names: seq<string>, records: seq<Record>) {
    && (forall name :: name in names <==> exists i | 0 <= i < |records| :: Survives(records[i], name))
    && (forall i, j | 0 <= i < j < |names| :: LexLe(names[i], names[j]) && names[i] != names[j])
  }

  predicate AuditAll(records: seq<Record>) {
    exists i | 0 <= i < |records| :: NeedsAudit(records[i])
  }

  // ----- reading the tokens -----

  /** The records of a token list that starts at a status; None when a path is missing. */
  function ReadRecords(tokens: seq<string>): Option<seq<Record>> {
    if tokens == [] then Some([])
    else if tokens[0] == "" then ReadRecords(tokens[1..])
    else
      var size := if TakesTwo(tokens[0]) then 3 else 2;
      if |tokens| < size then None
      else
        Follow([if size == 3 then Pair(tokens[0], tokens[1], tokens[2]) else Single(tokens[0], tokens[1])],
               ReadRecords(tokens[size..]))
  }

  function Follow(records: seq<Record>, rest: Option<seq<Record>>): Option<seq<Record>> {
    match rest
    case None => None
    case Some(more) => Some(records + more)
  }

  lemma FollowNone(rest: Option<seq<Record>>)
    ensures Follow([], rest) == rest
  {
    if rest.Some? {
      assert [] + rest.value == rest.value;
    }
  }

  lemma FollowTwice(first: seq<Record>, record: Record, rest: Option<seq<Record>>)
    ensures Follow(first, Follow([record], rest)) == Follow(first + [record], rest)
  {
    if rest.Some? {
      assert first + ([record] + rest.value) == first + [record] + rest.value;
    }
  }

  /** One candidate path of a change, as the inner loop treats it. */
  method Consider(kind: char, candidate: string, oldPath: string, path: string, pages: set<string>, audit: bool)
    returns (pages': set<string>, audit': bool)
    ensures pages' == pages + if kind != 'D' && candidate == path && PageOf(candidate).Some?
                              then {PageOf(candidate).value} else {}
    ensures audit' <==> audit || (PageOf(candidate).Some? && (kind == 'D' || (candidate == oldPath && kind == 'R')
                                                           || PageOf(candidate).value in NAVIGATION_PAGES))
  {
    pages', audit' := pages, audit;
    var name := PageOf(candidate);
    if name.None? {
      return;
    }
    if kind == 'D' || (candidate == oldPath && kind == 'R') || name.value in NAVIGATION_PAGES {
      audit' := true;
    }
    if kind != 'D' && candidate == path {
      pages' := pages' + {name.value};
    }
  }

  /** `changed_wiki_scope` on the decoded output of git; None when the token iterator runs dry. */
  method ChangedWikiScope(output: string) returns (scope: Option<(seq<string>, bool)>)
    ensures scope.None? <==> ReadRecords(Split(output, NUL)).None?
    ensures scope.Some? ==>
              var records := ReadRecords(Split(output, NUL)).value;
              && scope.value.1 == AuditAll(records)
              && ListsPages(scope.value.0, records)
  {
    hide Split, IsPageName, LexLe, Kept;
    var tokens := Split(output, NUL);
    var pages: set<string>, audit := {}, false;
    ghost var done: seq<Record> := [];
    var i := 0;
    assert tokens[0..] == tokens;
    assert ReadRecords(tokens) == Follow(done, ReadRecords(tokens)) by {
      FollowNone(ReadRecords(tokens));
    }
    while i < |tokens|
      invariant 0 <= i <= |tokens|
      invariant PagesAre(pages, done) && audit == AuditAll(done)
      invariant ReadRecords(tokens) == Follow(done, ReadRecords(tokens[i..]))
    {
      var status := tokens[i];
      i := i + 1;
      if status == "" {
        assert tokens[i - 1..][1..] == tokens[i..];
        continue;
      }
      var kind := status[0];
      if i == |tokens| {
        return None;
      }
      var oldPath := tokens[i];
      var path := oldPath;
      i := i + 1;
      if kind == 'R' || kind == 'C' {
        if i == |tokens| {
          return None;
        }
        path := tokens[i];
        i := i + 1;
        assert tokens[i - 3..][3..] == tokens[i..];
      } else {
        assert tokens[i - 2..][2..] == tokens[i..];
      }
      ghost var record := if TakesTwo(status) then Pair(status, oldPath, path) else Single(status, path);
      ghost var before, was := pages, audit;
      if kind == 'R' {
        pages, audit := Consider(kind, oldPath, oldPath, path, pages, audit);
      }
      pages, audit := Consider(kind, path, oldPath, path, pages, audit);
      OneMore(done, record, before, pages);
      FollowTwice(done, record, ReadRecords(tokens[i..]));
      done := done + [record];
    }
    assert done + [] == done;
    var names := SortedList(pages);
    scope := Some((names, audit));
  }

  lemma OneMore(done: seq<Record>, record: Record, before: set<string>, pages: set<string>)
    requires PagesAre(before, done)
    requires forall name :: name in pages <==> name in before || Survives(record, name)
    ensures PagesAre(pages, done + [record])
    ensures AuditAll(done + [record]) <==> AuditAll(done) || NeedsAudit(record)
  {
    hide Survives, NeedsAudit;
    var all := done + [record];
    assert all[|done|] == record && forall i | 0 <= i < |done| :: all[i] == done[i];
    forall name
      ensures name in pages <==> exists i | 0 <= i < |all| :: Survives(all[i], name)
    {
      if name in before {
        var i :| 0 <= i < |done| && Survives(done[i], name);
        assert Survives(all[i], name);
      }
      if Survives(record, name) {
        assert Survives(all[|done|], name);
      }
    }
    if AuditAll(done) {
      var i :| 0 <= i < |done| && NeedsAudit(done[i]);
      assert NeedsAudit(all[i]);
    }
    if NeedsAudit(record) {
      assert NeedsAudit(all[|done|]);
    }
  }

  // ----- printing the changes -----

  function Fields(r: Record): seq<string> {
    match r
    case Single(status, path) => [status, path]
    case Pair(status, oldPath, path) => [status, oldPath, path]
  }

  function AllFields(records: seq<Record>): seq<string> {
    if records == [] then [] else Fields(records[0]) + AllFields(records[1..])
  }

  /** Every field ends with NUL, as git prints them. */
  function Print(fields: seq<string>): string {
    if fields == [] then "" else fields[0] + [NUL] + Print(fields[1..])
  }

  lemma {:induction false} SplitPrint(fields: seq<string>, rest: string)
    requires forall i | 0 <= i < |fields| :: NUL !in fields[i]
    ensures Split(Print(fields) + rest, NUL) == fields + Split(rest, NUL)
  {
    hide Split;
    if fields == [] {
      assert Print(fields) + rest == rest;
    } else {
      assert fields == [fields[0]] + fields[1..];
      assert Print(fields) + rest == fields[0] + [NUL] + (Print(fields[1..]) + rest);
      SplitOnce(fields[0], NUL, Print(fields[1..]) + rest);
      SplitPrint(fields[1..], rest);
    }
  }

  lemma {:induction false} FieldsClean(records: seq<Record>)
    requires forall i | 0 <= i < |records| :: WellFormed(records[i])
    ensures forall i | 0 <= i < |AllFields(records)| :: NUL !in AllFields(records)[i]
  {
    if records == [] {
    } else {
      FieldsClean(records[1..]);
    }
  }

  lemma {:induction false} ReadFields(records: seq<Record>, rest: seq<string>)
    requires forall i | 0 <= i < |records| :: WellFormed(records[i])
    ensures ReadRecords(AllFields(records) + rest) == Follow(records, ReadRecords(rest))
  {
    if records == [] {
      assert AllFields(records) + rest == rest;
      FollowNone(ReadRecords(rest));
    } else {
      var tail := AllFields(records[1..]) + rest;
      ReadFields(records[1..], rest);
      assert AllFields(records) + rest == Fields(records[0]) + tail;
      hide *;
      ReadOne(records[0], tail);
      assert records == [records[0]] + records[1..];
      FollowBoth(records[0], records[1..], ReadRecords(rest));
    }
  }

  lemma ReadOne(record: Record, tail: seq<string>)
    requires WellFormed(record)
    ensures ReadRecords(Fields(record) + tail) == Follow([record], ReadRecords(tail))
  {
  }

  lemma FollowBoth(record: Record, records: seq<Record>, rest: Option<seq<Record>>)
    ensures Follow([record], Follow(records, rest)) == Follow([record] + records, rest)
  {
    if rest.Some? {
      assert [record] + (records + rest.value) == [record] + records + rest.value;
    }
  }

  /** Reading a printed list of changes gives those changes back: no path is taken for a status. */
  lemma ReadPrinted(records: seq<Record>)
    requires forall i | 0 <= i < |records| :: WellFormed(records[i])
    ensures ReadRecords(Split(Print(AllFields(records)), NUL)) == Some(records)
  {
    FieldsClean(records);
    SplitPrint(AllFields(records), "");
    assert Print(AllFields(records)) + "" == Print(AllFields(records));
    ReadFields(records, [""]);
    assert records + [] == records;
  }

  /** A stream that ends in a status, or in the first path of a rename, is rejected. */
  lemma MissingPathRejected(records: seq<Record>, last: Record)
    requires WellFormed(last) && forall i | 0 <= i < |records| :: WellFormed(records[i])
    ensures ReadRecords(Split(Print(AllFields(records)) + last.status, NUL)).None?
    ensures last.Pair? ==>
              ReadRecords(Split(Print(AllFields(records)) + last.status + [NUL] + last.oldPath, NUL)).None?
  {
    hide Split, AllFields, Print;
    SplitAbsent(last.status, NUL);
    TailDecides(records, last.status);
    if last.Pair? {
      var tail := last.status + [NUL] + last.oldPath;
      assert Print(AllFields(records)) + last.status + [NUL] + last.oldPath == Print(AllFields(records)) + tail;
      SplitOnce(last.status, NUL, last.oldPath);
      SplitAbsent(last.oldPath, NUL);
      TailDecides(records, tail);
    }
  }

  lemma SplitAbsent(s: string, c: char)
    requires c !in s
    ensures Split(s, c) == [s]
  {
  }

  lemma TailDecides(records: seq<Record>, tail: string)
    requires forall i | 0 <= i < |records| :: WellFormed(records[i])
    requires ReadRecords(Split(tail, NUL)).None?
    ensures ReadRecords(Split(Print(AllFields(records)) + tail, NUL)).None?
  {
    FieldsClean(records);
    SplitPrint(AllFields(records), tail);
    ReadFields(records, Split(tail, NUL));
  }

  /** The fields of the changes, with empty tokens only where a status may stand. */
  predicate Spaced(tokens: seq<string>, records: seq<Record>) {
    if tokens == [] then records == []
    else if tokens[0] == "" then Spaced(tokens[1..], records)
    else records != [] && Fields(records[0]) <= tokens && Spaced(tokens[|Fields(records[0])|..], records[1..])
  }

  /** What is read from a token list is exactly the well-formed changes whose fields it spaces out, if there are any. */
  lemma {:induction false} ReadIsWellFormed(tokens: seq<string>, records: seq<Record>)
    requires forall i | 0 <= i < |tokens| :: NUL !in tokens[i]
    ensures ReadRecords(tokens) == Some(records)
       <==> Spaced(tokens, records) && forall i | 0 <= i < |records| :: WellFormed(records[i])
    decreases |tokens|
  {
    if tokens == [] {
      assert ReadRecords(tokens) == Some([]);
    } else if tokens[0] == "" {
      ReadIsWellFormed(tokens[1..], records);
    } else {
      ReadStatus(tokens, records);
      if records != [] && |tokens| >= SizeOf(tokens[0]) {
        ReadIsWellFormed(tokens[SizeOf(tokens[0])..], records[1..]);
        assert forall i | 1 <= i < |records| :: records[i] == records[1..][i - 1];
      }
    }
  }

  function SizeOf(status: string): nat
    requires status != ""
  {
    if TakesTwo(status) then 3 else 2
  }

  function FirstRecord(tokens: seq<string>): Record
    requires tokens != [] && tokens[0] != "" && |tokens| >= SizeOf(tokens[0])
  {
    if TakesTwo(tokens[0]) then Pair(tokens[0], tokens[1], tokens[2]) else Single(tokens[0], tokens[1])
  }

  /** The first record of a token list that starts with a status. */
  lemma ReadStatus(tokens: seq<string>, records: seq<Record>)
    requires tokens != [] && tokens[0] != "" && forall i | 0 <= i < |tokens| :: NUL !in tokens[i]
    ensures |tokens| < SizeOf(tokens[0]) ==> ReadRecords(tokens).None?
    ensures records == [] ==> ReadRecords(tokens) != Some(records)
    ensures records != [] && |tokens| >= SizeOf(tokens[0]) ==>
              (ReadRecords(tokens) == Some(records) <==>
                && WellFormed(records[0]) && Fields(records[0]) <= tokens
                && ReadRecords(tokens[SizeOf(tokens[0])..]) == Some(records[1..]))
    ensures records != [] && WellFormed(records[0]) && Fields(records[0]) <= tokens ==>
              |Fields(records[0])| == SizeOf(tokens[0]) <= |tokens|
  {
    hide WellFormed, Fields, TakesTwo;
    if records != [] {
      SameRecord(records[0], tokens);
    }
    if |tokens| >= SizeOf(tokens[0]) {
      var rest := ReadRecords(tokens[SizeOf(tokens[0])..]);
      ReadFirst(tokens);
      FirstFields(tokens);
      hide ReadRecords;
      FollowOne(FirstRecord(tokens), rest, records);
    }
  }

  lemma ReadFirst(tokens: seq<string>)
    requires tokens != [] && tokens[0] != "" && |tokens| >= SizeOf(tokens[0])
    ensures ReadRecords(tokens) == Follow([FirstRecord(tokens)], ReadRecords(tokens[SizeOf(tokens[0])..]))
  {
  }

  lemma FirstFields(tokens: seq<string>)
    requires tokens != [] && tokens[0] != "" && |tokens| >= SizeOf(tokens[0])
    requires forall i | 0 <= i < |tokens| :: NUL !in tokens[i]
    ensures WellFormed(FirstRecord(tokens)) && Fields(FirstRecord(tokens)) <= tokens
  {
  }

  lemma SameRecord(r: Record, tokens: seq<string>)
    requires tokens != [] && tokens[0] != ""
    ensures WellFormed(r) && Fields(r) <= tokens ==> |tokens| >= SizeOf(tokens[0]) == |Fields(r)| && r == FirstRecord(tokens)
  {
    if WellFormed(r) && Fields(r) <= tokens {
      assert Fields(r)[0] == tokens[0] && Fields(r)[1] == tokens[1];
      assert r.Pair? ==> Fields(r)[2] == tokens[2];
    }
  }

  lemma FollowOne(first: Record, rest: Option<seq<Record>>, records: seq<Record>)
    ensures Follow([first], rest) == Some(records) <==> records != [] && records[0] == first && rest == Some(records[1..])
  {
    if rest.Some? {
      assert ([first] + rest.value)[1..] == rest.value;
    }
    if records != [] {
      assert records == [records[0]] + records[1..];
    }
  }
}
