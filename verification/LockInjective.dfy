/** The printer of scripts/dependency_lock_evidence.py loses nothing, whatever characters the strings hold. */
module LockInjective {
  import opened Wrappers
  import opened Text
  import opened TomlText
  import opened DependencyLock

  // ----- escapes are uniquely readable -----

  lemma UnitOf(n: nat, rest: string)
    requires n < 0x1_0000
    ensures var s := EscapeUnicode(n) + rest;
            |s| >= 6 && s[0] == '\\' && s[1] == 'u' && HexNumber(s[2..6]) == Some(n) && s[6..] == rest
  {
    hide HexNumber, Hex4;
    HexNumberHex4(n);
    var s := EscapeUnicode(n) + rest;
    assert s[2..6] == Hex4(n);
  }

  predicate IsPlain(c: char) {
    ' ' <= c <= '~' && c != '"' && c != '\\'
  }

  /** The letter of a two-character escape. */
  function Short(c: char): Option<char> {
    if c == '"' then Some('"')
    else if c == '\\' then Some('\\')
    else if c == '\n' then Some('n')
    else if c == '\r' then Some('r')
    else if c == '\t' then Some('t')
    else if c == '\U{C}' then Some('f')
    else if c == '\U{8}' then Some('b')
    else None
  }

  lemma EscapeForms(c: char)
    ensures IsPlain(c) ==> EscapeChar(c) == [c]
    ensures Short(c).Some? ==> EscapeChar(c) == ['\\', Short(c).value] && Short(c).value != 'u'
    ensures !IsPlain(c) && Short(c).None? ==>
              var n := c as int;
              if n < 0x1_0000 then EscapeChar(c) == EscapeUnicode(n)
              else EscapeChar(c) == EscapeUnicode(0xD800 + (n - 0x1_0000) / 0x400) + EscapeUnicode(0xDC00 + (n - 0x1_0000) % 0x400)
  {
    hide EscapeUnicode;
  }

  /** The first code unit of an escaped character: surrogates belong to characters above U+FFFF only. */
  function FirstUnit(c: char): nat {
    var n := c as int;
    if n < 0x1_0000 then n else 0xD800 + (n - 0x1_0000) / 0x400
  }

  lemma UnicodeHead(c: char, rest: string)
    requires !IsPlain(c) && Short(c).None?
    ensures var s := EscapeChar(c) + rest;
            && |s| >= 6 && s[0] == '\\' && s[1] == 'u' && HexNumber(s[2..6]) == Some(FirstUnit(c))
            && s[6..] == if c as int < 0x1_0000 then rest else EscapeUnicode(0xDC00 + (c as int - 0x1_0000) % 0x400) + rest
  {
    hide EscapeUnicode, HexNumber, EscapeChar;
    EscapeForms(c);
    var n := c as int;
    if n < 0x1_0000 {
      UnitOf(n, rest);
    } else {
      var low := EscapeUnicode(0xDC00 + (n - 0x1_0000) % 0x400);
      UnitOf(0xD800 + (n - 0x1_0000) / 0x400, low + rest);
      assert EscapeChar(c) + rest == EscapeUnicode(0xD800 + (n - 0x1_0000) / 0x400) + (low + rest);
    }
  }

  lemma CharHead(c: char, rest: string)
    ensures var s := EscapeChar(c) + rest;
            && s != "" && s[0] != '"' && (s[0] == '\\' <==> !IsPlain(c))
            && (IsPlain(c) ==> s[0] == c && s[1..] == rest)
            && (!IsPlain(c) ==> |s| > 1 && (s[1] == 'u' <==> Short(c).None?))
            && (Short(c).Some? ==> |s| > 1 && s[1] == Short(c).value && s[2..] == rest)
  {
    hide EscapeUnicode, EscapeChar;
    EscapeForms(c);
    if !IsPlain(c) && Short(c).None? {
      UnicodeHead(c, rest);
    }
  }

  lemma EscapeCharUnique(c: char, d: char, x: string, y: string)
    requires EscapeChar(c) + x == EscapeChar(d) + y
    ensures c == d && x == y
  {
    hide EscapeUnicode, EscapeChar, HexNumber;
    CharHead(c, x);
    CharHead(d, y);
    if !IsPlain(c) && Short(c).None? {
      UnicodeHead(c, x);
      UnicodeHead(d, y);
      var m, n := c as int, d as int;
      if m >= 0x1_0000 && n >= 0x1_0000 {
        UnitOf(0xDC00 + (m - 0x1_0000) % 0x400, x);
        UnitOf(0xDC00 + (n - 0x1_0000) % 0x400, y);
        assert m == n;
      }
    }
  }

  /** An escaped text, its closing quote and what follows. */
  function Tail(s: string, rest: string): string {
    Escape(s) + ("\"" + rest)
  }

  lemma TailOf(s: string, rest: string)
    ensures s == "" ==> Tail(s, rest) == "\"" + rest
    ensures s != "" ==> Tail(s, rest) == EscapeChar(s[0]) + Tail(s[1..], rest)
  {
    hide EscapeChar;
  }

  lemma TailHead(s: string, rest: string)
    ensures Tail(s, rest) != "" && (Tail(s, rest)[0] == '"' <==> s == "")
  {
    hide *;
    TailOf(s, rest);
    if s != "" {
      CharHead(s[0], Tail(s[1..], rest));
    }
  }

  lemma {:induction false} EscapeUnique(s: string, t: string, x: string, y: string)
    requires Tail(s, x) == Tail(t, y)
    ensures s == t && x == y
  {
    hide *;
    TailHead(s, x);
    TailHead(t, y);
    TailOf(s, x);
    TailOf(t, y);
    if s == "" {
      assert x == ("\"" + x)[1..] && y == ("\"" + y)[1..];
    } else {
      EscapeCharUnique(s[0], t[0], Tail(s[1..], x), Tail(t[1..], y));
      EscapeUnique(s[1..], t[1..], x, y);
      assert s == [s[0]] + s[1..] && t == [t[0]] + t[1..];
    }
  }

  lemma QuoteTail(s: string, rest: string)
    ensures Quote(s) + rest == "\"" + Tail(s, rest)
  {
    hide Escape;
  }

  lemma QuoteUnique(s: string, t: string, x: string, y: string)
    requires Quote(s) + x == Quote(t) + y
    ensures s == t && x == y
  {
    hide *;
    QuoteTail(s, x);
    QuoteTail(t, y);
    assert ("\"" + Tail(s, x))[1..] == Tail(s, x) && ("\"" + Tail(t, y))[1..] == Tail(t, y);
    EscapeUnique(s, t, x, y);
  }

  // ----- values and lines -----

  /** The items, with what follows the first one. */
  function AfterFirst(items: seq<string>): string
    requires items != []
  {
    if |items| == 1 then "]" else ", " + PrintItems(items[1..]) + "]"
  }

  lemma ItemsOf(items: seq<string>)
    ensures items == [] ==> PrintItems(items) + "]" == "]"
    ensures items != [] ==> PrintItems(items) + "]" == Quote(items[0]) + AfterFirst(items)
  {
    hide Quote;
    if |items| > 1 {
      assert PrintItems(items) + "]" == Quote(items[0]) + (", " + PrintItems(items[1..]) + "]");
    }
  }

  lemma ItemsHead(items: seq<string>)
    ensures PrintItems(items) + "]" != "" && ((PrintItems(items) + "]")[0] == '"' <==> items != [])
  {
    hide *;
    ItemsOf(items);
    if items != [] {
      QuoteTail(items[0], AfterFirst(items));
    }
  }

  lemma AfterFirstHead(items: seq<string>)
    requires items != []
    ensures AfterFirst(items) != "" && (AfterFirst(items)[0] == ']' <==> |items| == 1)
    ensures |items| > 1 ==> |AfterFirst(items)| > 2 && AfterFirst(items)[2..] == PrintItems(items[1..]) + "]"
  {
    hide PrintItems;
  }

  lemma {:induction false} ItemsUnique(a: seq<string>, b: seq<string>)
    requires PrintItems(a) + "]" == PrintItems(b) + "]"
    ensures a == b
  {
    hide *;
    ItemsHead(a);
    ItemsHead(b);
    if a == [] {
    } else {
      ItemsOf(a);
      ItemsOf(b);
      QuoteUnique(a[0], b[0], AfterFirst(a), AfterFirst(b));
      AfterFirstHead(a);
      AfterFirstHead(b);
      if |a| > 1 {
        ItemsUnique(a[1..], b[1..]);
      }
      assert a == [a[0]] + a[1..] && b == [b[0]] + b[1..];
    }
  }

  predicate SameKind(v: Value, w: Value) {
    (v.Str? && w.Str?) || (v.Int? && w.Int?) || (v.Bool? && w.Bool?) || (v.Strings? && w.Strings?)
  }

  lemma ValueInjective(v: Value, w: Value)
    requires SameKind(v, w) && PrintValue(v) == PrintValue(w)
    ensures v == w
  {
    hide Quote, PrintItems, Digits;
    match v {
      case Str(s) =>
        assert Quote(s) + "" == Quote(s) && Quote(w.text) + "" == Quote(w.text);
        QuoteUnique(s, w.text, "", "");
      case Int(n) => DigitsInjective(n, w.n);
      case Bool(b) => assert "true"[0] != "false"[0];
      case Strings(items) =>
        assert PrintValue(v)[1..] == PrintItems(items) + "]" && PrintValue(w)[1..] == PrintItems(w.items) + "]";
        ItemsUnique(items, w.items);
    }
  }

  /** The same keys, with values of the same kinds. */
  predicate SameForm(f: seq<Field>, g: seq<Field>) {
    |f| == |g| && forall i | 0 <= i < |f| :: f[i].key == g[i].key && SameKind(f[i].value, g[i].value)
  }

  lemma FieldInjective(f: Field, g: Field)
    requires f.key == g.key && SameKind(f.value, g.value) && FieldLine(f) == FieldLine(g)
    ensures f == g
  {
    hide PrintValue;
    var head := f.key + " = ";
    assert FieldLine(f)[|head|..] == PrintValue(f.value) && FieldLine(g)[|head|..] == PrintValue(g.value);
    ValueInjective(f.value, g.value);
  }

  lemma {:induction false} FieldLinesLength(f: seq<Field>)
    ensures |FieldLines(f)| == |f|
  {
    if f == [] {
      assert FieldLines(f) == [];
    } else {
      FieldLinesLength(f[1..]);
    }
  }

  lemma {:induction false} FieldsInjective(f: seq<Field>, g: seq<Field>)
    requires SameForm(f, g) && FieldLines(f) == FieldLines(g)
    ensures f == g
  {
    hide FieldLine, SameKind;
    if f == [] {
      assert g == [];
    } else {
      assert FieldLines(f)[0] == FieldLine(f[0]) && FieldLines(g)[0] == FieldLine(g[0]);
      FieldInjective(f[0], g[0]);
      assert FieldLines(f)[1..] == FieldLines(f[1..]) && FieldLines(g)[1..] == FieldLines(g[1..]);
      FieldsInjective(f[1..], g[1..]);
      assert f == [f[0]] + f[1..] && g == [g[0]] + g[1..];
    }
  }

  function Header(name: string): string {
    "[[" + name + "]]"
  }

  /** A sequence of blocks ends where a line that is no header of theirs begins. */
  lemma {:induction false} TablesInjective(name: string, fs: seq<seq<Field>>, gs: seq<seq<Field>>, x: seq<string>, y: seq<string>)
    requires TableLines(name, fs) + x == TableLines(name, gs) + y
    requires x != [] && y != [] && x[0] != Header(name) && y[0] != Header(name)
    requires forall i, j | 0 <= i < |fs| && 0 <= j < |gs| :: SameForm(fs[i], gs[j])
    ensures fs == gs && x == y
    decreases |fs|
  {
    hide FieldLines, SameForm;
    TableHead(name, fs, x);
    TableHead(name, gs, y);
    if fs == [] {
      assert TableLines(name, []) + x == x && TableLines(name, []) + y == y;
    } else {
      var a, b := TableLines(name, fs[1..]) + x, TableLines(name, gs[1..]) + y;
      BlockSplit(name, fs, x);
      BlockSplit(name, gs, y);
      assert SameForm(fs[0], gs[0]);
      BlockInjective(name, fs[0], gs[0], a, b);
      assert forall i | 0 <= i < |fs| - 1 :: fs[1..][i] == fs[i + 1];
      assert forall j | 0 <= j < |gs| - 1 :: gs[1..][j] == gs[j + 1];
      TablesInjective(name, fs[1..], gs[1..], x, y);
      assert fs == [fs[0]] + fs[1..] && gs == [gs[0]] + gs[1..];
    }
  }

  lemma TableHead(name: string, fs: seq<seq<Field>>, x: seq<string>)
    requires x != [] && x[0] != Header(name)
    ensures TableLines(name, fs) + x != [] && ((TableLines(name, fs) + x)[0] == Header(name) <==> fs != [])
  {
    hide FieldLines;
  }

  lemma BlockSplit(name: string, fs: seq<seq<Field>>, x: seq<string>)
    requires fs != []
    ensures TableLines(name, fs) + x == [Header(name)] + (FieldLines(fs[0]) + ([""] + (TableLines(name, fs[1..]) + x)))
  {
    hide FieldLines;
  }

  lemma BlockInjective(name: string, f: seq<Field>, g: seq<Field>, a: seq<string>, b: seq<string>)
    requires SameForm(f, g)
    requires [Header(name)] + (FieldLines(f) + ([""] + a)) == [Header(name)] + (FieldLines(g) + ([""] + b))
    ensures f == g && a == b
  {
    hide FieldLines, SameKind;
    FieldLinesLength(f);
    FieldLinesLength(g);
    var s, t := FieldLines(f) + ([""] + a), FieldLines(g) + ([""] + b);
    assert s == ([Header(name)] + s)[1..] && t == ([Header(name)] + t)[1..];
    assert s[..|f|] == FieldLines(f) && t[..|g|] == FieldLines(g);
    assert s[|f|..] == [""] + a && t[|g|..] == [""] + b;
    assert a == s[|f|..][1..] && b == t[|g|..][1..];
    FieldsInjective(f, g);
  }

  // ----- the lock -----

  lemma Headers()
    ensures Header("requirement-files") != Header("package") && "[summary]" != Header("package")
    ensures "[summary]" != Header("requirement-files")
  {
    assert Header("requirement-files")[2] == 'r' && Header("package")[2] == 'p' && "[summary]"[1] == 's';
    assert Header("requirement-files")[1] == '[' && Header("package")[1] == '[';
  }

  function SummaryLines(p: Payload): seq<string> {
    ["[summary]"] + FieldLines(SummaryFields(p)) + [""]
  }

  function PackageLines(p: Payload): seq<string> {
    TableLines("package", PackagesFields(p.packages)) + SummaryLines(p)
  }

  lemma LinesParts(p: Payload)
    ensures TomlLines(p) == FieldLines(RootFields(p)) + ([""] + (TableLines("requirement-files", FilesFields(p.requirementFiles)) + PackageLines(p)))
    ensures PackageLines(p) != [] && PackageLines(p)[0] in [Header("package"), "[summary]"]
  {
    hide FieldLines, RootFields, SummaryFields, FileFields, PackageFields;
  }

  lemma SameForms(p: Payload, q: Payload)
    ensures SameForm(RootFields(p), RootFields(q)) && SameForm(SummaryFields(p), SummaryFields(q))
    ensures forall f: RequirementFile, g: RequirementFile :: SameForm(FileFields(f), FileFields(g))
    ensures forall f: LockedPackage, g: LockedPackage :: SameForm(PackageFields(f), PackageFields(g))
  {
  }

  lemma FieldsDetermine(p: Payload, q: Payload)
    requires RootFields(p) == RootFields(q) && SummaryFields(p) == SummaryFields(q)
    requires FilesFields(p.requirementFiles) == FilesFields(q.requirementFiles) && PackagesFields(p.packages) == PackagesFields(q.packages)
    ensures p == q
  {
    hide FilesFields, PackagesFields;
    FilesDetermine(p.requirementFiles, q.requirementFiles);
    PackagesDetermine(p.packages, q.packages);
    var f, g := RootFields(p), RootFields(q);
    assert f[0] == g[0] && f[1] == g[1] && f[2] == g[2] && f[3] == g[3] && f[4] == g[4] && f[5] == g[5] && f[6] == g[6];
    var s, t := SummaryFields(p), SummaryFields(q);
    assert s[0] == t[0] && s[1] == t[1] && s[2] == t[2];
  }

  lemma FilesDetermine(a: seq<RequirementFile>, b: seq<RequirementFile>)
    requires FilesFields(a) == FilesFields(b)
    ensures a == b
  {
    assert |FilesFields(a)| == |a| && |FilesFields(b)| == |b|;
    forall i | 0 <= i < |a|
      ensures a[i] == b[i]
    {
      var f, g := FilesFields(a)[i], FilesFields(b)[i];
      assert f[0] == g[0] && f[1] == g[1] && f[2] == g[2];
    }
  }

  lemma PackagesDetermine(a: seq<LockedPackage>, b: seq<LockedPackage>)
    requires PackagesFields(a) == PackagesFields(b)
    ensures a == b
  {
    assert |PackagesFields(a)| == |a| && |PackagesFields(b)| == |b|;
    forall i | 0 <= i < |a|
      ensures a[i] == b[i]
    {
      var f, g := PackagesFields(a)[i], PackagesFields(b)[i];
      assert f[0] == g[0] && f[1] == g[1] && f[2] == g[2] && f[3] == g[3] && f[4] == g[4] && f[5] == g[5] && f[6] == g[6];
    }
  }

  lemma LinesInjective(p: Payload, q: Payload)
    requires TomlLines(p) == TomlLines(q)
    ensures p == q
  {
    hide *;
    LinesParts(p);
    LinesParts(q);
    SameForms(p, q);
    Headers();
    var filesP, filesQ := FilesFields(p.requirementFiles), FilesFields(q.requirementFiles);
    var packagesP, packagesQ := PackagesFields(p.packages), PackagesFields(q.packages);
    FilesForm(p, q);
    RootInjective(p, q);
    TablesInjective("requirement-files", filesP, filesQ, PackageLines(p), PackageLines(q));
    SummaryHead(p);
    SummaryHead(q);
    TablesInjective("package", packagesP, packagesQ, SummaryLines(p), SummaryLines(q));
    SummaryInjective(p, q);
    FieldsDetermine(p, q);
  }

  lemma FilesForm(p: Payload, q: Payload)
    ensures forall i, j | 0 <= i < |FilesFields(p.requirementFiles)| && 0 <= j < |FilesFields(q.requirementFiles)| ::
              SameForm(FilesFields(p.requirementFiles)[i], FilesFields(q.requirementFiles)[j])
    ensures forall i, j | 0 <= i < |PackagesFields(p.packages)| && 0 <= j < |PackagesFields(q.packages)| ::
              SameForm(PackagesFields(p.packages)[i], PackagesFields(q.packages)[j])
  {
    hide SameForm, FileFields, PackageFields;
    SameForms(p, q);
  }

  lemma RootInjective(p: Payload, q: Payload)
    requires TomlLines(p) == TomlLines(q)
    ensures RootFields(p) == RootFields(q)
    ensures TableLines("requirement-files", FilesFields(p.requirementFiles)) + PackageLines(p)
         == TableLines("requirement-files", FilesFields(q.requirementFiles)) + PackageLines(q)
  {
    hide *;
    LinesParts(p);
    LinesParts(q);
    SameForms(p, q);
    var a := TableLines("requirement-files", FilesFields(p.requirementFiles)) + PackageLines(p);
    var b := TableLines("requirement-files", FilesFields(q.requirementFiles)) + PackageLines(q);
    BlockInjective("", RootFields(p), RootFields(q), a, b);
  }

  lemma SummaryHead(p: Payload)
    ensures SummaryLines(p) != [] && SummaryLines(p)[0] == "[summary]"
    ensures PackageLines(p) == TableLines("package", PackagesFields(p.packages)) + SummaryLines(p)
    ensures SummaryLines(p) == ["[summary]"] + (FieldLines(SummaryFields(p)) + ([""] + []))
  {
    hide FieldLines, SummaryFields;
  }

  lemma SummaryInjective(p: Payload, q: Payload)
    requires SummaryLines(p) == SummaryLines(q)
    ensures SummaryFields(p) == SummaryFields(q)
  {
    hide *;
    SummaryHead(p);
    SummaryHead(q);
    SameForms(p, q);
    var s, t := FieldLines(SummaryFields(p)) + ([""] + []), FieldLines(SummaryFields(q)) + ([""] + []);
    assert s == SummaryLines(p)[1..] && t == SummaryLines(q)[1..];
    BlockInjective("", SummaryFields(p), SummaryFields(q), [], []);
  }

  /** Payloads that print alike are equal, whatever characters their strings hold. */
  lemma PrintedLockInjective(p: Payload, q: Payload)
    requires LockText(p) == LockText(q)
    ensures p == q
  {
    forall i | 0 <= i < |TomlLines(p)|
      ensures '\n' !in TomlLines(p)[i]
    {
      LinesClean(p, i);
    }
    forall i | 0 <= i < |TomlLines(q)|
      ensures '\n' !in TomlLines(q)[i]
    {
      LinesClean(q, i);
    }
    hide TomlLines, Join, Split;
    TomlLinesNonempty(p);
    TomlLinesNonempty(q);
    SplitJoin(TomlLines(p), '\n');
    SplitJoin(TomlLines(q), '\n');
    LinesInjective(p, q);
  }
}
