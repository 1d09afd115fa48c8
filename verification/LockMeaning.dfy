/** What the check of the dependency lock asks, stated on the entries of the two documents. */
module LockMeaning {
  import opened Wrappers
  import opened Text
  import opened TomlText
  import opened DependencyLock

  // ----- Python's equality of loaded values -----

  /** The number that the value counts as. */
  predicate CountsAs(v: Value, x: nat) {
    v == Int(x) || (v == Bool(true) && x == 1) || (v == Bool(false) && x == 0)
  }

  ghost predicate Equal(a: Value, b: Value) {
    a == b || exists x: nat :: CountsAs(a, x) && CountsAs(b, x)
  }

  ghost predicate EqualTables(a: Table, b: Table) {
    (forall k :: k in a <==> k in b) && forall k | k in a && k in b :: Equal(a[k], b[k])
  }

  /** Values, tables and lists of tables are equal to their like only. */
  ghost predicate EqualNodes(a: Node, b: Node) {
    || (a.Scalar? && b.Scalar? && Equal(a.value, b.value))
    || (a.OneTable? && b.OneTable? && EqualTables(a.table, b.table))
    || (&& a.Tables? && b.Tables? && |a.tables| == |b.tables|
        && forall i | 0 <= i < |a.tables| && i < |b.tables| :: EqualTables(a.tables[i], b.tables[i]))
  }

  ghost predicate EqualDocuments(a: Document, b: Document) {
    (forall k :: k in a <==> k in b) && forall k | k in a && k in b :: EqualNodes(a[k], b[k])
  }

  lemma EqualExact(a: Value, b: Value)
    ensures Equal(a, b) <==> SameValue(a, b)
  {
    if IsBoolFor(a, b) {
      assert CountsAs(a, b.n) && CountsAs(b, b.n);
    }
    if IsBoolFor(b, a) {
      assert CountsAs(a, a.n) && CountsAs(b, a.n);
    }
  }

  lemma EqualTablesExact(a: Table, b: Table)
    ensures EqualTables(a, b) <==> SameTable(a, b)
  {
    hide Equal, SameValue;
    forall k | k in a && k in b
      ensures Equal(a[k], b[k]) <==> SameValue(a[k], b[k])
    {
      EqualExact(a[k], b[k]);
    }
    assert a.Keys == b.Keys <==> forall k :: k in a <==> k in b;
  }

  lemma EqualNodesExact(a: Node, b: Node)
    ensures EqualNodes(a, b) <==> SameNode(a, b)
  {
    hide Equal, SameValue, EqualTables, SameTable;
    match (a, b) {
      case (Scalar(v), Scalar(w)) => EqualExact(v, w);
      case (OneTable(s), OneTable(t)) => EqualTablesExact(s, t);
      case (Tables(s), Tables(t)) =>
        forall i | 0 <= i < |s| && i < |t|
          ensures EqualTables(s[i], t[i]) <==> SameTable(s[i], t[i])
        {
          EqualTablesExact(s[i], t[i]);
        }
      case _ =>
    }
  }

  lemma EqualDocumentsExact(a: Document, b: Document)
    ensures EqualDocuments(a, b) <==> SameDocument(a, b)
  {
    hide EqualNodes, SameNode;
    forall k | k in a && k in b
      ensures EqualNodes(a[k], b[k]) <==> SameNode(a[k], b[k])
    {
      EqualNodesExact(a[k], b[k]);
    }
    assert a.Keys == b.Keys <==> forall k :: k in a <==> k in b;
  }

  // ----- the packages of a lock -----

  /** What `str` shows of a field: "None" when it is absent. */
  predicate Shows(t: Table, key: string, text: string) {
    if key !in t then text == "None"
    else
      match t[key]
      case Str(s) => text == s
      case Int(n) => AllDigits(text) && text != "" && NatOf(text) == n && (text[0] == '0' ==> text == "0")
      case Bool(b) => text == if b then "True" else "False"
      case Strings(_) => text == ""
  }

  lemma {:induction false} DigitsUnique(text: string)
    requires AllDigits(text) && text != "" && (text[0] == '0' ==> text == "0")
    ensures Digits(NatOf(text)) == text
  {
    if |text| == 1 {
      assert text[..0] == "";
      assert NatOf(text) == DigitValue(text[0]);
      assert text == [text[0]];
    } else {
      var init := text[..|text| - 1];
      assert init[0] == text[0];
      DigitsUnique(init);
      NotZero(init);
      assert NatOf(text) == NatOf(init) * 10 + DigitValue(text[|text| - 1]);
      assert text == init + [text[|text| - 1]];
    }
  }

  lemma {:induction false} NotZero(text: string)
    requires AllDigits(text) && text != "" && text[0] != '0'
    ensures NatOf(text) > 0
  {
    if |text| == 1 {
      assert text[..0] == "";
    } else {
      NotZero(text[..|text| - 1]);
    }
  }

  lemma {:induction false} DigitsStart(n: nat)
    ensures Digits(n)[0] == '0' ==> Digits(n) == "0"
  {
    if n >= 10 {
      DigitsStart(n / 10);
      NatOfDigits(n / 10);
      assert NatOf("0") == 0 by {
        assert "0"[..0] == "";
      }
    }
  }

  lemma ShowsExact(t: Table, key: string, text: string)
    ensures Shows(t, key, text) <==> text == FieldText(t, key)
  {
    if key in t && t[key].Int? {
      NatOfDigits(t[key].n);
      DigitsStart(t[key].n);
      if Shows(t, key, text) {
        DigitsUnique(text);
      }
    }
  }

  /** The package tables of a document: none when there is no such list. */
  predicate Lists(doc: Document, tables: seq<Table>) {
    if "package" in doc && doc["package"].Tables? then tables == doc["package"].tables else tables == []
  }

  /** The table at `i` is the last one that shows this name. */
  ghost predicate LastNamed(tables: seq<Table>, i: nat, name: string) {
    i < |tables| && Shows(tables[i], "name", name) && forall j | i < j < |tables| :: !Shows(tables[j], "name", name)
  }

  ghost predicate Named(tables: seq<Table>, name: string) {
    exists i: nat :: LastNamed(tables, i, name)
  }

  lemma {:induction false} LastCounts(tables: seq<Table>, i: nat, name: string)
    requires LastNamed(tables, i, name)
    ensures name in ByName(tables) && ByName(tables)[name] == tables[i]
  {
    hide Shows, FieldText;
    var n := |tables| - 1;
    ShowsExact(tables[n], "name", name);
    if i < n {
      assert forall j | 0 <= j < n :: tables[..n][j] == tables[j];
      LastCounts(tables[..n], i, name);
    }
  }

  lemma {:induction false} FindLast(tables: seq<Table>, name: string) returns (i: nat)
    requires name in ByName(tables)
    ensures LastNamed(tables, i, name)
  {
    hide Shows, FieldText;
    var n := |tables| - 1;
    ShowsExact(tables[n], "name", name);
    if FieldText(tables[n], "name") == name {
      i := n;
    } else {
      i := FindLast(tables[..n], name);
      assert forall j | 0 <= j < n :: tables[..n][j] == tables[j];
    }
  }

  /** Versions differ for a name that both documents list when its last tables show different versions. */
  ghost predicate Differ(tables: seq<Table>, others: seq<Table>, name: string) {
    exists i: nat, j: nat, v: string ::
      LastNamed(tables, i, name) && LastNamed(others, j, name) && Shows(tables[i], "version", v) && !Shows(others[j], "version", v)
  }

  lemma DifferExact(lock: Document, expected: Document, tables: seq<Table>, others: seq<Table>, name: string)
    requires Lists(lock, tables) && Lists(expected, others)
    ensures name in PackagesByName(lock) <==> Named(tables, name)
    ensures VersionsDiffer(lock, expected, name) <==> Differ(tables, others, name)
  {
    hide ByName, Shows, FieldText;
    assert PackagesByName(lock) == ByName(tables) && PackagesByName(expected) == ByName(others) by {
      EmptyByName();
    }
    if name in ByName(tables) {
      var i := FindLast(tables, name);
      LastCounts(tables, i, name);
    }
    forall i: nat, j: nat, v: string | LastNamed(tables, i, name) && LastNamed(others, j, name)
      ensures name in ByName(tables) && name in ByName(others)
      ensures Shows(tables[i], "version", v) <==> v == FieldText(ByName(tables)[name], "version")
      ensures Shows(others[j], "version", v) <==> v == FieldText(ByName(others)[name], "version")
    {
      LastCounts(tables, i, name);
      LastCounts(others, j, name);
      ShowsExact(tables[i], "version", v);
      ShowsExact(others[j], "version", v);
    }
    if VersionsDiffer(lock, expected, name) {
      var i := FindLast(tables, name);
      var j := FindLast(others, name);
      assert Shows(tables[i], "version", FieldText(ByName(tables)[name], "version"));
    }
    forall i: nat | LastNamed(tables, i, name)
      ensures name in ByName(tables)
    {
      LastCounts(tables, i, name);
    }
  }

  lemma EmptyByName()
    ensures ByName([]) == map[]
  {
  }

  // ----- the check -----

  /** The Python range that a lock states; nothing for anything that counts as false. */
  predicate States(doc: Document, text: string) {
    if "requires-python" !in doc || !doc["requires-python"].Scalar? then text == ""
    else
      match doc["requires-python"].value
      case Str(s) => text == s
      case Bool(b) => text == if b then "True" else ""
      case Int(n) => if n == 0 then text == "" else text == Digits(n)
      case Strings(_) => text == ""
  }

  ghost predicate SameNames(tables: seq<Table>, others: seq<Table>) {
    forall name: string :: Named(tables, name) <==> Named(others, name)
  }

  /** A lock is accepted for its source, its range, its equality with what is expected, and its packages' versions. */
  lemma AcceptedExact(lock: Document, expected: Document, tables: seq<Table>, others: seq<Table>, range: string, supports: string -> bool)
    requires Lists(lock, tables) && Lists(expected, others) && States(lock, range)
    ensures Accepted(lock, expected, supports)
       <==> && "authoritative-source" in lock && lock["authoritative-source"] == Scalar(Str("requirements"))
            && supports(range) && EqualDocuments(lock, expected)
            && SameNames(tables, others) && forall name: string :: !Differ(tables, others, name)
  {
    assert range == TextOf(lock, "requires-python");
    EqualDocumentsExact(lock, expected);
    hide PackagesByName, SameDocument, EqualDocuments, Differ, Named, VersionsDiffer, TextOf, States;
    forall name: string
      ensures name in PackagesByName(lock) <==> Named(tables, name)
      ensures name in PackagesByName(expected) <==> Named(others, name)
      ensures VersionsDiffer(lock, expected, name) <==> Differ(tables, others, name)
    {
      DifferExact(lock, expected, tables, others, name);
      DifferExact(expected, lock, others, tables, name);
    }
    NamesOnly(lock, expected);
  }

  lemma NamesOnly(lock: Document, expected: Document)
    ensures NoMismatch(lock, expected)
       <==> && (forall name: string :: name in PackagesByName(lock) <==> name in PackagesByName(expected))
            && forall name: string :: !VersionsDiffer(lock, expected, name)
  {
    hide PackagesByName, FieldText;
  }

  // ----- the keys that the reader knows -----

  predicate KeyCharacter(c: char) {
    c in "abcdefghijklmnopqrstuvwxyz" || c in "ABCDEFGHIJKLMNOPQRSTUVWXYZ" || c in "0123456789_-"
  }

  lemma KeyCharacterExact(c: char)
    ensures 'a' <= c <= 'z' || 'A' <= c <= 'Z' || IsDigit(c) || c == '_' || c == '-' <==> KeyCharacter(c)
  {
    var lower, upper, other := "abcdefghijklmnopqrstuvwxyz", "ABCDEFGHIJKLMNOPQRSTUVWXYZ", "0123456789_-";
    assert forall i | 0 <= i < 26 :: lower[i] as int == 'a' as int + i;
    assert forall i | 0 <= i < 26 :: upper[i] as int == 'A' as int + i;
    assert forall i | 0 <= i < 10 :: other[i] as int == '0' as int + i;
    assert other[10] == '_' && other[11] == '-' && |other| == 12;
    if 'a' <= c <= 'z' {
      assert lower[c as int - 'a' as int] == c;
    } else if 'A' <= c <= 'Z' {
      assert upper[c as int - 'A' as int] == c;
    } else if IsDigit(c) {
      assert other[c as int - '0' as int] == c;
    }
  }

  /** A bare key, after the section "Keys" of TOML v1.0.0. */
  lemma BareKeyExact(s: string)
    ensures IsBareKey(s) <==> s != "" && forall i | 0 <= i < |s| :: KeyCharacter(s[i])
  {
    hide KeyCharacter, IsDigit;
    forall c: char
      ensures 'a' <= c <= 'z' || 'A' <= c <= 'Z' || IsDigit(c) || c == '_' || c == '-' <==> KeyCharacter(c)
    {
      KeyCharacterExact(c);
    }
  }
}
