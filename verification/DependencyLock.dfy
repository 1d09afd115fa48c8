/** The lock of scripts/dependency_lock_evidence.py: printed as TOML, read back, and validated. */
module DependencyLock {
  import opened Wrappers
  import opened Text
  import opened TomlText

  // ----- the payload -----

  datatype RequirementFile = RequirementFile(group: string, path: string, sha256: string)

  datatype LockedPackage = LockedPackage(
    name: string, version: string, direct: bool, groups: seq<string>,
    requirementFiles: seq<string>, extras: seq<string>, requirementHashes: seq<string>)

  datatype Payload = Payload(
    version: nat, revision: nat, requiresPython: string, authoritativeSource: string, generatedBy: string,
    licenseInventory: string, licenseInventorySha256: string,
    requirementFiles: seq<RequirementFile>, packages: seq<LockedPackage>,
    packageCount: nat, directPackageCount: nat, transitivePackageCount: nat)

  /** A `key = value` pair. */
  datatype Field = Field(key: string, value: Value)

  function RootFields(p: Payload): seq<Field> {
    [ Field("version", Int(p.version)),
      Field("revision", Int(p.revision)),
      Field("requires-python", Str(p.requiresPython)),
      Field("authoritative-source", Str(p.authoritativeSource)),
      Field("generated-by", Str(p.generatedBy)),
      Field("license-inventory", Str(p.licenseInventory)),
      Field("license-inventory-sha256", Str(p.licenseInventorySha256)) ]
  }

  function FileFields(f: RequirementFile): seq<Field> {
    [Field("group", Str(f.group)), Field("path", Str(f.path)), Field("sha256", Str(f.sha256))]
  }

  function PackageFields(p: LockedPackage): seq<Field> {
    [ Field("name", Str(p.name)),
      Field("version", Str(p.version)),
      Field("direct", Bool(p.direct)),
      Field("groups", Strings(p.groups)),
      Field("requirement-files", Strings(p.requirementFiles)),
      Field("extras", Strings(p.extras)),
      Field("requirement-hashes", Strings(p.requirementHashes)) ]
  }

  function SummaryFields(p: Payload): seq<Field> {
    [ Field("package-count", Int(p.packageCount)),
      Field("direct-package-count", Int(p.directPackageCount)),
      Field("transitive-package-count", Int(p.transitivePackageCount)) ]
  }

  function FilesFields(files: seq<RequirementFile>): seq<seq<Field>> {
    seq(|files|, i requires 0 <= i < |files| => FileFields(files[i]))
  }

  function PackagesFields(packages: seq<LockedPackage>): seq<seq<Field>> {
    seq(|packages|, i requires 0 <= i < |packages| => PackageFields(packages[i]))
  }

  // ----- printing -----

  function FieldLine(f: Field): string {
    f.key + " = " + PrintValue(f.value)
  }

  function FieldLines(fields: seq<Field>): seq<string> {
    if fields == [] then [] else [FieldLine(fields[0])] + FieldLines(fields[1..])
  }

  /** One `[[name]]` block per table. */
  function TableLines(name: string, tables: seq<seq<Field>>): seq<string> {
    if tables == [] then []
    else ["[[" + name + "]]"] + FieldLines(tables[0]) + [""] + TableLines(name, tables[1..])
  }

  function TomlLines(p: Payload): seq<string> {
    FieldLines(RootFields(p)) + [""]
    + TableLines("requirement-files", FilesFields(p.requirementFiles))
    + TableLines("package", PackagesFields(p.packages))
    + (["[summary]"] + FieldLines(SummaryFields(p)) + [""])
  }

  function LockText(p: Payload): string
  {
    Join(TomlLines(p), '\n')
  }

  lemma {:induction false} TableLinesAppend(name: string, tables: seq<seq<Field>>, table: seq<Field>)
    ensures TableLines(name, tables + [table])
         == TableLines(name, tables) + (["[[" + name + "]]"] + FieldLines(table) + [""])
  {
    if tables == [] {
      assert tables + [table] == [table] && [table][1..] == [];
    } else {
      assert (tables + [table])[1..] == tables[1..] + [table];
      TableLinesAppend(name, tables[1..], table);
    }
  }

  lemma NoTables(name: string)
    ensures TableLines(name, []) == []
  {
  }

  /** The loops of `_to_toml`. */
  method ToToml(p: Payload) returns (text: string)
    ensures text == LockText(p)
  {
    hide FieldLines, RootFields, FileFields, PackageFields, SummaryFields, TableLines, Join, FilesFields, PackagesFields;
    var lines := FieldLines(RootFields(p)) + [""];
    var files := PrintFiles(p.requirementFiles);
    lines := lines + files;
    var packages := PrintPackages(p.packages);
    lines := lines + packages;
    lines := lines + (["[summary]"] + FieldLines(SummaryFields(p)) + [""]);
    text := Join(lines, '\n');
  }

  /** The first loop: a block for each requirement file. */
  method PrintFiles(files: seq<RequirementFile>) returns (lines: seq<string>)
    ensures lines == TableLines("requirement-files", FilesFields(files))
  {
    hide FieldLines, FileFields, TableLines;
    lines := [];
    NoTables("requirement-files");
    assert FilesFields(files[..0]) == [];
    for i := 0 to |files|
      invariant lines == TableLines("requirement-files", FilesFields(files[..i]))
    {
      TableLinesAppend("requirement-files", FilesFields(files[..i]), FileFields(files[i]));
      assert "[[" + "requirement-files" + "]]" == "[[requirement-files]]";
      assert FilesFields(files[..i + 1]) == FilesFields(files[..i]) + [FileFields(files[i])];
      lines := lines + (["[[requirement-files]]"] + FieldLines(FileFields(files[i])) + [""]);
    }
    assert files[..|files|] == files;
  }

  /** The second loop: a block for each package. */
  method PrintPackages(packages: seq<LockedPackage>) returns (lines: seq<string>)
    ensures lines == TableLines("package", PackagesFields(packages))
  {
    hide FieldLines, PackageFields, TableLines;
    lines := [];
    NoTables("package");
    assert PackagesFields(packages[..0]) == [];
    for i := 0 to |packages|
      invariant lines == TableLines("package", PackagesFields(packages[..i]))
    {
      TableLinesAppend("package", PackagesFields(packages[..i]), PackageFields(packages[i]));
      assert "[[" + "package" + "]]" == "[[package]]";
      assert PackagesFields(packages[..i + 1]) == PackagesFields(packages[..i]) + [PackageFields(packages[i])];
      lines := lines + (["[[package]]"] + FieldLines(PackageFields(packages[i])) + [""]);
    }
    assert packages[..|packages|] == packages;
  }

  // ----- documents, and the dictionary that the lock is built as -----

  type Table = map<string, Value>

  datatype Node = Scalar(value: Value) | Tables(tables: seq<Table>) | OneTable(table: Table)

  type Document = map<string, Node>

  function AddFields(t: Table, fields: seq<Field>): Table
    decreases fields
  {
    if fields == [] then t else AddFields(t[fields[0].key := fields[0].value], fields[1..])
  }

  function TablesOf(tables: seq<seq<Field>>): seq<Table> {
    seq(|tables|, i requires 0 <= i < |tables| => AddFields(map[], tables[i]))
  }

  function Scalars(t: Table): Document {
    map k | k in t :: Scalar(t[k])
  }

  function RootDocument(p: Payload): Document {
    Scalars(AddFields(map[], RootFields(p)))
  }

  function FileTable(f: RequirementFile): Table {
    map["group" := Str(f.group), "path" := Str(f.path), "sha256" := Str(f.sha256)]
  }

  function PackageTable(p: LockedPackage): Table {
    map["name" := Str(p.name), "version" := Str(p.version), "direct" := Bool(p.direct),
        "groups" := Strings(p.groups), "requirement-files" := Strings(p.requirementFiles),
        "extras" := Strings(p.extras), "requirement-hashes" := Strings(p.requirementHashes)]
  }

  function SummaryTable(p: Payload): Table {
    map["package-count" := Int(p.packageCount),
        "direct-package-count" := Int(p.directPackageCount),
        "transitive-package-count" := Int(p.transitivePackageCount)]
  }

  function RootTable(p: Payload): Table {
    map["version" := Int(p.version),
        "revision" := Int(p.revision),
        "requires-python" := Str(p.requiresPython),
        "authoritative-source" := Str(p.authoritativeSource),
        "generated-by" := Str(p.generatedBy),
        "license-inventory" := Str(p.licenseInventory),
        "license-inventory-sha256" := Str(p.licenseInventorySha256)]
  }

  function FileTables(files: seq<RequirementFile>): seq<Table> {
    seq(|files|, i requires 0 <= i < |files| => FileTable(files[i]))
  }

  function PackageTables(packages: seq<LockedPackage>): seq<Table> {
    seq(|packages|, i requires 0 <= i < |packages| => PackageTable(packages[i]))
  }

  /** The dictionary that `build_dependency_lock` returns. */
  function BuiltDocument(p: Payload): Document {
    Scalars(RootTable(p)) + map[
      "requirement-files" := Tables(FileTables(p.requirementFiles)),
      "package" := Tables(PackageTables(p.packages)),
      "summary" := OneTable(SummaryTable(p))]
  }

  // ----- reading, after the sections "Keys", "Table" and "Array of Tables" of TOML v1.0.0 -----

  predicate IsBareKey(s: string) {
    s != "" && forall i | 0 <= i < |s| ::
      'a' <= s[i] <= 'z' || 'A' <= s[i] <= 'Z' || IsDigit(s[i]) || s[i] == '_' || s[i] == '-'
  }

  datatype Line = Blank | ArrayHeader(name: string) | TableHeader(name: string) | Pair(field: Field) | Malformed

  function ReadLine(line: string): Line {
    if line == "" then Blank
    else if StartsWith(line, "[[") then
      if |line| > 4 && EndsWith(line, "]]") && IsBareKey(line[2..|line| - 2]) then ArrayHeader(line[2..|line| - 2])
      else Malformed
    else if StartsWith(line, "[") then
      if |line| > 2 && EndsWith(line, "]") && IsBareKey(line[1..|line| - 1]) then TableHeader(line[1..|line| - 1])
      else Malformed
    else
      var i := IndexOf(line, ' ');
      if i + 3 > |line| || line[i..i + 3] != " = " || !IsBareKey(line[..i]) then Malformed
      else
        match ReadValue(line[i + 3..])
        case Some(v) => Pair(Field(line[..i], v))
        case None => Malformed
  }

  /** The document so far, and the name of the table being filled (None at the root). */
  datatype Reading = Reading(doc: Document, at: Option<string>)

  function Put(r: Reading, f: Field): Option<Reading> {
    match r.at
    case None => if f.key in r.doc then None else Some(r.(doc := r.doc[f.key := Scalar(f.value)]))
    case Some(name) =>
      if name !in r.doc then None
      else
        match r.doc[name]
        case Scalar(_) => None
        case OneTable(t) =>
          if f.key in t then None else Some(r.(doc := r.doc[name := OneTable(t[f.key := f.value])]))
        case Tables(ts) =>
          if ts == [] || f.key in ts[|ts| - 1] then None
          else
            var last := ts[|ts| - 1][f.key := f.value];
            Some(r.(doc := r.doc[name := Tables(ts[..|ts| - 1] + [last])]))
  }

  function StepLine(r: Reading, line: string): Option<Reading> {
    match ReadLine(line)
    case Blank => Some(r)
    case Malformed => None
    case Pair(f) => Put(r, f)
    case TableHeader(name) =>
      if name in r.doc then None else Some(Reading(r.doc[name := OneTable(map[])], Some(name)))
    case ArrayHeader(name) =>
      if name !in r.doc then Some(Reading(r.doc[name := Tables([map[]])], Some(name)))
      else if r.doc[name].Tables? then
        Some(Reading(r.doc[name := Tables(r.doc[name].tables + [map[]])], Some(name)))
      else None
  }

  function ReadLines(r: Reading, lines: seq<string>): Option<Reading>
    decreases |lines|
  {
    if lines == [] then Some(r)
    else
      match StepLine(r, lines[0])
      case None => None
      case Some(next) => ReadLines(next, lines[1..])
  }

  /** `tomllib.loads`, for the forms above. */
  function ReadToml(text: string): Option<Document> {
    match ReadLines(Reading(map[], None), Split(text, '\n'))
    case Some(r) => Some(r.doc)
    case None => None
  }

  // ----- reading what was printed -----

  lemma {:induction false} ReadLinesAppend(r: Reading, a: seq<string>, b: seq<string>)
    ensures ReadLines(r, a + b)
         == match ReadLines(r, a) case Some(next) => ReadLines(next, b) case None => None
    decreases |a|
  {
    hide StepLine;
    if a == [] {
      assert a + b == b;
    } else {
      assert (a + b)[0] == a[0] && (a + b)[1..] == a[1..] + b;
      if StepLine(r, a[0]).Some? {
        ReadLinesAppend(StepLine(r, a[0]).value, a[1..], b);
      }
    }
  }

  lemma ReadLinesOne(r: Reading, line: string)
    ensures ReadLines(r, [line]) == StepLine(r, line)
  {
  }

  lemma ReadFieldLine(f: Field)
    requires IsBareKey(f.key)
    ensures ReadLine(FieldLine(f)) == if Readable(f.value) then Pair(f) else Malformed
  {
    hide PrintValue, ReadValue, Readable;
    var line, value := FieldLine(f), PrintValue(f.value);
    assert line == f.key + [' '] + ("= " + value);
    assert ' ' !in f.key;
    IndexOfAppend(f.key, ' ', "= " + value);
    var i := |f.key|;
    assert line[0] == f.key[0];
    assert line[..i] == f.key && line[i..i + 3] == " = " && line[i + 3..] == value;
    ReadPrintedValue(f.value);
  }

  lemma ReadHeaders(name: string)
    requires IsBareKey(name)
    ensures ReadLine("[[" + name + "]]") == ArrayHeader(name)
    ensures ReadLine("[" + name + "]") == TableHeader(name)
  {
    hide ReadValue;
    var line := "[[" + name + "]]";
    assert line[..2] == "[[" && line[2..|line| - 2] == name && line[|line| - 2..] == "]]";
    var one := "[" + name + "]";
    assert one[0] == '[' && one[1] == name[0] && one[1..|one| - 1] == name && one[|one| - 1..] == "]";
  }

  /** Bare keys, pairwise distinct and not yet in `t`. */
  predicate FreshKeys(t: set<string>, fields: seq<Field>) {
    && (forall i | 0 <= i < |fields| :: IsBareKey(fields[i].key) && fields[i].key !in t)
    && (forall i, j | 0 <= i < j < |fields| :: fields[i].key != fields[j].key)
  }

  lemma FreshKeysRest(t: set<string>, fields: seq<Field>)
    requires fields != [] && FreshKeys(t, fields)
    ensures FreshKeys(t + {fields[0].key}, fields[1..])
  {
  }

  predicate AllReadable(fields: seq<Field>) {
    forall i | 0 <= i < |fields| :: Readable(fields[i].value)
  }

  /** The table that the reader is filling. */
  function Current(r: Reading): Table
    requires r.at.Some? && r.at.value in r.doc
    requires r.doc[r.at.value].OneTable? || (r.doc[r.at.value].Tables? && r.doc[r.at.value].tables != [])
  {
    match r.doc[r.at.value]
    case OneTable(t) => t
    case Tables(ts) => ts[|ts| - 1]
  }

  predicate InTable(r: Reading) {
    r.at.Some? && r.at.value in r.doc
    && (r.doc[r.at.value].OneTable? || (r.doc[r.at.value].Tables? && r.doc[r.at.value].tables != []))
  }

  function SetCurrent(r: Reading, t: Table): Reading
    requires InTable(r)
  {
    r.(doc := r.doc[r.at.value :=
      match r.doc[r.at.value]
      case OneTable(_) => OneTable(t)
      case Tables(ts) => Tables(ts[..|ts| - 1] + [t])])
  }

  lemma PutInTable(r: Reading, f: Field)
    requires InTable(r) && f.key !in Current(r)
    ensures var next := SetCurrent(r, Current(r)[f.key := f.value]);
            Put(r, f) == Some(next) && InTable(next) && Current(next) == Current(r)[f.key := f.value]
    ensures forall t :: SetCurrent(SetCurrent(r, Current(r)[f.key := f.value]), t) == SetCurrent(r, t)
  {
  }

  lemma {:induction false} ReadFieldLines(r: Reading, fields: seq<Field>)
    requires InTable(r) && FreshKeys(Current(r).Keys, fields)
    ensures ReadLines(r, FieldLines(fields))
         == if AllReadable(fields) then Some(SetCurrent(r, AddFields(Current(r), fields))) else None
    decreases |fields|
  {
    hide FieldLine, ReadLine, Readable;
    if fields == [] {
      SetCurrentSame(r);
    } else {
      var f := fields[0];
      ReadFieldLine(f);
      var lines := FieldLines(fields);
      assert lines[0] == FieldLine(f) && lines[1..] == FieldLines(fields[1..]);
      AllReadableSplit(fields);
      if Readable(f.value) {
        PutInTable(r, f);
        var next := SetCurrent(r, Current(r)[f.key := f.value]);
        assert Current(next).Keys == Current(r).Keys + {f.key};
        FreshKeysRest(Current(r).Keys, fields);
        ReadFieldLines(next, fields[1..]);
      }
    }
  }

  lemma SetCurrentSame(r: Reading)
    requires InTable(r)
    ensures SetCurrent(r, Current(r)) == r
  {
    if r.doc[r.at.value].Tables? {
      var ts := r.doc[r.at.value].tables;
      assert ts[..|ts| - 1] + [ts[|ts| - 1]] == ts;
    }
  }

  lemma AllReadableSplit(fields: seq<Field>)
    requires fields != []
    ensures AllReadable(fields) <==> Readable(fields[0].value) && AllReadable(fields[1..])
  {
  }

  /** Root fields become scalars of the document. */
  function WithScalars(doc: Document, fields: seq<Field>): Document
    decreases fields
  {
    if fields == [] then doc else WithScalars(doc[fields[0].key := Scalar(fields[0].value)], fields[1..])
  }

  lemma {:induction false} ReadRootLines(doc: Document, fields: seq<Field>)
    requires FreshKeys(doc.Keys, fields)
    ensures ReadLines(Reading(doc, None), FieldLines(fields))
         == if AllReadable(fields) then Some(Reading(WithScalars(doc, fields), None)) else None
    decreases |fields|
  {
    hide FieldLine, ReadLine, Readable;
    if fields == [] {
    } else {
      var f := fields[0];
      ReadFieldLine(f);
      var lines := FieldLines(fields);
      assert lines[0] == FieldLine(f) && lines[1..] == FieldLines(fields[1..]);
      AllReadableSplit(fields);
      if Readable(f.value) {
        var next := doc[f.key := Scalar(f.value)];
        assert next.Keys == doc.Keys + {f.key};
        FreshKeysRest(doc.Keys, fields);
        ReadRootLines(next, fields[1..]);
      }
    }
  }

  lemma {:induction false} WithScalarsMap(t: Table, fields: seq<Field>)
    ensures WithScalars(Scalars(t), fields) == Scalars(AddFields(t, fields))
    decreases fields
  {
    if fields == [] {
    } else {
      var t' := t[fields[0].key := fields[0].value];
      assert Scalars(t)[fields[0].key := Scalar(fields[0].value)] == Scalars(t');
      WithScalarsMap(t', fields[1..]);
    }
  }

  predicate TablesReadable(tables: seq<seq<Field>>) {
    forall i | 0 <= i < |tables| :: AllReadable(tables[i])
  }

  predicate TablesFresh(tables: seq<seq<Field>>) {
    forall i | 0 <= i < |tables| :: FreshKeys({}, tables[i])
  }

  /** `doc` with more tables under `name`; no `[[name]]` block leaves no entry. */
  function WithTables(doc: Document, name: string, tables: seq<Table>): Document
    requires name in doc ==> doc[name].Tables?
  {
    if tables == [] then doc
    else doc[name := Tables(TablesAt(doc, name) + tables)]
  }

  lemma {:induction false} ReadTableLines(r: Reading, name: string, tables: seq<seq<Field>>)
    requires IsBareKey(name) && TablesFresh(tables) && (name in r.doc ==> r.doc[name].Tables?)
    ensures var result := ReadLines(r, TableLines(name, tables));
            && result.Some? == TablesReadable(tables)
            && (result.Some? ==> result.value.doc == WithTables(r.doc, name, TablesOf(tables)))
    decreases |tables|
  {
    if tables == [] {
    } else {
      var head := ["[[" + name + "]]"] + FieldLines(tables[0]) + [""];
      ReadLinesAppend(r, head, TableLines(name, tables[1..]));
      assert FreshKeys({}, tables[0]);
      ReadOneTable(r, name, tables[0]);
      assert TablesFresh(tables[1..]) by {
        assert forall i | 0 <= i < |tables| - 1 :: tables[1..][i] == tables[i + 1];
      }
      TablesReadableSplit(tables);
      if AllReadable(tables[0]) {
        var next := ReadLines(r, head).value;
        ReadTableLines(next, name, tables[1..]);
        WithTablesTwice(r.doc, name, tables);
      }
    }
  }

  lemma TablesReadableSplit(tables: seq<seq<Field>>)
    requires tables != []
    ensures TablesReadable(tables) <==> AllReadable(tables[0]) && TablesReadable(tables[1..])
  {
  }

  lemma WithTablesTwice(doc: Document, name: string, tables: seq<seq<Field>>)
    requires tables != [] && (name in doc ==> doc[name].Tables?)
    ensures var next := WithTables(doc, name, [AddFields(map[], tables[0])]);
            WithTables(next, name, TablesOf(tables[1..])) == WithTables(doc, name, TablesOf(tables))
  {
    hide AddFields;
    var before := if name in doc then doc[name].tables else [];
    assert TablesOf(tables) == [AddFields(map[], tables[0])] + TablesOf(tables[1..]);
    var first := [AddFields(map[], tables[0])];
    assert (before + first) + TablesOf(tables[1..]) == before + TablesOf(tables);
    var next := WithTables(doc, name, first);
    if |tables| == 1 {
      assert TablesOf(tables) == first;
    } else {
      assert WithTables(next, name, TablesOf(tables[1..])) == doc[name := Tables(before + TablesOf(tables))];
    }
  }

  /** The tables under `name` so far. */
  function TablesAt(doc: Document, name: string): seq<Table>
    requires name in doc ==> doc[name].Tables?
  {
    if name in doc then doc[name].tables else []
  }

  lemma OpenTable(r: Reading, name: string) returns (open: Reading)
    requires IsBareKey(name) && (name in r.doc ==> r.doc[name].Tables?)
    ensures ReadLines(r, ["[[" + name + "]]"]) == Some(open)
    ensures open == Reading(r.doc[name := Tables(TablesAt(r.doc, name) + [map[]])], Some(name))
  {
    ReadHeaders(name);
    ReadLinesOne(r, "[[" + name + "]]");
    open := Reading(r.doc[name := Tables(TablesAt(r.doc, name) + [map[]])], Some(name));
    assert name !in r.doc ==> TablesAt(r.doc, name) + [map[]] == [map[]];
  }

  lemma ReadOneTable(r: Reading, name: string, fields: seq<Field>)
    requires IsBareKey(name) && FreshKeys({}, fields) && (name in r.doc ==> r.doc[name].Tables?)
    ensures var result := ReadLines(r, ["[[" + name + "]]"] + FieldLines(fields) + [""]);
            && result.Some? == AllReadable(fields)
            && (result.Some? ==> result.value == Reading(WithTables(r.doc, name, [AddFields(map[], fields)]), Some(name)))
  {
    hide AddFields, FieldLines, AllReadable, ReadLine, ReadLines;
    var open := OpenTable(r, name);
    var before := TablesAt(r.doc, name);
    assert Current(open) == map[] && Current(open).Keys == {};
    ReadFieldLines(open, fields);
    ReadLinesAppend(r, ["[[" + name + "]]"], FieldLines(fields));
    ReadLinesAppend(r, ["[[" + name + "]]"] + FieldLines(fields), [""]);
    if AllReadable(fields) {
      var t := AddFields(map[], fields);
      var filled := SetCurrent(open, t);
      ReadBlank(filled);
      assert (before + [map[]])[..|before + [map[]]| - 1] + [t] == before + [t];
      assert filled == Reading(WithTables(r.doc, name, [t]), Some(name));
    }
  }

  lemma ReadBlank(r: Reading)
    ensures ReadLines(r, [""]) == Some(r)
  {
  }

  lemma ReadSummary(r: Reading, fields: seq<Field>)
    requires "summary" !in r.doc && FreshKeys({}, fields) && AllReadable(fields)
    ensures ReadLines(r, ["[summary]"] + FieldLines(fields) + [""])
         == Some(Reading(r.doc["summary" := OneTable(AddFields(map[], fields))], Some("summary")))
  {
    hide AddFields, FieldLines, AllReadable;
    ReadHeaders("summary");
    assert "[" + "summary" + "]" == "[summary]";
    ReadLinesOne(r, "[summary]");
    var open := Reading(r.doc["summary" := OneTable(map[])], Some("summary"));
    assert Current(open).Keys == {};
    ReadFieldLines(open, fields);
    ReadLinesAppend(r, ["[summary]"], FieldLines(fields));
    ReadLinesAppend(r, ["[summary]"] + FieldLines(fields), [""]);
    var filled := SetCurrent(open, AddFields(map[], fields));
    assert filled.doc == r.doc["summary" := OneTable(AddFields(map[], fields))];
    ReadBlank(filled);
  }

  // ----- the round trip -----

  /** Every string of the payload stays in the Basic Multilingual Plane. */
  predicate PayloadReadable(p: Payload) {
    && AllReadable(RootFields(p)) && TablesReadable(FilesFields(p.requirementFiles))
    && TablesReadable(PackagesFields(p.packages))
  }

  lemma {:induction false} AddFieldsExact(t: Table, fields: seq<Field>)
    requires FreshKeys(t.Keys, fields)
    ensures AddFields(t, fields).Keys == t.Keys + set i | 0 <= i < |fields| :: fields[i].key
    ensures forall k | k in t :: AddFields(t, fields)[k] == t[k]
    ensures forall i | 0 <= i < |fields| :: AddFields(t, fields)[fields[i].key] == fields[i].value
    decreases fields
  {
    hide IsBareKey;
    if fields == [] {
    } else {
      var t' := t[fields[0].key := fields[0].value];
      assert t'.Keys == t.Keys + {fields[0].key};
      FreshKeysRest(t.Keys, fields);
      AddFieldsExact(t', fields[1..]);
      assert forall i | 1 <= i < |fields| :: fields[i] == fields[1..][i - 1];
      assert forall i | 0 <= i < |fields| - 1 :: fields[1..][i] == fields[i + 1];
    }
  }

  // ----- the keys of the lock are bare and distinct -----

  /** The names of the tables of a lock. */
  const TABLE_NAMES := {"requirement-files", "package", "summary"}

  lemma RootKeys(p: Payload)
    ensures FreshKeys(TABLE_NAMES, RootFields(p))
  {
    hide *;
    RootKeysBare(p);
    RootKeysApart(p);
    FreshKeysFrom(TABLE_NAMES, RootFields(p));
  }

  lemma FreshKeysFrom(t: set<string>, fields: seq<Field>)
    requires forall i | 0 <= i < |fields| :: IsBareKey(fields[i].key)
    requires forall i | 0 <= i < |fields| :: fields[i].key !in t
    requires forall i, j | 0 <= i < j < |fields| :: fields[i].key != fields[j].key
    ensures FreshKeys(t, fields)
  {
  }

  lemma RootKeysBare(p: Payload)
    ensures forall i | 0 <= i < |RootFields(p)| :: IsBareKey(RootFields(p)[i].key)
  {
  }

  lemma RootKeysApart(p: Payload)
    ensures forall i | 0 <= i < |RootFields(p)| :: RootFields(p)[i].key !in TABLE_NAMES
    ensures forall i, j | 0 <= i < j < |RootFields(p)| :: RootFields(p)[i].key != RootFields(p)[j].key
  {
  }

  lemma {:induction false} SummaryKeys(p: Payload)
    ensures FreshKeys({}, SummaryFields(p))
  {
    SummaryKeysBare();
    hide IsBareKey;
    var fields := SummaryFields(p);
    assert |fields[0].key| == 13 && |fields[1].key| == 20 && |fields[2].key| == 24;
  }

  lemma SummaryKeysBare()
    ensures IsBareKey("package-count") && IsBareKey("direct-package-count") && IsBareKey("transitive-package-count")
  {
  }

  lemma {:induction false} FileKeys(f: RequirementFile)
    ensures FreshKeys({}, FileFields(f))
  {
    var fields := FileFields(f);
    assert IsBareKey("group") && IsBareKey("path") && IsBareKey("sha256");
    hide IsBareKey;
    assert |fields[0].key| == 5 && |fields[1].key| == 4 && |fields[2].key| == 6;
  }

  lemma {:induction false} PackageKeys(p: LockedPackage)
    ensures FreshKeys({}, PackageFields(p))
  {
    PackageKeysBare();
    hide IsBareKey;
    var fields := PackageFields(p);
    assert |fields[0].key| == 4 && |fields[1].key| == 7 && |fields[2].key| == 6 && |fields[3].key| == 6;
    assert |fields[4].key| == 17 && |fields[5].key| == 6 && |fields[6].key| == 18;
    assert fields[2].key[0] == 'd' && fields[3].key[0] == 'g' && fields[5].key[0] == 'e';
  }

  lemma PackageKeysBare()
    ensures IsBareKey("name") && IsBareKey("version") && IsBareKey("direct") && IsBareKey("groups")
    ensures IsBareKey("requirement-files") && IsBareKey("extras") && IsBareKey("requirement-hashes")
  {
  }

  /** The keys that `[[name]]` blocks would introduce, for the empty lists. */
  function EmptyTables(p: Payload): set<string> {
    (if p.requirementFiles == [] then {"requirement-files"} else {})
    + (if p.packages == [] then {"package"} else {})
  }

  /** What reading the lock yields, in terms of its fields. */
  function ReadBack(p: Payload): Document {
    RootDocument(p)
    + (if p.requirementFiles == [] then map[]
       else map["requirement-files" := Tables(TablesOf(FilesFields(p.requirementFiles)))])
    + (if p.packages == [] then map[] else map["package" := Tables(TablesOf(PackagesFields(p.packages)))])
    + map["summary" := OneTable(AddFields(map[], SummaryFields(p)))]
  }

  lemma TableOfFields(t: Table, fields: seq<Field>)
    requires FreshKeys({}, fields)
    requires forall i | 0 <= i < |fields| :: fields[i].key in t && t[fields[i].key] == fields[i].value
    requires forall k | k in t :: exists i :: 0 <= i < |fields| && fields[i].key == k
    ensures AddFields(map[], fields) == t
  {
    hide IsBareKey, AddFields;
    AddFieldsExact(map[], fields);
    var r := AddFields(map[], fields);
    forall k | k in t
      ensures k in r && r[k] == t[k]
    {
      var i :| 0 <= i < |fields| && fields[i].key == k;
    }
    assert r.Keys == t.Keys;
  }

  lemma FileTableFields(f: RequirementFile)
    ensures AddFields(map[], FileFields(f)) == FileTable(f)
  {
    var fields, t := FileFields(f), FileTable(f);
    FileKeys(f);
    hide IsBareKey, AddFields;
    assert fields[0].key == "group" && fields[1].key == "path" && fields[2].key == "sha256";
    TableOfFields(t, fields);
  }

  lemma PackageTableFields(p: LockedPackage)
    ensures AddFields(map[], PackageFields(p)) == PackageTable(p)
  {
    var fields, t := PackageFields(p), PackageTable(p);
    PackageKeys(p);
    hide IsBareKey, AddFields;
    assert fields[0].key == "name" && fields[1].key == "version" && fields[2].key == "direct" && fields[3].key == "groups"
        && fields[4].key == "requirement-files" && fields[5].key == "extras" && fields[6].key == "requirement-hashes";
    assert fields[2].key[0] == 'd' && fields[3].key[0] == 'g' && fields[5].key[0] == 'e';
    TableOfFields(t, fields);
  }

  lemma SummaryTableFields(p: Payload)
    ensures AddFields(map[], SummaryFields(p)) == SummaryTable(p)
  {
    var fields, t := SummaryFields(p), SummaryTable(p);
    SummaryKeys(p);
    hide IsBareKey, AddFields;
    assert fields[0].key == "package-count" && fields[1].key == "direct-package-count"
        && fields[2].key == "transitive-package-count";
    TableOfFields(t, fields);
  }

  lemma RootTableFields(p: Payload)
    ensures AddFields(map[], RootFields(p)) == RootTable(p)
  {
    var fields, t := RootFields(p), RootTable(p);
    RootKeys(p);
    hide IsBareKey, AddFields;
    assert fields[0].key == "version" && fields[1].key == "revision" && fields[2].key == "requires-python"
        && fields[3].key == "authoritative-source" && fields[4].key == "generated-by"
        && fields[5].key == "license-inventory" && fields[6].key == "license-inventory-sha256";
    TableOfFields(t, fields);
  }

  lemma ListedTableFields(p: Payload)
    ensures TablesOf(FilesFields(p.requirementFiles)) == FileTables(p.requirementFiles)
    ensures TablesOf(PackagesFields(p.packages)) == PackageTables(p.packages)
  {
    hide AddFields, FileFields, PackageFields, FileTable, PackageTable;
    forall i | 0 <= i < |p.requirementFiles|
      ensures TablesOf(FilesFields(p.requirementFiles))[i] == FileTable(p.requirementFiles[i])
    {
      FileTableFields(p.requirementFiles[i]);
    }
    forall i | 0 <= i < |p.packages|
      ensures TablesOf(PackagesFields(p.packages))[i] == PackageTable(p.packages[i])
    {
      PackageTableFields(p.packages[i]);
    }
  }

  lemma WithoutKeys(root: Document, a: string, b: string, c: string, x: Node, y: Node, z: Node, noA: bool, noB: bool)
    requires a != b && b != c && a != c && a !in root && b !in root && c !in root
    ensures root + (if noA then map[] else map[a := x]) + (if noB then map[] else map[b := y]) + map[c := z]
         == (root + map[a := x, b := y, c := z]) - ((if noA then {a} else {}) + (if noB then {b} else {}))
  {
  }

  /** What reading the lock yields: the built dictionary, without the empty lists of tables. */
  lemma ReadBackIsBuilt(p: Payload)
    ensures ReadBack(p) == BuiltDocument(p) - EmptyTables(p)
  {
    RootTableFields(p);
    SummaryTableFields(p);
    ListedTableFields(p);
    RootDocumentKeys(p);
    assert "requirement-files"[0] != "package"[0] && "summary"[0] != "package"[0];
    hide RootFields, FilesFields, PackagesFields, SummaryFields, AddFields, TablesOf, FileTables, PackageTables,
         RootTable, SummaryTable, Scalars;
    WithoutKeys(RootDocument(p), "requirement-files", "package", "summary",
                Tables(FileTables(p.requirementFiles)), Tables(PackageTables(p.packages)), OneTable(SummaryTable(p)),
                p.requirementFiles == [], p.packages == []);
  }

  lemma RootDocumentKeys(p: Payload)
    ensures RootDocument(p).Keys !! TABLE_NAMES
    ensures RootDocument(p) == WithScalars(map[], RootFields(p))
  {
    hide RootFields;
    RootKeys(p);
    AddFieldsExact(map[], RootFields(p));
    WithScalarsMap(map[], RootFields(p));
    assert Scalars(map[]) == map[];
  }

  /** The printed lines, read as a document. */
  lemma ReadTomlLines(p: Payload)
    ensures var r := ReadLines(Reading(map[], None), TomlLines(p));
            && r.Some? == PayloadReadable(p)
            && (r.Some? ==> r.value.doc == ReadBack(p))
  {
    hide RootFields, FileFields, PackageFields, SummaryFields, FieldLines, ReadLines, AllReadable, AddFields, IsBareKey;
    var start := Reading(map[], None);
    var root := FieldLines(RootFields(p)) + [""];
    var files, packages := FilesFields(p.requirementFiles), PackagesFields(p.packages);
    var fileLines, packageLines := TableLines("requirement-files", files), TableLines("package", packages);
    var summary := ["[summary]"] + FieldLines(SummaryFields(p)) + [""];
    ReadLinesAppend(start, root + fileLines + packageLines, summary);
    ReadLinesAppend(start, root + fileLines, packageLines);
    ReadLinesAppend(start, root, fileLines);
    ReadRoot(p);
    if AllReadable(RootFields(p)) {
      var afterRoot := Reading(RootDocument(p), None);
      ReadFiles(p, afterRoot);
      if TablesReadable(files) {
        var afterFiles := ReadLines(afterRoot, fileLines).value;
        ReadPackages(p, afterFiles);
        if TablesReadable(packages) {
          var afterPackages := ReadLines(afterFiles, packageLines).value;
          SummaryReadable(p);
          SummaryKeys(p);
          RootDocumentKeys(p);
          assert "summary" !in afterPackages.doc;
          ReadSummary(afterPackages, SummaryFields(p));
          assert afterPackages.doc["summary" := OneTable(AddFields(map[], SummaryFields(p)))] == ReadBack(p);
        }
      }
    }
  }

  lemma ReadRoot(p: Payload)
    ensures ReadLines(Reading(map[], None), FieldLines(RootFields(p)) + [""])
         == if AllReadable(RootFields(p)) then Some(Reading(RootDocument(p), None)) else None
  {
    hide RootFields, FieldLines, ReadLines, AllReadable, IsBareKey;
    var start: Reading := Reading(map[], None);
    RootKeys(p);
    RootDocumentKeys(p);
    ReadRootLines(map[], RootFields(p));
    ReadLinesAppend(start, FieldLines(RootFields(p)), [""]);
    ReadBlank(Reading(RootDocument(p), None));
  }

  lemma ReadFiles(p: Payload, r: Reading)
    requires r.doc == RootDocument(p)
    ensures var result := ReadLines(r, TableLines("requirement-files", FilesFields(p.requirementFiles)));
            && result.Some? == TablesReadable(FilesFields(p.requirementFiles))
            && (result.Some? ==>
                  result.value.doc == r.doc + if p.requirementFiles == [] then map[]
                    else map["requirement-files" := Tables(TablesOf(FilesFields(p.requirementFiles)))])
  {
    hide FileFields, ReadLines, TableLines, AllReadable, AddFields;
    assert IsBareKey("requirement-files");
    hide IsBareKey;
    RootDocumentKeys(p);
    forall i | 0 <= i < |p.requirementFiles|
      ensures FreshKeys({}, FilesFields(p.requirementFiles)[i])
    {
      FileKeys(p.requirementFiles[i]);
    }
    ReadTableLines(r, "requirement-files", FilesFields(p.requirementFiles));
    assert forall ts: seq<Table> :: [] + ts == ts;
  }

  lemma ReadPackages(p: Payload, r: Reading)
    requires r.doc == RootDocument(p) + if p.requirementFiles == [] then map[]
                    else map["requirement-files" := Tables(TablesOf(FilesFields(p.requirementFiles)))]
    ensures var result := ReadLines(r, TableLines("package", PackagesFields(p.packages)));
            && result.Some? == TablesReadable(PackagesFields(p.packages))
            && (result.Some? ==>
                  result.value.doc == r.doc + if p.packages == [] then map[]
                    else map["package" := Tables(TablesOf(PackagesFields(p.packages)))])
  {
    hide PackageFields, FileFields, ReadLines, TableLines, AllReadable, AddFields;
    assert IsBareKey("package");
    hide IsBareKey;
    RootDocumentKeys(p);
    assert "package"[0] != "requirement-files"[0];
    forall i | 0 <= i < |p.packages|
      ensures FreshKeys({}, PackagesFields(p.packages)[i])
    {
      PackageKeys(p.packages[i]);
    }
    ReadTableLines(r, "package", PackagesFields(p.packages));
    assert forall ts: seq<Table> :: [] + ts == ts;
  }

  lemma SummaryReadable(p: Payload)
    ensures AllReadable(SummaryFields(p))
  {
  }

  // ----- lines survive the trip through text -----

  lemma {:induction false} FieldLinesClean(fields: seq<Field>, i: nat)
    requires i < |FieldLines(fields)| && (forall j | 0 <= j < |fields| :: IsBareKey(fields[j].key))
    ensures '\n' !in FieldLines(fields)[i]
  {
    hide PrintValue;
    assert fields[0] == fields[0] && IsBareKey(fields[0].key);
    if i == 0 {
      ValuePrintable(fields[0].value);
      var line := FieldLine(fields[0]);
      assert '\n' !in " = ";
      assert '\n' !in fields[0].key;
    } else {
      assert forall j | 0 <= j < |fields| - 1 :: fields[1..][j] == fields[j + 1];
      FieldLinesClean(fields[1..], i - 1);
    }
  }

  lemma {:induction false} TableLinesClean(name: string, tables: seq<seq<Field>>, i: nat)
    requires IsBareKey(name) && TablesFresh(tables) && i < |TableLines(name, tables)|
    ensures '\n' !in TableLines(name, tables)[i]
  {
    var head := ["[[" + name + "]]"] + FieldLines(tables[0]) + [""];
    assert FreshKeys({}, tables[0]);
    if i < |head| {
      if 1 <= i < |head| - 1 {
        FieldLinesClean(tables[0], i - 1);
      } else {
        assert '\n' !in name && '\n' !in "[[" && '\n' !in "]]";
      }
    } else {
      assert forall j | 0 <= j < |tables| - 1 :: tables[1..][j] == tables[j + 1];
      TableLinesClean(name, tables[1..], i - |head|);
    }
  }

  lemma LinesClean(p: Payload, i: nat)
    requires i < |TomlLines(p)|
    ensures '\n' !in TomlLines(p)[i]
  {
    hide RootFields, FileFields, PackageFields, SummaryFields, IsBareKey, TableLines;
    var root := FieldLines(RootFields(p)) + [""];
    var files := TableLines("requirement-files", FilesFields(p.requirementFiles));
    var packages := TableLines("package", PackagesFields(p.packages));
    var summary := FieldLines(SummaryFields(p));
    RootKeys(p);
    SummaryKeys(p);
    if i < |root| - 1 {
      FieldLinesClean(RootFields(p), i);
    } else if |root| <= i < |root + files| {
      var j := i - |root|;
      FileLinesClean(p, j);
      assert (root + files)[i] == files[j];
      assert TomlLines(p)[i] == (root + files)[i];
    } else if |root + files| <= i < |root + files + packages| {
      var j := i - |root + files|;
      PackageLinesClean(p, j);
      assert TomlLines(p)[i] == packages[j];
    } else if |root + files + packages| < i < |TomlLines(p)| - 1 {
      assert TomlLines(p)[i] == summary[i - |root + files + packages| - 1];
      FieldLinesClean(SummaryFields(p), i - |root + files + packages| - 1);
    } else {
      assert TomlLines(p)[i] in ["", "[summary]"];
    }
  }

  lemma FileLinesClean(p: Payload, j: nat)
    requires j < |TableLines("requirement-files", FilesFields(p.requirementFiles))|
    ensures '\n' !in TableLines("requirement-files", FilesFields(p.requirementFiles))[j]
  {
    hide FileFields, TableLines;
    assert IsBareKey("requirement-files");
    hide IsBareKey;
    forall i | 0 <= i < |p.requirementFiles|
      ensures FreshKeys({}, FilesFields(p.requirementFiles)[i])
    {
      FileKeys(p.requirementFiles[i]);
    }
    TableLinesClean("requirement-files", FilesFields(p.requirementFiles), j);
  }

  lemma PackageLinesClean(p: Payload, j: nat)
    requires j < |TableLines("package", PackagesFields(p.packages))|
    ensures '\n' !in TableLines("package", PackagesFields(p.packages))[j]
  {
    hide PackageFields, TableLines;
    assert IsBareKey("package");
    hide IsBareKey;
    forall i | 0 <= i < |p.packages|
      ensures FreshKeys({}, PackagesFields(p.packages)[i])
    {
      PackageKeys(p.packages[i]);
    }
    TableLinesClean("package", PackagesFields(p.packages), j);
  }

  /**
   Reading a printed lock succeeds exactly when its strings stay in the Basic Multilingual Plane, and then
   gives back the payload, except that an empty list of tables is absent.
   */
  lemma ReadPrintedLock(p: Payload)
    ensures ReadToml(LockText(p)) == if PayloadReadable(p) then Some(BuiltDocument(p) - EmptyTables(p)) else None
  {
    ReadBackIsBuilt(p);
    hide BuiltDocument, ReadLines, ReadBack, PayloadReadable, Join, Split;
    forall i | 0 <= i < |TomlLines(p)|
      ensures '\n' !in TomlLines(p)[i]
    {
      LinesClean(p, i);
    }
    hide TomlLines;
    TomlLinesNonempty(p);
    SplitJoin(TomlLines(p), '\n');
    ReadTomlLines(p);
  }

  lemma TomlLinesNonempty(p: Payload)
    ensures |TomlLines(p)| > 0
  {
  }

  // ----- validation -----

  datatype Failure =
    | SourceNotRequirements
    | PythonUnsupported
    | StaleLock
    | MissingPackages(names: set<string>)
    | StalePackages(names: set<string>)
    | VersionMismatch(name: string)

  /** `str(value or "")` for the values a lock holds. */
  function TextOf(doc: Document, key: string): string {
    if key !in doc || !doc[key].Scalar? then ""
    else
      match doc[key].value
      case Str(s) => s
      case Int(n) => if n == 0 then "" else Digits(n)
      case Bool(b) => if b then "True" else ""
      case Strings(_) => ""
  }

  /** `str(package.get(key))` */
  function FieldText(t: Table, key: string): string {
    if key !in t then "None"
    else
      match t[key]
      case Str(s) => s
      case Int(n) => Digits(n)
      case Bool(b) => if b then "True" else "False"
      case Strings(_) => ""
  }

  /** `{str(package.get("name")): package for package in doc.get("package", [])}` */
  function ByName(tables: seq<Table>): map<string, Table> {
    if tables == [] then map[]
    else
      var last := tables[|tables| - 1];
      ByName(tables[..|tables| - 1])[FieldText(last, "name") := last]
  }

  function PackagesByName(doc: Document): map<string, Table> {
    if "package" in doc && doc["package"].Tables? then ByName(doc["package"].tables) else map[]
  }

  predicate VersionsDiffer(lock: Document, expected: Document, name: string) {
    var locked, wanted := PackagesByName(lock), PackagesByName(expected);
    name in locked && name in wanted && FieldText(locked[name], "version") != FieldText(wanted[name], "version")
  }

  predicate SourceIsRequirements(doc: Document) {
    "authoritative-source" in doc && doc["authoritative-source"] == Scalar(Str("requirements"))
  }

  // ----- Python's equality: a truth value equals 0 or 1 -----

  predicate IsBoolFor(v: Value, n: Value) {
    v.Bool? && n.Int? && n.n == if v.b then 1 else 0
  }

  predicate SameValue(a: Value, b: Value) {
    a == b || IsBoolFor(a, b) || IsBoolFor(b, a)
  }

  predicate SameTable(a: Table, b: Table) {
    a.Keys == b.Keys && forall k | k in a :: SameValue(a[k], b[k])
  }

  predicate SameNode(a: Node, b: Node) {
    match (a, b)
    case (Scalar(v), Scalar(w)) => SameValue(v, w)
    case (OneTable(s), OneTable(t)) => SameTable(s, t)
    case (Tables(s), Tables(t)) => |s| == |t| && forall i | 0 <= i < |s| :: SameTable(s[i], t[i])
    case _ => false
  }

  /** `_normalized_lock(lock) == _normalized_lock(expected)` */
  predicate SameDocument(a: Document, b: Document) {
    a.Keys == b.Keys && forall k | k in a :: SameNode(a[k], b[k])
  }

  lemma SameDocumentReflexive(doc: Document)
    ensures SameDocument(doc, doc)
  {
  }

  // ----- the checks -----

  /** The same packages, at the same versions. */
  predicate NoMismatch(lock: Document, expected: Document) {
    && PackagesByName(lock).Keys == PackagesByName(expected).Keys
    && forall name | name in PackagesByName(lock) :: !VersionsDiffer(lock, expected, name)
  }

  /** What `check-lock` accepts. */
  predicate Accepted(lock: Document, expected: Document, supports: string -> bool) {
    && SourceIsRequirements(lock) && supports(TextOf(lock, "requires-python"))
    && SameDocument(lock, expected) && NoMismatch(lock, expected)
  }

  /** The names that only `tables` has over `others`. */
  function OnlyIn(tables: map<string, Table>, others: map<string, Table>): set<string> {
    tables.Keys - others.Keys
  }

  /** `_package_mismatch_failures` */
  method PackageMismatchFailures(lock: Document, expected: Document) returns (failures: seq<Failure>)
    ensures failures == [] <==> NoMismatch(lock, expected)
    ensures forall n :: VersionMismatch(n) in failures <==> VersionsDiffer(lock, expected, n)
    ensures forall names :: MissingPackages(names) in failures <==>
              names != {} && names == OnlyIn(PackagesByName(expected), PackagesByName(lock))
    ensures forall names :: StalePackages(names) in failures <==>
              names != {} && names == OnlyIn(PackagesByName(lock), PackagesByName(expected))
    ensures forall f | f in failures :: f.VersionMismatch? || f.MissingPackages? || f.StalePackages?
  {
    hide PackagesByName, FieldText;
    failures := [];
    var locked, wanted := PackagesByName(lock), PackagesByName(expected);
    var missing, extra := OnlyIn(wanted, locked), OnlyIn(locked, wanted);
    if missing != {} {
      failures := failures + [MissingPackages(missing)];
    }
    if extra != {} {
      failures := failures + [StalePackages(extra)];
    }
    ghost var before := failures;
    var names := locked.Keys * wanted.Keys;
    while names != {}
      invariant names <= locked.Keys * wanted.Keys
      invariant forall f: Failure | !f.VersionMismatch? :: f in failures <==> f in before
      invariant failures == [] <==> before == [] && forall n :: !(VersionsDiffer(lock, expected, n) && n !in names)
      invariant forall n :: VersionMismatch(n) in failures <==> VersionsDiffer(lock, expected, n) && n !in names
    {
      var name :| name in names;
      if FieldText(locked[name], "version") != FieldText(wanted[name], "version") {
        failures := failures + [VersionMismatch(name)];
      }
      names := names - {name};
    }
    assert missing == {} && extra == {} <==> locked.Keys == wanted.Keys;
  }

  /** `validate_dependency_lock`; `supports` says whether a specifier set admits Python 3.11. */
  method ValidateDependencyLock(lock: Document, expected: Document, supports: string -> bool)
    returns (failures: seq<Failure>)
    ensures failures == [] <==> Accepted(lock, expected, supports)
    ensures SourceNotRequirements in failures <==> !SourceIsRequirements(lock)
    ensures PythonUnsupported in failures <==> !supports(TextOf(lock, "requires-python"))
    ensures StaleLock in failures <==> !SameDocument(lock, expected)
    ensures forall n :: VersionMismatch(n) in failures <==> VersionsDiffer(lock, expected, n)
  {
    hide SourceIsRequirements, TextOf, SameDocument, VersionsDiffer, NoMismatch, OnlyIn, PackagesByName;
    failures := [];
    if !SourceIsRequirements(lock) {
      failures := failures + [SourceNotRequirements];
    }
    if !supports(TextOf(lock, "requires-python")) {
      failures := failures + [PythonUnsupported];
    }
    if !SameDocument(lock, expected) {
      failures := failures + [StaleLock];
    }
    var mismatches := PackageMismatchFailures(lock, expected);
    failures := failures + mismatches;
  }

  lemma BuiltScalars(p: Payload)
    ensures SourceIsRequirements(BuiltDocument(p)) <==> p.authoritativeSource == "requirements"
    ensures TextOf(BuiltDocument(p), "requires-python") == p.requiresPython
  {
  }

  lemma BuiltIsReadBack(p: Payload)
    ensures BuiltDocument(p) - EmptyTables(p) == BuiltDocument(p) <==> p.requirementFiles != [] && p.packages != []
  {
  }

  /**
   Writing a lock and checking it against the dictionary it was written from succeeds exactly when its
   strings can be read back, neither list of tables is empty, the source is "requirements" and the Python
   range admits 3.11.
   */
  lemma WriteThenCheck(p: Payload, supports: string -> bool)
    ensures ReadToml(LockText(p)).Some? && Accepted(ReadToml(LockText(p)).value, BuiltDocument(p), supports)
       <==> && PayloadReadable(p) && p.requirementFiles != [] && p.packages != []
            && p.authoritativeSource == "requirements" && supports(p.requiresPython)
  {
    hide *;
    ReadPrintedLock(p);
    BuiltIsReadBack(p);
    BuiltScalars(p);
    AcceptedReadBack(BuiltDocument(p), EmptyTables(p), supports);
  }

  /** A document is the same without some keys only when it does not have them. */
  lemma AcceptedReadBack(expected: Document, absent: set<string>, supports: string -> bool)
    ensures Accepted(expected - absent, expected, supports) <==>
            SourceIsRequirements(expected) && supports(TextOf(expected, "requires-python")) && expected - absent == expected
  {
    hide SourceIsRequirements, TextOf, VersionsDiffer, PackagesByName;
    var lock := expected - absent;
    if lock.Keys == expected.Keys {
      assert lock == expected;
      SameDocumentReflexive(expected);
      NoMismatchReflexive(expected);
    }
  }

  lemma NoMismatchReflexive(doc: Document)
    ensures NoMismatch(doc, doc)
  {
  }

  // ----- locks that fail their own check -----

  /** A payload that is otherwise in order. */
  function Sample(inventory: string, packages: seq<LockedPackage>): Payload {
    Payload(1, 4, ">=3.11", "requirements", "x", inventory, "x", [RequirementFile("x", "x", "x")], packages, |packages|, 0, |packages|)
  }

  const PACKAGE := LockedPackage("a", "1", false, [], [], [], [])

  /** A lock without packages is written, read and rejected. */
  lemma EmptyLockRejected(supports: string -> bool)
    requires supports(">=3.11")
    ensures var p := Sample("x", []);
            ReadToml(LockText(p)).Some? && !Accepted(ReadToml(LockText(p)).value, BuiltDocument(p), supports)
  {
    hide *;
    var p := Sample("x", []);
    SampleReadable();
    assert p.packages == [] by {
      SamplePackages("x", []);
    }
    ReadPrintedLock(p);
    WriteThenCheck(p, supports);
  }

  lemma SamplePackages(inventory: string, packages: seq<LockedPackage>)
    ensures Sample(inventory, packages).packages == packages && Sample(inventory, packages).licenseInventory == inventory
  {
  }

  lemma SampleReadable()
    ensures PayloadReadable(Sample("x", []))
  {
    var p := Sample("x", []);
    assert Basic("x") && Basic(">=3.11") && Basic("requirements");
    RootReadable(p);
    var f := FileFields(p.requirementFiles[0]);
    assert AllReadable(f);
    assert FilesFields(p.requirementFiles) == [f] && PackagesFields(p.packages) == [];
  }

  lemma RootReadable(p: Payload)
    requires Basic(p.requiresPython) && Basic(p.authoritativeSource) && Basic(p.generatedBy)
    requires Basic(p.licenseInventory) && Basic(p.licenseInventorySha256)
    ensures AllReadable(RootFields(p))
  {
    hide Basic;
  }

  /** A path with a character above U+FFFF makes the lock unreadable. */
  lemma WidePathUnreadable()
    ensures ReadToml(LockText(Sample("\U{1F600}.json", [PACKAGE]))).None?
  {
    var p := Sample("\U{1F600}.json", [PACKAGE]);
    assert p.licenseInventory[0] == '\U{1F600}';
    assert RootFields(p)[5].value == Str(p.licenseInventory) && !Readable(RootFields(p)[5].value);
    assert !PayloadReadable(p);
    hide *;
    ReadPrintedLock(p);
  }
}
