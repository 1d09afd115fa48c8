/** The attribute catalog that scripts/api_vocabulary_inventory.py builds from extracted fields, and its validation. */
module AttributeCatalog {
  import opened Wrappers
  import opened Text
  import opened Sorting
  import opened ApiVocabulary

  datatype Entry = Entry(
    semanticId: string, canonicalTerm: string, preferredName: string, shown: string,
    locations: seq<string>, observedTypes: seq<string>)

  // ----- first-seen lists -----

  /** The elements of a list in the order of their first occurrence. */
  function FirstSeen(s: seq<string>): seq<string> {
    if s == [] then []
    else
      var before, last := FirstSeen(s[..|s| - 1]), s[|s| - 1];
      if last in before then before else before + [last]
  }

  lemma FirstSeenAppend(s: seq<string>, x: string)
    ensures FirstSeen(s + [x]) == if x in FirstSeen(s) then FirstSeen(s) else FirstSeen(s) + [x]
  {
  }

  /** Each element once, and in the order in which the elements first appear. */
  lemma {:induction false} FirstSeenExact(s: seq<string>)
    ensures NoRepeats(FirstSeen(s)) && forall x :: x in FirstSeen(s) <==> x in s
    ensures forall i, j | 0 <= i < j < |FirstSeen(s)| ::
              FirstOccurrence(s, FirstSeen(s)[i]) < FirstOccurrence(s, FirstSeen(s)[j])
  {
    if s == [] {
    } else {
      var init, last := s[..|s| - 1], s[|s| - 1];
      assert s == init + [last];
      FirstSeenExact(init);
      forall x | x in init
        ensures FirstOccurrence(s, x) == FirstOccurrence(init, x) < |init|
      {
        FirstOccurrenceInit(s, x);
      }
      if last !in init {
        FirstOccurrenceLast(s);
        forall i | 0 <= i < |FirstSeen(init)|
          ensures FirstOccurrence(s, FirstSeen(init)[i]) < |init|
        {
          assert FirstSeen(init)[i] in init;
        }
      }
    }
  }

  function FirstOccurrence(s: seq<string>, x: string): nat {
    if s == [] || s[0] == x then 0 else 1 + FirstOccurrence(s[1..], x)
  }

  lemma {:induction false} FirstOccurrenceInit(s: seq<string>, x: string)
    requires s != [] && x in s[..|s| - 1]
    ensures FirstOccurrence(s, x) == FirstOccurrence(s[..|s| - 1], x) < |s| - 1
  {
    if s[0] != x {
      assert s[1..][..|s| - 2] == s[..|s| - 1][1..];
      FirstOccurrenceInit(s[1..], x);
    }
  }

  lemma {:induction false} FirstOccurrenceLast(s: seq<string>)
    requires s != [] && s[|s| - 1] !in s[..|s| - 1]
    ensures FirstOccurrence(s, s[|s| - 1]) == |s| - 1
  {
    if |s| > 1 {
      assert s[..|s| - 1][0] == s[0];
      assert s[1..][..|s| - 2] == s[..|s| - 1][1..];
      FirstOccurrenceLast(s[1..]);
    }
  }

  // ----- entries -----

  /** The fields that refer to one attribute. */
  function WithId(fields: seq<Field>, id: string): seq<Field> {
    if fields == [] then []
    else
      var last := fields[|fields| - 1];
      WithId(fields[..|fields| - 1], id) + if last.semanticId == id then [last] else []
  }

  function Locations(fields: seq<Field>): seq<string> {
    seq(|fields|, i requires 0 <= i < |fields| => fields[i].location)
  }

  function Types(fields: seq<Field>): seq<string> {
    seq(|fields|, i requires 0 <= i < |fields| => fields[i].shown)
  }

  /** An entry names itself after the first field of its attribute and lists what all of them showed, as first seen. */
  predicate Describes(e: Entry, fields: seq<Field>) {
    var own := WithId(fields, e.semanticId);
    && own != []
    && e.canonicalTerm == e.preferredName == CanonicalTerm(own[0].name) && e.shown == own[0].shown
    && e.locations == FirstSeen(Locations(own)) && e.observedTypes == FirstSeen(Types(own))
  }

  ghost predicate CatalogOf(entries: map<string, Entry>, fields: seq<Field>) {
    forall id :: (id in entries <==> WithId(fields, id) != [])
                 && (id in entries ==> entries[id].semanticId == id && Describes(entries[id], fields))
  }

  /** `_attribute_catalog_entry`, without its texts. */
  function NewEntry(f: Field): Entry {
    var canonical := CanonicalTerm(f.name);
    Entry(f.semanticId, canonical, canonical, f.shown, [f.location], [f.shown])
  }

  /** `_merge_attribute_observation` */
  function Merge(e: Entry, f: Field): Entry {
    e.(locations := if f.location in e.locations then e.locations else e.locations + [f.location],
       observedTypes := if f.shown in e.observedTypes then e.observedTypes else e.observedTypes + [f.shown])
  }

  lemma WithIdAppend(fields: seq<Field>, f: Field, id: string)
    ensures WithId(fields + [f], id) == WithId(fields, id) + if f.semanticId == id then [f] else []
  {
  }

  lemma NewEntryDescribes(fields: seq<Field>, f: Field)
    requires WithId(fields, f.semanticId) == []
    ensures Describes(NewEntry(f), fields + [f])
  {
  }

  lemma MergeDescribes(e: Entry, fields: seq<Field>, f: Field)
    requires Describes(e, fields) && e.semanticId == f.semanticId
    ensures Describes(Merge(e, f), fields + [f])
  {
    hide CanonicalTerm;
    WithIdAppend(fields, f, f.semanticId);
    var own := WithId(fields, f.semanticId);
    assert Locations(own + [f]) == Locations(own) + [f.location] && Types(own + [f]) == Types(own) + [f.shown];
    FirstSeenAppend(Locations(own), f.location);
    FirstSeenAppend(Types(own), f.shown);
  }

  class Catalog {
    var entries: map<string, Entry>
    ghost var observed: seq<Field>

    ghost predicate Valid()
      reads this
    {
      CatalogOf(entries, observed)
    }

    constructor ()
      ensures Valid() && observed == []
    {
      entries, observed := map[], [];
    }

    /** `_record_attribute_fields` */
    method Record(fields: seq<Field>)
      requires Valid()
      modifies this
      ensures Valid() && observed == old(observed) + fields
    {
      for i := 0 to |fields|
        invariant Valid() && observed == old(observed) + fields[..i]
      {
        assert fields[..i + 1] == fields[..i] + [fields[i]];
        RecordOne(fields[i]);
      }
      assert fields[..|fields|] == fields;
    }

    method RecordOne(f: Field)
      requires Valid()
      modifies this
      ensures Valid() && observed == old(observed) + [f]
    {
      hide Describes, NewEntry, Merge, CatalogOf, WithId;
      var id := f.semanticId;
      CatalogOne(entries, observed, f);
      if id !in entries {
        entries := entries[id := NewEntry(f)];
      } else {
        entries := entries[id := Merge(entries[id], f)];
      }
      observed := observed + [f];
    }

    /** `sorted(attribute_catalog_map.values(), key=semanticId)` */
    method Listed() returns (catalog: seq<Entry>)
      requires Valid()
      ensures SoundCatalog(catalog, observed)
    {
      hide Describes;
      var ids := SortedList(entries.Keys);
      catalog := [];
      for i := 0 to |ids|
        invariant |catalog| == i && forall k | 0 <= k < i :: catalog[k] == entries[ids[k]]
      {
        catalog := catalog + [entries[ids[i]]];
      }
      forall f | f in observed
        ensures exists k | 0 <= k < |catalog| :: catalog[k].semanticId == f.semanticId
      {
        WithIdMember(observed, f);
        assert f.semanticId in ids;
        var k :| 0 <= k < |ids| && ids[k] == f.semanticId;
        assert catalog[k].semanticId == f.semanticId;
      }
    }
  }

  lemma CatalogOne(entries: map<string, Entry>, fields: seq<Field>, f: Field)
    requires CatalogOf(entries, fields)
    ensures var id := f.semanticId;
            CatalogOf(entries[id := if id in entries then Merge(entries[id], f) else NewEntry(f)], fields + [f])
  {
    hide WithId, CanonicalTerm, FirstSeen;
    var id := f.semanticId;
    var after := entries[id := if id in entries then Merge(entries[id], f) else NewEntry(f)];
    forall x
      ensures (x in after <==> WithId(fields + [f], x) != [])
              && (x in after ==> after[x].semanticId == x && Describes(after[x], fields + [f]))
    {
      WithIdAppend(fields, f, x);
      if x == id {
        if id in entries {
          MergeDescribes(entries[id], fields, f);
        } else {
          NewEntryDescribes(fields, f);
        }
      } else {
        assert WithId(fields + [f], x) == WithId(fields, x) + [] == WithId(fields, x);
      }
    }
  }

  lemma {:induction false} WithIdMember(fields: seq<Field>, f: Field)
    requires f in fields
    ensures f in WithId(fields, f.semanticId)
  {
    var init, last := fields[..|fields| - 1], fields[|fields| - 1];
    if f != last {
      assert fields == init + [last];
      WithIdMember(init, f);
    }
  }

  lemma {:induction false} WithIdOnly(fields: seq<Field>, id: string)
    ensures forall k | 0 <= k < |WithId(fields, id)| :: WithId(fields, id)[k] in fields && WithId(fields, id)[k].semanticId == id
  {
    if fields == [] {
    } else {
      WithIdOnly(fields[..|fields| - 1], id);
    }
  }

  /** The listed catalog describes each attribute of the fields once, in order of identifiers. */
  ghost predicate SoundCatalog(catalog: seq<Entry>, fields: seq<Field>) {
    && (forall i | 0 <= i < |catalog| :: Describes(catalog[i], fields))
    && (forall i, j | 0 <= i < j < |catalog| ::
          LexLe(catalog[i].semanticId, catalog[j].semanticId) && catalog[i].semanticId != catalog[j].semanticId)
    && forall f | f in fields :: exists k | 0 <= k < |catalog| :: catalog[k].semanticId == f.semanticId
  }

  // ----- the inventory -----

  datatype Parameter = Parameter(name: string, location: string, required: bool, shown: string)

  /** An operation with the schemas of its JSON request body and of its first successful response. */
  datatype Operation = Operation(parameters: seq<Parameter>, body: Option<Schema>, response: Option<Schema>)

  /** A request option, as the catalog of controls lists it. */
  datatype Control = Control(name: string, location: string, required: bool, shown: string, semanticId: string)

  datatype Endpoint = Endpoint(request: seq<Field>, response: seq<Field>)

  datatype Inventory = Inventory(catalog: seq<Entry>, controls: seq<Control>, endpoints: seq<Endpoint>)

  function ParameterFields(parameters: seq<Parameter>): seq<Field> {
    seq(|parameters|, i requires 0 <= i < |parameters| =>
      var p := parameters[i];
      Field(p.name, p.location, p.required, p.shown, SemanticId(p.name)))
  }

  function Controls(parameters: seq<Parameter>): seq<Control> {
    seq(|parameters|, i requires 0 <= i < |parameters| =>
      var p := parameters[i];
      Control(CanonicalTerm(p.name), p.location, p.required, p.shown, SemanticId(p.name)))
  }

  function SchemaFields(schema: Option<Schema>, components: Components, depth: nat): Option<seq<Field>> {
    if schema.None? then Some([]) else Extract(schema.value, components, "", "body", depth)
  }

  /** The endpoint record of an operation; None when extraction runs out of stack. */
  function EndpointOf(op: Operation, components: Components, depth: nat): Option<Endpoint> {
    var body, response := SchemaFields(op.body, components, depth), SchemaFields(op.response, components, depth);
    if body.None? || response.None? then None
    else Some(Endpoint(ParameterFields(op.parameters) + body.value, response.value))
  }

  function AllFields(endpoints: seq<Endpoint>): seq<Field> {
    if endpoints == [] then []
    else
      var last := endpoints[|endpoints| - 1];
      AllFields(endpoints[..|endpoints| - 1]) + (last.request + last.response)
  }

  function AllControls(operations: seq<Operation>): seq<Control> {
    if operations == [] then []
    else AllControls(operations[..|operations| - 1]) + Controls(operations[|operations| - 1].parameters)
  }

  /** An endpoint per operation, the operations' controls, and the catalog of the endpoints' fields. */
  ghost predicate IsInventory(inventory: Inventory, operations: seq<Operation>, components: Components, depth: nat) {
    && |inventory.endpoints| == |operations|
    && (forall i | 0 <= i < |operations| :: EndpointOf(operations[i], components, depth) == Some(inventory.endpoints[i]))
    && inventory.controls == AllControls(operations)
    && SoundCatalog(inventory.catalog, AllFields(inventory.endpoints))
  }

  /** `build_inventory` on the operations of the OpenAPI document. */
  method BuildInventory(operations: seq<Operation>, components: Components, depth: nat) returns (inventory: Option<Inventory>)
    ensures inventory.Some? <==> forall i | 0 <= i < |operations| :: EndpointOf(operations[i], components, depth).Some?
    ensures inventory.Some? ==> IsInventory(inventory.value, operations, components, depth)
  {
    hide EndpointOf, SoundCatalog, CatalogOf, Controls, AllFields, AllControls, Catalog.Valid;
    NoEndpoints();
    var catalog := new Catalog();
    var endpoints: seq<Endpoint>, controls: seq<Control> := [], [];
    for i := 0 to |operations|
      invariant catalog.Valid() && fresh(catalog) && |endpoints| == i
      invariant forall k | 0 <= k < i :: EndpointOf(operations[k], components, depth) == Some(endpoints[k])
      invariant catalog.observed == AllFields(endpoints)
      invariant controls == AllControls(operations[..i])
    {
      var endpoint := EndpointOf(operations[i], components, depth);
      if endpoint.None? {
        return None;
      }
      catalog.Record(endpoint.value.request + endpoint.value.response);
      AllFieldsAppend(endpoints, endpoint.value);
      endpoints := endpoints + [endpoint.value];
      assert operations[..i + 1] == operations[..i] + [operations[i]];
      AllControlsAppend(operations[..i], operations[i]);
      controls := controls + Controls(operations[i].parameters);
    }
    assert operations[..|operations|] == operations;
    var listed := catalog.Listed();
    return Some(Inventory(listed, controls, endpoints));
  }

  lemma NoEndpoints()
    ensures AllFields([]) == [] && AllControls([]) == []
  {
  }

  lemma AllFieldsAppend(endpoints: seq<Endpoint>, e: Endpoint)
    ensures AllFields(endpoints + [e]) == AllFields(endpoints) + (e.request + e.response)
  {
    assert (endpoints + [e])[..|endpoints|] == endpoints;
  }

  lemma AllControlsAppend(operations: seq<Operation>, op: Operation)
    ensures AllControls(operations + [op]) == AllControls(operations) + Controls(op.parameters)
  {
    assert (operations + [op])[..|operations|] == operations;
  }

  // ----- what the inventory guarantees -----

  /** An identifier resolves to exactly one entry. */
  ghost predicate ResolvesOnce(catalog: seq<Entry>, id: string) {
    exists k | 0 <= k < |catalog| :: catalog[k].semanticId == id && forall j | 0 <= j < |catalog| && catalog[j].semanticId == id :: j == k
  }

  /** Every field of an endpoint resolves to one entry, which has seen the field's type and location. */
  lemma FieldResolves(catalog: seq<Entry>, fields: seq<Field>, f: Field)
    requires SoundCatalog(catalog, fields) && f in fields
    ensures ResolvesOnce(catalog, f.semanticId)
    ensures forall k | 0 <= k < |catalog| && catalog[k].semanticId == f.semanticId ::
              && f.location in catalog[k].locations && f.shown in catalog[k].observedTypes
              && NoRepeats(catalog[k].locations) && NoRepeats(catalog[k].observedTypes)
  {
    hide LexLe, CanonicalTerm;
    var k :| 0 <= k < |catalog| && catalog[k].semanticId == f.semanticId;
    assert forall j | 0 <= j < |catalog| && catalog[j].semanticId == f.semanticId :: j == k;
    var own := WithId(fields, f.semanticId);
    WithIdMember(fields, f);
    var i :| 0 <= i < |own| && own[i] == f;
    assert Locations(own)[i] == f.location && Types(own)[i] == f.shown;
    FirstSeenExact(Locations(own));
    FirstSeenExact(Types(own));
    assert Describes(catalog[k], fields);
  }

  /** Every control resolves to one entry as well: its parameter is a field of its endpoint. */
  lemma {:induction false} ControlIsField(operations: seq<Operation>, components: Components, depth: nat,
                                          endpoints: seq<Endpoint>, c: Control) returns (f: Field)
    requires |endpoints| == |operations|
    requires forall i | 0 <= i < |operations| :: EndpointOf(operations[i], components, depth) == Some(endpoints[i])
    requires c in AllControls(operations)
    ensures f in AllFields(endpoints) && f.semanticId == c.semanticId
  {
    hide Extract, SemanticId, CanonicalTerm;
    var n := |operations| - 1;
    if c in AllControls(operations[..n]) {
      f := ControlIsField(operations[..n], components, depth, endpoints[..n], c);
    } else {
      var parameters := operations[n].parameters;
      var k :| 0 <= k < |Controls(parameters)| && Controls(parameters)[k] == c;
      f := ParameterFields(parameters)[k];
      assert f in endpoints[n].request;
    }
  }

  /** Every reference of an inventory resolves once. */
  lemma {:induction false} ReferencesResolve(operations: seq<Operation>, components: Components, depth: nat, inventory: Inventory)
    requires IsInventory(inventory, operations, components, depth)
    ensures forall i, f | 0 <= i < |inventory.endpoints| && f in inventory.endpoints[i].request + inventory.endpoints[i].response ::
              ResolvesOnce(inventory.catalog, f.semanticId)
    ensures forall c | c in inventory.controls :: ResolvesOnce(inventory.catalog, c.semanticId)
  {
    hide SoundCatalog, EndpointOf, AllControls, ResolvesOnce;
    forall i, f | 0 <= i < |inventory.endpoints| && f in inventory.endpoints[i].request + inventory.endpoints[i].response
      ensures ResolvesOnce(inventory.catalog, f.semanticId)
    {
      EndpointFields(inventory.endpoints, i, f);
      FieldResolves(inventory.catalog, AllFields(inventory.endpoints), f);
    }
    forall c | c in inventory.controls
      ensures ResolvesOnce(inventory.catalog, c.semanticId)
    {
      var f := ControlIsField(operations, components, depth, inventory.endpoints, c);
      FieldResolves(inventory.catalog, AllFields(inventory.endpoints), f);
    }
  }

  lemma {:induction false} EndpointFields(endpoints: seq<Endpoint>, i: nat, f: Field)
    requires i < |endpoints| && f in endpoints[i].request + endpoints[i].response
    ensures f in AllFields(endpoints)
  {
    if i < |endpoints| - 1 {
      EndpointFields(endpoints[..|endpoints| - 1], i, f);
    }
  }

  /** A field's identifier is that of its whole dotted name. */
  predicate Coherent(f: Field) {
    f.semanticId == SemanticId(f.name)
  }

  predicate AllCoherent(fields: seq<Field>) {
    forall i | 0 <= i < |fields| :: Coherent(fields[i])
  }

  lemma {:induction false} ExtractedCoherent(schema: Schema, components: Components, prefix: string, location: string, depth: nat)
    requires Extract(schema, components, prefix, location, depth).Some?
    ensures AllCoherent(Extract(schema, components, prefix, location, depth).value)
    decreases depth, 1, 0
  {
    var resolved := Resolve(schema, components);
    AllExtractedCoherent(resolved.properties, resolved.required, components, prefix, location, depth);
  }

  lemma {:induction false} AllExtractedCoherent(properties: seq<Property>, required: set<string>, components: Components,
                                                prefix: string, location: string, depth: nat)
    requires ExtractAll(properties, required, components, prefix, location, depth).Some?
    ensures AllCoherent(ExtractAll(properties, required, components, prefix, location, depth).value)
    decreases depth, 0, |properties|
  {
    hide SemanticId;
    if properties == [] {
    } else {
      var last := properties[|properties| - 1];
      AllExtractedCoherent(properties[..|properties| - 1], required, components, prefix, location, depth);
      DottedTerm(prefix, last.name);
      if Nested(last.schema, components).Some? {
        var (nested, suffix) := Nested(last.schema, components).value;
        ExtractedCoherent(nested, components, FieldName(prefix, last.name) + suffix, location, depth - 1);
      }
    }
  }

  lemma {:induction false} EndpointsCoherent(operations: seq<Operation>, components: Components, depth: nat, endpoints: seq<Endpoint>)
    requires |endpoints| == |operations|
    requires forall i | 0 <= i < |operations| :: EndpointOf(operations[i], components, depth) == Some(endpoints[i])
    ensures AllCoherent(AllFields(endpoints))
  {
    hide Extract, SemanticId;
    if operations == [] {
    } else {
      var n := |operations| - 1;
      EndpointsCoherent(operations[..n], components, depth, endpoints[..n]);
      var body, response := operations[n].body, operations[n].response;
      if body.Some? {
        ExtractedCoherent(body.value, components, "", "body", depth);
      }
      if response.Some? {
        ExtractedCoherent(response.value, components, "", "body", depth);
      }
    }
  }

  // ----- validating the catalog -----

  datatype CatalogError =
    | MissingId
    | DuplicateId(id: string)
    | NameMismatch(id: string)
    | NotSnakeCase(id: string)
    | LegacyTerm(id: string)

  /** `[a-z][a-z0-9_]*` */
  predicate IsSnakeCase(s: string) {
    s != "" && 'a' <= s[0] <= 'z' && forall i | 0 <= i < |s| :: IsLowerOrDigit(s[i]) || s[i] == '_'
  }

  /** What an entry is reported for, when the identifiers before it are `seen`. */
  predicate Reported(error: CatalogError, e: Entry, seen: set<string>) {
    match error
    case MissingId => e.semanticId == ""
    case DuplicateId(id) => e.semanticId == id != "" && id in seen
    case NameMismatch(id) => e.semanticId == id != "" && e.canonicalTerm != e.preferredName
    case NotSnakeCase(id) => e.semanticId == id != "" && !IsSnakeCase(e.canonicalTerm)
    case LegacyTerm(id) => e.semanticId == id != "" && e.canonicalTerm in LEGACY_TERMS
  }

  /** `_validate_attribute_identity` */
  method ValidateIdentity(e: Entry, seen: set<string>) returns (errors: seq<CatalogError>)
    ensures forall error :: error in errors <==> Reported(error, e, seen)
  {
    hide IsSnakeCase, LEGACY_TERMS;
    if e.semanticId == "" {
      return [MissingId];
    }
    errors := [];
    if e.semanticId in seen {
      errors := errors + [DuplicateId(e.semanticId)];
    }
    if e.canonicalTerm != e.preferredName {
      errors := errors + [NameMismatch(e.semanticId)];
    }
    if !IsSnakeCase(e.canonicalTerm) {
      errors := errors + [NotSnakeCase(e.semanticId)];
    }
    if e.canonicalTerm in LEGACY_TERMS {
      errors := errors + [LegacyTerm(e.semanticId)];
    }
  }

  function SeenIds(catalog: seq<Entry>): set<string> {
    set e | e in catalog && e.semanticId != "" :: e.semanticId
  }

  /** `_validate_attribute_catalog` */
  method ValidateCatalog(catalog: seq<Entry>) returns (errors: seq<CatalogError>)
    ensures forall error :: error in errors <==> Found(error, catalog)
  {
    hide Reported;
    errors := [];
    var seen: set<string> := {};
    for i := 0 to |catalog|
      invariant seen == SeenIds(catalog[..i])
      invariant forall error :: error in errors <==> exists k | 0 <= k < i :: Reported(error, catalog[k], SeenIds(catalog[..k]))
    {
      var found := ValidateIdentity(catalog[i], seen);
      errors := errors + found;
      assert catalog[..i + 1] == catalog[..i] + [catalog[i]];
      if catalog[i].semanticId != "" {
        seen := seen + {catalog[i].semanticId};
      }
    }
  }

  /**
   A built catalog is never reported for missing or duplicate identifiers, mismatched names or legacy terms, and its
   identifiers are its terms: only a term that is not snake case is reported.
   */
  lemma BuiltCatalogReports(catalog: seq<Entry>, fields: seq<Field>, i: nat, error: CatalogError)
    requires SoundCatalog(catalog, fields) && AllCoherent(fields) && i < |catalog|
    ensures catalog[i].semanticId == "lotus." + catalog[i].canonicalTerm
    ensures Reported(error, catalog[i], SeenIds(catalog[..i])) <==>
            error == NotSnakeCase(catalog[i].semanticId) && !IsSnakeCase(catalog[i].canonicalTerm)
  {
    hide LexLe, IsSnakeCase, CanonicalTerm, FirstSeen;
    var e := catalog[i];
    assert Describes(e, fields);
    var own := WithId(fields, e.semanticId);
    WithIdOnly(fields, e.semanticId);
    assert own[0] in fields && Coherent(own[0]);
    NeverLegacy(own[0].name);
    assert e.semanticId !in SeenIds(catalog[..i]) by {
      assert forall k | 0 <= k < i :: catalog[..i][k].semanticId != e.semanticId;
    }
  }

  /** The errors that validation finds in a catalog. */
  predicate Found(error: CatalogError, catalog: seq<Entry>) {
    exists i | 0 <= i < |catalog| :: Reported(error, catalog[i], SeenIds(catalog[..i]))
  }

  /**
   Validating the catalog of a built inventory finds terms that are not snake case and nothing else, and it finds
   nothing exactly when the term of every field is snake case.
   */
  lemma BuildThenValidate(operations: seq<Operation>, components: Components, depth: nat, inventory: Inventory)
    requires IsInventory(inventory, operations, components, depth)
    ensures forall error | Found(error, inventory.catalog) :: error.NotSnakeCase?
    ensures (forall error :: !Found(error, inventory.catalog)) <==>
            forall f | f in AllFields(inventory.endpoints) :: IsSnakeCase(CanonicalTerm(f.name))
  {
    hide SoundCatalog, EndpointOf, IsSnakeCase, CanonicalTerm, Reported;
    var catalog, fields := inventory.catalog, AllFields(inventory.endpoints);
    EndpointsCoherent(operations, components, depth, inventory.endpoints);
    forall i, error | 0 <= i < |catalog|
      ensures Reported(error, catalog[i], SeenIds(catalog[..i])) <==>
              error == NotSnakeCase(catalog[i].semanticId) && !IsSnakeCase(catalog[i].canonicalTerm)
    {
      BuiltCatalogReports(catalog, fields, i, error);
    }
    forall f | f in fields
      ensures exists i | 0 <= i < |catalog| :: catalog[i].canonicalTerm == CanonicalTerm(f.name)
    {
      FieldHasEntry(catalog, fields, f);
    }
    forall i | 0 <= i < |catalog|
      ensures exists f | f in fields :: catalog[i].canonicalTerm == CanonicalTerm(f.name)
    {
      EntryHasField(catalog, fields, i);
    }
    if forall error :: !Found(error, catalog) {
      forall i | 0 <= i < |catalog|
        ensures IsSnakeCase(catalog[i].canonicalTerm)
      {
        assert !Found(NotSnakeCase(catalog[i].semanticId), catalog);
      }
    }
  }

  lemma FieldHasEntry(catalog: seq<Entry>, fields: seq<Field>, f: Field)
    requires SoundCatalog(catalog, fields) && AllCoherent(fields) && f in fields
    ensures exists i | 0 <= i < |catalog| :: catalog[i].canonicalTerm == CanonicalTerm(f.name)
  {
    hide CanonicalTerm, Describes, LexLe, IsSnakeCase;
    var i :| 0 <= i < |catalog| && catalog[i].semanticId == f.semanticId;
    BuiltCatalogReports(catalog, fields, i, MissingId);
    assert Coherent(f);
    SameTerm(catalog[i].canonicalTerm, CanonicalTerm(f.name));
  }

  lemma SameTerm(a: string, b: string)
    ensures "lotus." + a == "lotus." + b ==> a == b
  {
    assert ("lotus." + a)[6..] == a && ("lotus." + b)[6..] == b;
  }

  lemma EntryHasField(catalog: seq<Entry>, fields: seq<Field>, i: nat)
    requires SoundCatalog(catalog, fields) && i < |catalog|
    ensures exists f | f in fields :: catalog[i].canonicalTerm == CanonicalTerm(f.name)
  {
    hide CanonicalTerm, LexLe, FirstSeen;
    var own := WithId(fields, catalog[i].semanticId);
    WithIdOnly(fields, catalog[i].semanticId);
    assert Describes(catalog[i], fields);
    assert own[0] in fields;
  }
}
