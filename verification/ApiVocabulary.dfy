/** Field extraction from JSON schemas and the attribute catalog, of scripts/api_vocabulary_inventory.py. */
module ApiVocabulary {
  import opened Wrappers
  import opened Text
  import opened Sorting

  // ----- naming -----

  predicate IsLowerOrDigit(c: char) {
    'a' <= c <= 'z' || IsDigit(c)
  }

  predicate IsUpper(c: char) {
    'A' <= c <= 'Z'
  }

  /** An underscore goes between a lower-case letter or digit and the upper-case letter after it. */
  function SplitHumps(s: string): string {
    if |s| < 2 then s
    else [s[0]] + (if IsLowerOrDigit(s[0]) && IsUpper(s[1]) then "_" else "") + SplitHumps(s[1..])
  }

  function Underscored(s: string): string {
    seq(|s|, i requires 0 <= i < |s| => if s[i] == '-' || s[i] == ' ' || s[i] == '.' then '_' else s[i])
  }

  function StripUnderscores(s: string): string {
    if s == "" then ""
    else if s[0] == '_' then StripUnderscores(s[1..])
    else if s[|s| - 1] == '_' then StripUnderscores(s[..|s| - 1])
    else s
  }

  function Lower(s: string): string {
    seq(|s|, i requires 0 <= i < |s| => if IsUpper(s[i]) then (s[i] as int + 32) as char else s[i])
  }

  /** `_to_snake_case` */
  function ToSnakeCase(s: string): string {
    Lower(StripUnderscores(Underscored(SplitHumps(s))))
  }

  /** `s.split(".")[-1]` */
  function LastPart(s: string): string {
    if IndexOf(s, '.') == |s| then s else LastPart(s[IndexOf(s, '.') + 1..])
  }

  /** `s.replace("[]", "")` */
  function WithoutBrackets(s: string): string {
    if s == "" then "" else if StartsWith(s, "[]") then WithoutBrackets(s[2..]) else [s[0]] + WithoutBrackets(s[1..])
  }

  const LEGACY_TERMS := map["cif_id" := "client_id", "booking_center" := "booking_center_code"]

  /** `_canonical_term` */
  function CanonicalTerm(name: string): string {
    var base := ToSnakeCase(WithoutBrackets(LastPart(name)));
    if base in LEGACY_TERMS then LEGACY_TERMS[base] else base
  }

  function SemanticId(name: string): string {
    "lotus." + CanonicalTerm(name)
  }

  lemma NeverLegacy(name: string)
    ensures CanonicalTerm(name) !in LEGACY_TERMS
  {
  }

  /** The term of a dotted name is that of its last property, whatever the prefix. */
  lemma {:induction false} DottedTerm(prefix: string, name: string)
    ensures LastPart(prefix + "." + name) == LastPart(name)
    ensures SemanticId(prefix + "." + name) == SemanticId(name)
    decreases |prefix|
  {
    var s := prefix + "." + name;
    var i := IndexOf(prefix, '.');
    if i == |prefix| {
      IndexOfAppend(prefix, '.', name);
      assert s == prefix + ['.'] + name && s[|prefix| + 1..] == name;
    } else {
      assert prefix == prefix[..i] + ['.'] + prefix[i + 1..];
      assert s == prefix[..i] + ['.'] + (prefix[i + 1..] + "." + name);
      IndexOfAppend(prefix[..i], '.', prefix[i + 1..] + "." + name);
      assert s[i + 1..] == prefix[i + 1..] + "." + name;
      DottedTerm(prefix[i + 1..], name);
    }
  }

  // ----- schemas -----

  /**
   A JSON schema.  `ref` is the last segment of its `$ref`; `shown` is the type that `_schema_type` shows;
   `properties` keeps those that are objects, in order.
   */
  datatype Schema = Schema(
    ref: Option<string>, kind: string, shown: string, properties: seq<Property>, required: set<string>, items: Option<Schema>)

  datatype Property = Property(name: string, schema: Schema)

  type Components = map<string, Schema>

  const EMPTY := Schema(None, "", "object", [], {}, None)

  /** `_resolve_schema`: one step, to an empty schema when the component is missing. */
  function Resolve(schema: Schema, components: Components): Schema {
    if schema.ref.None? then schema
    else if schema.ref.value in components then components[schema.ref.value]
    else EMPTY
  }

  /** `_iter_nested_field_schemas`: at most one schema to go into, and what its prefix gets. */
  function Nested(prop: Schema, components: Components): Option<(Schema, string)> {
    var resolved := Resolve(prop, components);
    if resolved.kind == "object" || prop.ref.Some? then Some((prop, ""))
    else if resolved.kind == "array" && resolved.items.Some? then Some((resolved.items.value, "[]"))
    else None
  }

  datatype Field = Field(name: string, location: string, required: bool, shown: string, semanticId: string)

  function FieldName(prefix: string, name: string): string {
    if prefix == "" then name else prefix + "." + name
  }

  function FieldOf(p: Property, prefix: string, location: string, required: set<string>): Field {
    Field(FieldName(prefix, p.name), location, p.name in required, p.schema.shown, SemanticId(p.name))
  }

  /** The fields of `schema`, each followed by those nested in it; None when nesting goes deeper than `depth`. */
  function Extract(schema: Schema, components: Components, prefix: string, location: string, depth: nat): Option<seq<Field>>
    decreases depth, 1, 0
  {
    var resolved := Resolve(schema, components);
    ExtractAll(resolved.properties, resolved.required, components, prefix, location, depth)
  }

  function ExtractAll(properties: seq<Property>, required: set<string>, components: Components, prefix: string,
                      location: string, depth: nat): Option<seq<Field>>
    decreases depth, 0, |properties|
  {
    if properties == [] then Some([])
    else
      var last := properties[|properties| - 1];
      var before := ExtractAll(properties[..|properties| - 1], required, components, prefix, location, depth);
      var inner := ExtractNested(last, components, prefix, location, depth);
      if before.None? || inner.None? then None
      else Some(before.value + [FieldOf(last, prefix, location, required)] + inner.value)
  }

  function ExtractNested(p: Property, components: Components, prefix: string, location: string, depth: nat): Option<seq<Field>>
    decreases depth, 0, 0
  {
    match Nested(p.schema, components)
    case None => Some([])
    case Some((schema, suffix)) =>
      if depth == 0 then None
      else Extract(schema, components, FieldName(prefix, p.name) + suffix, location, depth - 1)
  }

  /** `_extract_fields` with `depth` stack frames to spare; None when they run out. */
  method ExtractFields(schema: Schema, components: Components, prefix: string, location: string, depth: nat)
    returns (fields: Option<seq<Field>>)
    ensures fields == Extract(schema, components, prefix, location, depth)
    decreases depth
  {
    hide FieldOf, FieldName, Nested;
    var resolved := Resolve(schema, components);
    var properties := resolved.properties;
    var found: seq<Field> := [];
    for i := 0 to |properties|
      invariant ExtractAll(properties[..i], resolved.required, components, prefix, location, depth) == Some(found)
    {
      var p := properties[i];
      assert properties[..i + 1][..i] == properties[..i];
      found := found + [FieldOf(p, prefix, location, resolved.required)];
      match Nested(p.schema, components) {
        case None =>
          found := found + [];
        case Some((nested, suffix)) =>
          if depth == 0 {
            NestedFails(properties, i, resolved.required, components, prefix, location, depth);
            return None;
          }
          var inner := ExtractFields(nested, components, FieldName(prefix, p.name) + suffix, location, depth - 1);
          if inner.None? {
            NestedFails(properties, i, resolved.required, components, prefix, location, depth);
            return None;
          }
          found := found + inner.value;
      }
    }
    assert properties[..|properties|] == properties;
    return Some(found);
  }

  lemma {:induction false} NestedFails(properties: seq<Property>, i: nat, required: set<string>, components: Components,
                                       prefix: string, location: string, depth: nat)
    requires i < |properties| && ExtractNested(properties[i], components, prefix, location, depth).None?
    ensures ExtractAll(properties, required, components, prefix, location, depth).None?
    decreases |properties|
  {
    if i < |properties| - 1 {
      NestedFails(properties[..|properties| - 1], i, required, components, prefix, location, depth);
    }
  }

  lemma {:induction false} AllNestedIff(properties: seq<Property>, required: set<string>, components: Components,
                                        prefix: string, location: string, depth: nat)
    ensures ExtractAll(properties, required, components, prefix, location, depth).Some? <==>
            forall i | 0 <= i < |properties| :: ExtractNested(properties[i], components, prefix, location, depth).Some?
    decreases |properties|
  {
    hide ExtractNested, FieldOf;
    if properties == [] {
    } else {
      var init := properties[..|properties| - 1];
      AllNestedIff(init, required, components, prefix, location, depth);
      assert forall i | 0 <= i < |init| :: properties[i] == init[i];
    }
  }

  // ----- termination -----

  /** `path` chooses a property at each level of nesting. */
  predicate Chain(schema: Schema, components: Components, path: seq<nat>)
    decreases |path|
  {
    || path == []
    || (var properties := Resolve(schema, components).properties;
        && path[0] < |properties| && Nested(properties[path[0]].schema, components).Some?
        && Chain(Nested(properties[path[0]].schema, components).value.0, components, path[1..]))
  }

  ghost predicate NestsDeeper(schema: Schema, components: Components, depth: nat) {
    exists path :: |path| == depth + 1 && Chain(schema, components, path)
  }

  /** Extraction succeeds within `depth` exactly when no chain of nested schemas is longer. */
  lemma {:induction false} ExtractIff(schema: Schema, components: Components, prefix: string, location: string, depth: nat)
    ensures Extract(schema, components, prefix, location, depth).Some? <==> !NestsDeeper(schema, components, depth)
    decreases depth
  {
    hide ExtractAll, FieldName, Nested;
    var resolved := Resolve(schema, components);
    var properties := resolved.properties;
    AllNestedIff(properties, resolved.required, components, prefix, location, depth);
    if NestsDeeper(schema, components, depth) {
      var i, nested := DeeperInside(schema, components, depth);
      var p := properties[i];
      if depth > 0 {
        ExtractIff(nested, components, FieldName(prefix, p.name) + Nested(p.schema, components).value.1, location, depth - 1);
      }
      assert ExtractNested(p, components, prefix, location, depth).None?;
    } else {
      forall i | 0 <= i < |properties|
        ensures ExtractNested(properties[i], components, prefix, location, depth).Some?
      {
        var p := properties[i];
        if Nested(p.schema, components).Some? {
          var (nested, suffix) := Nested(p.schema, components).value;
          ShallowerInside(schema, components, depth, i, nested);
          ExtractIff(nested, components, FieldName(prefix, p.name) + suffix, location, depth - 1);
        }
      }
    }
  }

  lemma DeeperInside(schema: Schema, components: Components, depth: nat) returns (i: nat, nested: Schema)
    requires NestsDeeper(schema, components, depth)
    ensures i < |Resolve(schema, components).properties|
    ensures Nested(Resolve(schema, components).properties[i].schema, components).Some?
    ensures nested == Nested(Resolve(schema, components).properties[i].schema, components).value.0
    ensures depth > 0 ==> NestsDeeper(nested, components, depth - 1)
  {
    hide Nested, Resolve;
    var path :| |path| == depth + 1 && Chain(schema, components, path);
    i := path[0];
    nested := Nested(Resolve(schema, components).properties[i].schema, components).value.0;
    assert |path[1..]| == depth;
  }

  lemma ShallowerInside(schema: Schema, components: Components, depth: nat, i: nat, nested: Schema)
    requires !NestsDeeper(schema, components, depth)
    requires i < |Resolve(schema, components).properties|
    requires Nested(Resolve(schema, components).properties[i].schema, components).Some?
    requires nested == Nested(Resolve(schema, components).properties[i].schema, components).value.0
    ensures depth > 0 && !NestsDeeper(nested, components, depth - 1)
  {
    if depth == 0 {
      DeeperOutside(schema, components, i, nested, []);
    } else if NestsDeeper(nested, components, depth - 1) {
      var rest :| |rest| == depth - 1 + 1 && Chain(nested, components, rest);
      DeeperOutside(schema, components, i, nested, rest);
    }
  }

  lemma DeeperOutside(schema: Schema, components: Components, i: nat, nested: Schema, rest: seq<nat>)
    requires i < |Resolve(schema, components).properties|
    requires Nested(Resolve(schema, components).properties[i].schema, components).Some?
    requires nested == Nested(Resolve(schema, components).properties[i].schema, components).value.0
    requires Chain(nested, components, rest)
    ensures NestsDeeper(schema, components, |rest|)
  {
    var path := [i] + rest;
    assert path[1..] == rest;
    assert Chain(schema, components, path);
  }

  /** The result does not depend on how many frames were to spare. */
  lemma {:induction false} MoreDepthSame(schema: Schema, components: Components, prefix: string, location: string, depth: nat, more: nat)
    requires Extract(schema, components, prefix, location, depth).Some? && depth <= more
    ensures Extract(schema, components, prefix, location, more) == Extract(schema, components, prefix, location, depth)
    decreases depth, 1, 0
  {
    var resolved := Resolve(schema, components);
    MoreDepthAll(resolved.properties, resolved.required, components, prefix, location, depth, more);
  }

  lemma {:induction false} MoreDepthAll(properties: seq<Property>, required: set<string>, components: Components,
                                        prefix: string, location: string, depth: nat, more: nat)
    requires ExtractAll(properties, required, components, prefix, location, depth).Some? && depth <= more
    ensures ExtractAll(properties, required, components, prefix, location, more)
         == ExtractAll(properties, required, components, prefix, location, depth)
    decreases depth, 0, |properties|
  {
    hide FieldOf, FieldName, Extract, Nested;
    if properties == [] {
    } else {
      var last := properties[|properties| - 1];
      MoreDepthAll(properties[..|properties| - 1], required, components, prefix, location, depth, more);
      if Nested(last.schema, components).Some? {
        var (nested, suffix) := Nested(last.schema, components).value;
        MoreDepthSame(nested, components, FieldName(prefix, last.name) + suffix, location, depth - 1, more - 1);
      }
    }
  }

  /** Every reference inside `schema`, short of following it, goes to a component of lower rank. */
  predicate RefsBelow(schema: Schema, rank: map<string, nat>, limit: nat) {
    && (schema.ref.Some? ==> schema.ref.value in rank && rank[schema.ref.value] < limit)
    && (forall i | 0 <= i < |schema.properties| :: RefsBelow(schema.properties[i].schema, rank, limit))
    && (schema.items.Some? ==> RefsBelow(schema.items.value, rank, limit))
  }

  /** The reference graph has no cycle: each component refers to components of lower rank only. */
  predicate Acyclic(components: Components, rank: map<string, nat>) {
    forall name | name in components :: name in rank && RefsBelow(components[name], rank, rank[name])
  }

  /** When the reference graph is acyclic, extraction terminates. */
  lemma {:induction false} AcyclicTerminates(schema: Schema, components: Components, rank: map<string, nat>, limit: nat,
                                             prefix: string, location: string) returns (depth: nat)
    requires Acyclic(components, rank) && RefsBelow(schema, rank, limit)
    ensures Extract(schema, components, prefix, location, depth).Some?
    decreases limit, schema, 1, 0
  {
    if schema.ref.Some? {
      depth := FollowTerminates(schema, components, rank, limit, prefix, location);
    } else {
      depth := AllTerminate(schema, schema.properties, components, rank, limit, prefix, location);
    }
  }

  lemma {:induction false} FollowTerminates(schema: Schema, components: Components, rank: map<string, nat>, limit: nat,
                                            prefix: string, location: string) returns (depth: nat)
    requires Acyclic(components, rank) && RefsBelow(schema, rank, limit) && schema.ref.Some?
    ensures Extract(schema, components, prefix, location, depth).Some?
    decreases limit, schema, 0, 0
  {
    var name := schema.ref.value;
    if name in components {
      depth := AllTerminate(components[name], components[name].properties, components, rank, rank[name], prefix, location);
    } else {
      depth := 0;
    }
    assert Extract(schema, components, prefix, location, depth)
        == ExtractAll(Resolve(schema, components).properties, Resolve(schema, components).required, components, prefix, location, depth);
  }

  lemma {:induction false} AllTerminate(schema: Schema, properties: seq<Property>, components: Components, rank: map<string, nat>,
                                        limit: nat, prefix: string, location: string) returns (depth: nat)
    requires Acyclic(components, rank) && RefsBelow(schema, rank, limit) && properties <= schema.properties
    ensures ExtractAll(properties, schema.required, components, prefix, location, depth).Some?
    decreases limit, schema, 0, |properties|
  {
    hide Extract, ExtractNested;
    depth := 0;
    if properties == [] {
    } else {
      var init, last := properties[..|properties| - 1], properties[|properties| - 1];
      assert last == schema.properties[|properties| - 1];
      depth := AllTerminate(schema, init, components, rank, limit, prefix, location);
      var inner := 0;
      if Nested(last.schema, components).Some? {
        var (nested, suffix) := Nested(last.schema, components).value;
        assert nested == last.schema || (last.schema.items.Some? && nested == last.schema.items.value);
        inner := AcyclicTerminates(nested, components, rank, limit, FieldName(prefix, last.name) + suffix, location);
      }
      depth := OneMoreTerminates(properties, schema.required, components, prefix, location, depth, inner);
    }
  }

  lemma OneMoreTerminates(properties: seq<Property>, required: set<string>, components: Components, prefix: string,
                          location: string, before: nat, inner: nat) returns (depth: nat)
    requires properties != []
    requires ExtractAll(properties[..|properties| - 1], required, components, prefix, location, before).Some?
    requires var last := properties[|properties| - 1];
             Nested(last.schema, components).Some? ==>
               var (nested, suffix) := Nested(last.schema, components).value;
               Extract(nested, components, FieldName(prefix, last.name) + suffix, location, inner).Some?
    ensures ExtractAll(properties, required, components, prefix, location, depth).Some?
  {
    hide Extract, FieldName, FieldOf;
    var last := properties[|properties| - 1];
    depth := if before < inner + 1 then inner + 1 else before;
    MoreDepthAll(properties[..|properties| - 1], required, components, prefix, location, before, depth);
    if Nested(last.schema, components).Some? {
      var (nested, suffix) := Nested(last.schema, components).value;
      MoreDepthSame(nested, components, FieldName(prefix, last.name) + suffix, location, inner, depth - 1);
    }
  }

  // ----- cycles of nested schemas -----

  /** The schema that a chain leads to. */
  function Follow(schema: Schema, components: Components, path: seq<nat>): Schema
    requires Chain(schema, components, path)
    decreases |path|
  {
    if path == [] then schema
    else Follow(Nested(Resolve(schema, components).properties[path[0]].schema, components).value.0, components, path[1..])
  }

  /** Some nested schema is nested in itself. */
  ghost predicate ReachesCycle(schema: Schema, components: Components) {
    exists path, loop :: IsCycle(schema, components, path, loop)
  }

  ghost predicate IsCycle(schema: Schema, components: Components, path: seq<nat>, loop: seq<nat>) {
    && loop != [] && Chain(schema, components, path) && Chain(Follow(schema, components, path), components, loop)
    && Follow(Follow(schema, components, path), components, loop) == Follow(schema, components, path)
  }

  lemma {:induction false} ChainAppend(schema: Schema, components: Components, a: seq<nat>, b: seq<nat>)
    ensures Chain(schema, components, a + b) <==> Chain(schema, components, a) && Chain(Follow(schema, components, a), components, b)
    ensures Chain(schema, components, a + b) ==>
              Follow(schema, components, a + b) == Follow(Follow(schema, components, a), components, b)
    decreases |a|
  {
    hide Nested;
    if a == [] {
      assert a + b == b;
    } else {
      assert (a + b)[0] == a[0] && (a + b)[1..] == a[1..] + b;
      var properties := Resolve(schema, components).properties;
      if a[0] < |properties| && Nested(properties[a[0]].schema, components).Some? {
        ChainAppend(Nested(properties[a[0]].schema, components).value.0, components, a[1..], b);
      }
    }
  }

  /** Going round a cycle makes chains of every length. */
  lemma {:induction false} RoundAndRound(schema: Schema, components: Components, loop: seq<nat>, n: nat) returns (path: seq<nat>)
    requires loop != [] && Chain(schema, components, loop) && Follow(schema, components, loop) == schema
    ensures |path| >= n && Chain(schema, components, path)
    decreases n
  {
    if n == 0 {
      path := [];
    } else {
      var rest := RoundAndRound(schema, components, loop, n - 1);
      ChainAppend(schema, components, loop, rest);
      path := loop + rest;
    }
  }

  lemma CycleGoesDeep(schema: Schema, components: Components, depth: nat)
    requires ReachesCycle(schema, components)
    ensures NestsDeeper(schema, components, depth)
  {
    hide Chain, Follow;
    var path, loop :| IsCycle(schema, components, path, loop);
    var round := RoundAndRound(Follow(schema, components, path), components, loop, depth + 1);
    ChainAppend(schema, components, path, round);
    var all := path + round;
    assert all == all[..depth + 1] + all[depth + 1..];
    ChainAppend(schema, components, all[..depth + 1], all[depth + 1..]);
  }

  /** The schemas written inside a schema, itself included. */
  function Inside(schema: Schema): set<Schema> {
    {schema} + InsideAll(schema.properties) + if schema.items.Some? then Inside(schema.items.value) else {}
  }

  function InsideAll(properties: seq<Property>): set<Schema> {
    if properties == [] then {} else Inside(properties[0].schema) + InsideAll(properties[1..])
  }

  function Universe(schema: Schema, components: Components): set<Schema> {
    Inside(schema) + set name, s | name in components && s in Inside(components[name]) :: s
  }

  lemma {:induction false} InsideProperty(properties: seq<Property>, i: nat)
    requires i < |properties|
    ensures Inside(properties[i].schema) <= InsideAll(properties)
  {
    if i > 0 {
      InsideProperty(properties[1..], i - 1);
    }
  }

  /** What is nested in a schema of the universe is in it as well. */
  lemma {:induction false} InsideClosed(schema: Schema, inner: Schema)
    requires inner in Inside(schema)
    ensures Inside(inner) <= Inside(schema)
    decreases schema
  {
    if inner != schema {
      if inner in InsideAll(schema.properties) {
        InsideAllClosed(schema.properties, inner);
      } else {
        InsideClosed(schema.items.value, inner);
      }
    }
  }

  lemma {:induction false} InsideAllClosed(properties: seq<Property>, inner: Schema)
    requires inner in InsideAll(properties)
    ensures Inside(inner) <= InsideAll(properties)
    decreases properties
  {
    if inner in Inside(properties[0].schema) {
      InsideClosed(properties[0].schema, inner);
    } else {
      InsideAllClosed(properties[1..], inner);
    }
  }

  lemma UniverseClosed(root: Schema, components: Components, s: Schema, inner: Schema)
    requires s in Universe(root, components) && inner in Inside(s)
    ensures inner in Universe(root, components)
  {
    hide Inside;
    if s in Inside(root) {
      InsideClosed(root, s);
    } else {
      var name :| name in components && s in Inside(components[name]);
      InsideClosed(components[name], s);
    }
  }

  lemma NestedInUniverse(root: Schema, components: Components, s: Schema, i: nat)
    requires s in Universe(root, components) && i < |Resolve(s, components).properties|
    requires Nested(Resolve(s, components).properties[i].schema, components).Some?
    ensures Nested(Resolve(s, components).properties[i].schema, components).value.0 in Universe(root, components)
  {
    hide Universe;
    var resolved := Resolve(s, components);
    ResolvedInUniverse(root, components, s);
    var p := resolved.properties[i].schema;
    InsideProperty(resolved.properties, i);
    InsideItself(p);
    UniverseClosed(root, components, resolved, p);
    if Nested(p, components).value.0 != p {
      ResolvedInUniverse(root, components, p);
      var items := Resolve(p, components).items.value;
      InsideItself(items);
      UniverseClosed(root, components, Resolve(p, components), items);
    }
  }

  lemma InsideItself(s: Schema)
    ensures s in Inside(s) && (s.items.Some? ==> Inside(s.items.value) <= Inside(s)) && InsideAll(s.properties) <= Inside(s)
  {
  }

  lemma ResolvedInUniverse(root: Schema, components: Components, s: Schema)
    requires s in Universe(root, components)
    ensures Resolve(s, components) in Universe(root, components) || Resolve(s, components) == EMPTY
  {
    if s.ref.Some? && s.ref.value in components {
      InsideItself(components[s.ref.value]);
    }
  }

  lemma {:induction false} FollowInUniverse(root: Schema, components: Components, s: Schema, path: seq<nat>)
    requires s in Universe(root, components) && Chain(s, components, path)
    ensures Follow(s, components, path) in Universe(root, components)
    decreases |path|
  {
    hide Universe, Nested;
    if path == [] {
    } else {
      NestedInUniverse(root, components, s, path[0]);
      FollowInUniverse(root, components, Nested(Resolve(s, components).properties[path[0]].schema, components).value.0, path[1..]);
    }
  }

  /** A list longer than the set of its elements has a repetition. */
  lemma {:induction false} Pigeonhole(nodes: seq<Schema>, universe: set<Schema>) returns (i: nat, j: nat)
    requires |nodes| > |universe| && forall k | 0 <= k < |nodes| :: nodes[k] in universe
    ensures i < j < |nodes| && nodes[i] == nodes[j]
    decreases |nodes|
  {
    var init, last := nodes[..|nodes| - 1], nodes[|nodes| - 1];
    if k :| 0 <= k < |init| && init[k] == last {
      i, j := k, |init|;
    } else {
      i, j := Pigeonhole(init, universe - {last});
    }
  }

  lemma DeepGoesRound(schema: Schema, components: Components)
    requires NestsDeeper(schema, components, |Universe(schema, components)|)
    ensures ReachesCycle(schema, components)
  {
    hide Universe, Chain, Follow;
    var universe := Universe(schema, components);
    var path :| |path| == |universe| + 1 && Chain(schema, components, path);
    assert schema in universe by {
      RootInUniverse(schema, components);
    }
    forall k | 0 <= k <= |path|
      ensures Chain(schema, components, path[..k]) && Follow(schema, components, path[..k]) in universe
    {
      assert path == path[..k] + path[k..];
      ChainAppend(schema, components, path[..k], path[k..]);
      FollowInUniverse(schema, components, schema, path[..k]);
    }
    var nodes := seq(|path|, k requires 0 <= k < |path| => Follow(schema, components, path[..k]));
    var i, j := Pigeonhole(nodes, universe);
    assert path[..j] == path[..i] + path[i..j];
    ChainAppend(schema, components, path[..i], path[i..j]);
    assert IsCycle(schema, components, path[..i], path[i..j]);
  }

  lemma RootInUniverse(schema: Schema, components: Components)
    ensures schema in Universe(schema, components)
  {
    InsideItself(schema);
  }

  /**
   Extraction terminates exactly when no schema is nested in itself, through references, along a chain from the
   given one.
   */
  lemma TerminatesIff(schema: Schema, components: Components, prefix: string, location: string)
    ensures (exists depth: nat :: Extract(schema, components, prefix, location, depth).Some?) <==> !ReachesCycle(schema, components)
  {
    hide *;
    forall depth: nat | ReachesCycle(schema, components)
      ensures Extract(schema, components, prefix, location, depth).None?
    {
      CycleGoesDeep(schema, components, depth);
      ExtractIff(schema, components, prefix, location, depth);
    }
    if !ReachesCycle(schema, components) {
      var depth := |Universe(schema, components)|;
      if NestsDeeper(schema, components, depth) {
        DeepGoesRound(schema, components);
      }
      ExtractIff(schema, components, prefix, location, depth);
      assert Extract(schema, components, prefix, location, depth).Some?;
    }
  }

  // ----- field names -----

  predicate GoodName(name: string) {
    name != "" && '.' !in name
  }

  /** Every property name inside `schema` is non-empty and dot-free, and those of one schema are distinct. */
  predicate WellNamed(schema: Schema) {
    && (forall i | 0 <= i < |schema.properties| :: GoodName(schema.properties[i].name) && WellNamed(schema.properties[i].schema))
    && DistinctProperties(schema.properties)
    && (schema.items.Some? ==> WellNamed(schema.items.value))
  }

  predicate DistinctProperties(properties: seq<Property>) {
    forall i, j | 0 <= i < j < |properties| :: properties[i].name != properties[j].name
  }

  predicate WellNamedProperties(properties: seq<Property>) {
    (forall i | 0 <= i < |properties| :: GoodName(properties[i].name) && WellNamed(properties[i].schema)) && DistinctProperties(properties)
  }

  predicate AllWellNamed(components: Components) {
    forall name | name in components :: WellNamed(components[name])
  }

  function Names(fields: seq<Field>): seq<string> {
    seq(|fields|, i requires 0 <= i < |fields| => fields[i].name)
  }

  /** The names of the fields nested in a property. */
  function NestedNames(p: Property, components: Components, prefix: string, location: string, depth: nat): seq<string>
    requires ExtractNested(p, components, prefix, location, depth).Some?
  {
    Names(ExtractNested(p, components, prefix, location, depth).value)
  }

  /** `name` lies strictly below `top`. */
  predicate Below(name: string, top: string) {
    top + "." <= name
  }

  // ----- names below a prefix -----

  lemma {:induction false} NamesBelow(schema: Schema, components: Components, prefix: string, location: string, depth: nat)
    requires prefix != "" && Extract(schema, components, prefix, location, depth).Some?
    ensures forall n | n in Names(Extract(schema, components, prefix, location, depth).value) :: Below(n, prefix)
    decreases depth, 1, 0
  {
    var resolved := Resolve(schema, components);
    AllNamesBelow(resolved.properties, resolved.required, components, prefix, location, depth);
  }

  lemma {:induction false} AllNamesBelow(properties: seq<Property>, required: set<string>, components: Components,
                                         prefix: string, location: string, depth: nat)
    requires prefix != "" && ExtractAll(properties, required, components, prefix, location, depth).Some?
    ensures forall n | n in Names(ExtractAll(properties, required, components, prefix, location, depth).value) :: Below(n, prefix)
    decreases depth, 0, |properties|
  {
    hide SemanticId;
    if properties == [] {
      assert ExtractAll(properties, required, components, prefix, location, depth).value == [];
    } else {
      var last := properties[|properties| - 1];
      var top := FieldName(prefix, last.name);
      AllNamesSplit(properties, required, components, prefix, location, depth);
      assert prefix + "." <= top;
      AllNamesBelow(properties[..|properties| - 1], required, components, prefix, location, depth);
      if Nested(last.schema, components).Some? {
        var (nested, suffix) := Nested(last.schema, components).value;
        NamesBelow(nested, components, top + suffix, location, depth - 1);
        forall n | Below(n, top + suffix)
          ensures Below(n, prefix)
        {
          assert prefix + "." + (last.name + suffix + ".") == top + suffix + ".";
        }
      }
    }
  }

  lemma NestedBelow(p: Property, components: Components, prefix: string, location: string, depth: nat)
    requires ExtractNested(p, components, prefix, location, depth).Some? && GoodName(p.name)
    ensures NestedNames(p, components, prefix, location, depth) != [] ==> Nested(p.schema, components).Some?
    ensures Nested(p.schema, components).Some? ==>
              forall n | n in NestedNames(p, components, prefix, location, depth) ::
                Below(n, FieldName(prefix, p.name) + Nested(p.schema, components).value.1)
  {
    hide Extract;
    if Nested(p.schema, components).Some? {
      var (nested, suffix) := Nested(p.schema, components).value;
      NamesBelow(nested, components, FieldName(prefix, p.name) + suffix, location, depth - 1);
    }
  }

  // ----- when two properties lead to one name -----

  /** The second property bears the name that the items of the first give their prefix, and both have nested fields. */
  predicate BracketPair(p: Property, q: Property, components: Components) {
    && q.name == p.name + "[]"
    && Nested(p.schema, components).Some? && Nested(p.schema, components).value.1 == "[]"
    && Nested(q.schema, components).Some? && Nested(q.schema, components).value.1 == ""
  }

  /** What follows `start`, up to the first dot. */
  function Segment(name: string, start: string): string
    requires start <= name
  {
    name[|start|..][..IndexOf(name[|start|..], '.')]
  }

  function Start(prefix: string): string {
    if prefix == "" then "" else prefix + "."
  }

  lemma TopSegment(prefix: string, p: string)
    requires GoodName(p)
    ensures Start(prefix) <= FieldName(prefix, p) && Segment(FieldName(prefix, p), Start(prefix)) == p
    ensures '.' !in FieldName(prefix, p)[|Start(prefix)|..]
  {
    assert FieldName(prefix, p) == Start(prefix) + p;
    assert FieldName(prefix, p)[|Start(prefix)|..] == p;
    IndexOfAbsent(p, '.');
  }

  lemma BelowSegment(name: string, prefix: string, p: string, suffix: string)
    requires GoodName(p) && (suffix == "" || suffix == "[]") && Below(name, FieldName(prefix, p) + suffix)
    ensures Start(prefix) <= name && Segment(name, Start(prefix)) == p + suffix
    ensures '.' in name[|Start(prefix)|..]
  {
    var head := FieldName(prefix, p) + suffix + ".";
    var rest := name[|head|..];
    assert name == head + rest && head == Start(prefix) + (p + suffix + ".");
    assert name[|Start(prefix)|..] == (p + suffix) + ['.'] + rest;
    assert '.' !in p + suffix;
    IndexOfAppend(p + suffix, '.', rest);
    assert name[|Start(prefix)|..][|p + suffix|] == '.';
  }

  /** Two different properties share a name only as a bracket pair, and then only among their nested fields. */
  lemma SharedName(p: Property, q: Property, components: Components, prefix: string, location: string, depth: nat, n: string)
    requires GoodName(p.name) && GoodName(q.name) && p.name != q.name
    requires ExtractNested(p, components, prefix, location, depth).Some? && ExtractNested(q, components, prefix, location, depth).Some?
    requires n == FieldName(prefix, p.name) || n in NestedNames(p, components, prefix, location, depth)
    requires n == FieldName(prefix, q.name) || n in NestedNames(q, components, prefix, location, depth)
    ensures BracketPair(p, q, components) || BracketPair(q, p, components)
    ensures n in NestedNames(p, components, prefix, location, depth) && n in NestedNames(q, components, prefix, location, depth)
  {
    hide FieldName, Below, Segment, ExtractNested, GoodName, NestedNames;
    var inP := NameSegment(p, components, prefix, location, depth, n);
    var inQ := NameSegment(q, components, prefix, location, depth, n);
    if inP != inQ {
      assert |inP| != |inQ| || inP == inQ;
    }
    SameSegments(p.name, inP, q.name, inQ);
  }

  /** The suffix under which a property leads to `n`. */
  lemma NameSegment(p: Property, components: Components, prefix: string, location: string, depth: nat, n: string) returns (suffix: string)
    requires GoodName(p.name) && ExtractNested(p, components, prefix, location, depth).Some?
    requires n == FieldName(prefix, p.name) || n in NestedNames(p, components, prefix, location, depth)
    ensures (suffix == "" || suffix == "[]") && Start(prefix) <= n && Segment(n, Start(prefix)) == p.name + suffix
    ensures '.' in n[|Start(prefix)|..] <==> n in NestedNames(p, components, prefix, location, depth)
    ensures '.' !in n[|Start(prefix)|..] ==> suffix == ""
    ensures '.' in n[|Start(prefix)|..] ==>
              Nested(p.schema, components).Some? && suffix == Nested(p.schema, components).value.1
  {
    hide Segment, ExtractNested, FieldName, Below, GoodName, NestedNames;
    NestedBelow(p, components, prefix, location, depth);
    if n in NestedNames(p, components, prefix, location, depth) {
      suffix := Nested(p.schema, components).value.1;
      BelowSegment(n, prefix, p.name, suffix);
    } else {
      suffix := "";
      TopSegment(prefix, p.name);
      assert p.name + "" == p.name;
    }
  }

  lemma SameSegments(p: string, s: string, q: string, t: string)
    requires (s == "" || s == "[]") && (t == "" || t == "[]") && p + s == q + t && p != q
    ensures (s == "[]" && t == "" && q == p + "[]") || (s == "" && t == "[]" && p == q + "[]")
  {
    assert p == (p + s)[..|p|] && q == (q + t)[..|q|];
    assert s == "" ==> p + s == p;
    assert t == "" ==> q + t == q;
  }

  // ----- distinct names -----

  /** The names of a property and of what is nested in it. */
  function OwnNames(p: Property, components: Components, prefix: string, location: string, depth: nat): seq<string>
    requires ExtractNested(p, components, prefix, location, depth).Some?
  {
    [FieldName(prefix, p.name)] + NestedNames(p, components, prefix, location, depth)
  }

  lemma AllNamesSplit(properties: seq<Property>, required: set<string>, components: Components, prefix: string,
                      location: string, depth: nat)
    requires properties != [] && ExtractAll(properties, required, components, prefix, location, depth).Some?
    ensures var init, last := properties[..|properties| - 1], properties[|properties| - 1];
            && ExtractAll(init, required, components, prefix, location, depth).Some?
            && ExtractNested(last, components, prefix, location, depth).Some?
            && Names(ExtractAll(properties, required, components, prefix, location, depth).value)
               == Names(ExtractAll(init, required, components, prefix, location, depth).value)
                  + OwnNames(last, components, prefix, location, depth)
  {
    hide SemanticId, ExtractNested;
    var init, last := properties[..|properties| - 1], properties[|properties| - 1];
    var before := ExtractAll(init, required, components, prefix, location, depth).value;
    var inner := ExtractNested(last, components, prefix, location, depth).value;
    NamesAppend(before + [FieldOf(last, prefix, location, required)], inner);
    NamesAppend(before, [FieldOf(last, prefix, location, required)]);
  }

  lemma NamesAppend(a: seq<Field>, b: seq<Field>)
    ensures Names(a + b) == Names(a) + Names(b)
  {
  }

  /** A property's own names are distinct when the nested ones are: those lie below it. */
  lemma OwnNamesDistinctIff(p: Property, components: Components, prefix: string, location: string, depth: nat)
    requires GoodName(p.name) && ExtractNested(p, components, prefix, location, depth).Some?
    ensures NoRepeats(OwnNames(p, components, prefix, location, depth)) <==> NoRepeats(NestedNames(p, components, prefix, location, depth))
  {
    hide NestedNames, ExtractNested, GoodName;
    var top := FieldName(prefix, p.name);
    NestedBelow(p, components, prefix, location, depth);
    NoRepeatsAppend([top], NestedNames(p, components, prefix, location, depth));
    forall suffix: string
      ensures !Below(top, top + suffix)
    {
      assert |top + suffix + "."| > |top|;
    }
  }

  /** A bracket pair whose nested fields share a name. */
  predicate Clash(p: Property, q: Property, components: Components, prefix: string, location: string, depth: nat)
    requires ExtractNested(p, components, prefix, location, depth).Some? && ExtractNested(q, components, prefix, location, depth).Some?
  {
    && BracketPair(p, q, components)
    && exists n | n in NestedNames(p, components, prefix, location, depth) :: n in NestedNames(q, components, prefix, location, depth)
  }

  /** No two properties of `properties` clash, and nothing inside them does. */
  predicate NoClashAll(properties: seq<Property>, components: Components, prefix: string, location: string, depth: nat)
    requires forall i | 0 <= i < |properties| :: ExtractNested(properties[i], components, prefix, location, depth).Some?
    decreases depth, 1
  {
    && (forall i | 0 <= i < |properties| :: NoClashInside(properties[i], components, prefix, location, depth))
    && forall i, j | 0 <= i < |properties| && 0 <= j < |properties| ::
         !Clash(properties[i], properties[j], components, prefix, location, depth)
  }

  predicate NoClashInside(p: Property, components: Components, prefix: string, location: string, depth: nat)
    requires ExtractNested(p, components, prefix, location, depth).Some?
    decreases depth, 0
  {
    match Nested(p.schema, components)
    case None => true
    case Some((nested, suffix)) => NoClash(nested, components, FieldName(prefix, p.name) + suffix, location, depth - 1)
  }

  predicate NoClash(schema: Schema, components: Components, prefix: string, location: string, depth: nat)
    requires Extract(schema, components, prefix, location, depth).Some?
    decreases depth, 2
  {
    var resolved := Resolve(schema, components);
    AllNestedIff(resolved.properties, resolved.required, components, prefix, location, depth);
    NoClashAll(resolved.properties, components, prefix, location, depth)
  }

  /** The names of distinct properties are disjoint exactly when the two do not clash. */
  lemma DisjointIff(p: Property, q: Property, components: Components, prefix: string, location: string, depth: nat)
    requires GoodName(p.name) && GoodName(q.name) && p.name != q.name
    requires ExtractNested(p, components, prefix, location, depth).Some? && ExtractNested(q, components, prefix, location, depth).Some?
    ensures (forall n | n in OwnNames(p, components, prefix, location, depth) :: n !in OwnNames(q, components, prefix, location, depth))
       <==> !Clash(p, q, components, prefix, location, depth) && !Clash(q, p, components, prefix, location, depth)
  {
    hide NestedNames, ExtractNested, GoodName, BracketPair, FieldName;
    forall n | n in OwnNames(p, components, prefix, location, depth) && n in OwnNames(q, components, prefix, location, depth)
      ensures Clash(p, q, components, prefix, location, depth) || Clash(q, p, components, prefix, location, depth)
    {
      SharedName(p, q, components, prefix, location, depth, n);
    }
    forall n | n in NestedNames(p, components, prefix, location, depth) && n in NestedNames(q, components, prefix, location, depth)
      ensures n in OwnNames(p, components, prefix, location, depth) && n in OwnNames(q, components, prefix, location, depth)
    {
      hide *;
      OwnHasNested(p, components, prefix, location, depth, n);
      OwnHasNested(q, components, prefix, location, depth, n);
    }
  }

  lemma OwnHasNested(p: Property, components: Components, prefix: string, location: string, depth: nat, n: string)
    requires ExtractNested(p, components, prefix, location, depth).Some?
    ensures n in OwnNames(p, components, prefix, location, depth)
       <==> n == FieldName(prefix, p.name) || n in NestedNames(p, components, prefix, location, depth)
  {
    hide NestedNames, ExtractNested, FieldName;
  }

  /**
   Over non-empty dot-free names, the dotted names of all extracted fields are distinct exactly when no property `q`
   and its sibling `q[]` lead, one through its items and one directly, to fields of one name.
   */
  lemma {:induction false} DistinctNamesIff(schema: Schema, components: Components, prefix: string, location: string, depth: nat)
    requires WellNamed(schema) && AllWellNamed(components) && Extract(schema, components, prefix, location, depth).Some?
    ensures NoRepeats(Names(Extract(schema, components, prefix, location, depth).value))
       <==> NoClash(schema, components, prefix, location, depth)
    decreases depth, 2, 0
  {
    var resolved := Resolve(schema, components);
    assert WellNamedProperties(resolved.properties);
    AllNestedIff(resolved.properties, resolved.required, components, prefix, location, depth);
    DistinctAllIff(resolved.properties, resolved.required, components, prefix, location, depth);
  }

  lemma {:induction false} DistinctNestedIff(p: Property, components: Components, prefix: string, location: string, depth: nat)
    requires GoodName(p.name) && WellNamed(p.schema) && AllWellNamed(components)
    requires ExtractNested(p, components, prefix, location, depth).Some?
    ensures NoRepeats(NestedNames(p, components, prefix, location, depth)) <==> NoClashInside(p, components, prefix, location, depth)
    decreases depth, 0, 0
  {
    if Nested(p.schema, components).Some? {
      var (nested, suffix) := Nested(p.schema, components).value;
      DistinctNamesIff(nested, components, FieldName(prefix, p.name) + suffix, location, depth - 1);
    } else {
      assert NestedNames(p, components, prefix, location, depth) == [];
    }
  }

  lemma {:induction false} DistinctAllIff(properties: seq<Property>, required: set<string>, components: Components,
                                          prefix: string, location: string, depth: nat)
    requires WellNamedProperties(properties) && AllWellNamed(components)
    requires ExtractAll(properties, required, components, prefix, location, depth).Some?
    requires forall i | 0 <= i < |properties| :: ExtractNested(properties[i], components, prefix, location, depth).Some?
    ensures NoRepeats(Names(ExtractAll(properties, required, components, prefix, location, depth).value))
       <==> NoClashAll(properties, components, prefix, location, depth)
    ensures forall n :: n in Names(ExtractAll(properties, required, components, prefix, location, depth).value)
                   <==> exists i | 0 <= i < |properties| :: n in OwnNames(properties[i], components, prefix, location, depth)
    decreases depth, 1, |properties|
  {
    hide WellNamed, GoodName, ExtractNested, OwnNames, NoClashInside, Clash, AllWellNamed, ExtractAll, Names;
    if properties == [] {
      NoNames(required, components, prefix, location, depth);
    } else {
      var init, last := properties[..|properties| - 1], properties[|properties| - 1];
      AllNamesSplit(properties, required, components, prefix, location, depth);
      assert forall i | 0 <= i < |init| :: init[i] == properties[i];
      DistinctAllIff(init, required, components, prefix, location, depth);
      DistinctNestedIff(last, components, prefix, location, depth);
      OwnNamesDistinctIff(last, components, prefix, location, depth);
      var before := Names(ExtractAll(init, required, components, prefix, location, depth).value);
      NoRepeatsAppend(before, OwnNames(last, components, prefix, location, depth));
      forall i | 0 <= i < |init|
        ensures (forall n | n in OwnNames(properties[i], components, prefix, location, depth) :: n !in OwnNames(last, components, prefix, location, depth))
           <==> !Clash(properties[i], last, components, prefix, location, depth) && !Clash(last, properties[i], components, prefix, location, depth)
      {
        DisjointIff(properties[i], last, components, prefix, location, depth);
      }
      NoSelfClash(last, components, prefix, location, depth);
    }
  }

  lemma NoNames(required: set<string>, components: Components, prefix: string, location: string, depth: nat)
    ensures ExtractAll([], required, components, prefix, location, depth).Some?
    ensures Names(ExtractAll([], required, components, prefix, location, depth).value) == []
    ensures NoClashAll([], components, prefix, location, depth)
  {
  }

  lemma NoSelfClash(p: Property, components: Components, prefix: string, location: string, depth: nat)
    requires ExtractNested(p, components, prefix, location, depth).Some?
    ensures !Clash(p, p, components, prefix, location, depth)
  {
    assert |p.name + "[]"| != |p.name|;
  }

  /** No property has a sibling of its own name with brackets. */
  predicate NoBracketSiblings(schema: Schema) {
    && (forall i | 0 <= i < |schema.properties| :: NoBracketSiblings(schema.properties[i].schema))
    && NoSuchSiblings(schema.properties)
    && (schema.items.Some? ==> NoBracketSiblings(schema.items.value))
  }

  predicate NoSuchSiblings(properties: seq<Property>) {
    forall i, j | 0 <= i < |properties| && 0 <= j < |properties| :: properties[j].name != properties[i].name + "[]"
  }

  /** Without such siblings nothing clashes, so that the names are distinct. */
  lemma {:induction false} DistinctNames(schema: Schema, components: Components, prefix: string, location: string, depth: nat)
    requires WellNamed(schema) && AllWellNamed(components)
    requires NoBracketSiblings(schema) && forall name | name in components :: NoBracketSiblings(components[name])
    requires Extract(schema, components, prefix, location, depth).Some?
    ensures NoRepeats(Names(Extract(schema, components, prefix, location, depth).value))
  {
    NothingClashes(schema, components, prefix, location, depth);
    DistinctNamesIff(schema, components, prefix, location, depth);
  }

  lemma {:induction false} NothingClashes(schema: Schema, components: Components, prefix: string, location: string, depth: nat)
    requires NoBracketSiblings(schema) && forall name | name in components :: NoBracketSiblings(components[name])
    requires Extract(schema, components, prefix, location, depth).Some?
    ensures NoClash(schema, components, prefix, location, depth)
    decreases depth
  {
    hide ExtractAll, FieldName;
    var resolved := Resolve(schema, components);
    AllNestedIff(resolved.properties, resolved.required, components, prefix, location, depth);
    assert NoBracketSiblings(resolved);
    forall i | 0 <= i < |resolved.properties|
      ensures NoClashInside(resolved.properties[i], components, prefix, location, depth)
    {
      var p := resolved.properties[i];
      if Nested(p.schema, components).Some? {
        var (nested, suffix) := Nested(p.schema, components).value;
        NothingClashes(nested, components, FieldName(prefix, p.name) + suffix, location, depth - 1);
      }
    }
  }

  // ----- collisions -----

  /** A name that two properties of a schema own is extracted twice. */
  lemma {:induction false} SharedNameRepeats(properties: seq<Property>, required: set<string>, components: Components, prefix: string,
                                             location: string, depth: nat, i: nat, j: nat, n: string)
    requires i < j < |properties| && ExtractAll(properties, required, components, prefix, location, depth).Some?
    requires forall k | 0 <= k < |properties| :: ExtractNested(properties[k], components, prefix, location, depth).Some?
    requires n in OwnNames(properties[i], components, prefix, location, depth) && n in OwnNames(properties[j], components, prefix, location, depth)
    ensures !NoRepeats(Names(ExtractAll(properties, required, components, prefix, location, depth).value))
    decreases |properties|
  {
    hide ExtractAll, ExtractNested, OwnNames, Names;
    var init, last := properties[..|properties| - 1], properties[|properties| - 1];
    AllNamesSplit(properties, required, components, prefix, location, depth);
    var before := Names(ExtractAll(init, required, components, prefix, location, depth).value);
    NoRepeatsAppend(before, OwnNames(last, components, prefix, location, depth));
    assert forall k | 0 <= k < |init| :: init[k] == properties[k];
    if j < |init| {
      SharedNameRepeats(init, required, components, prefix, location, depth, i, j, n);
    } else {
      OwnedIsExtracted(init, required, components, prefix, location, depth, i, n);
    }
  }

  lemma {:induction false} OwnedIsExtracted(properties: seq<Property>, required: set<string>, components: Components, prefix: string,
                                            location: string, depth: nat, i: nat, n: string)
    requires i < |properties| && ExtractAll(properties, required, components, prefix, location, depth).Some?
    requires ExtractNested(properties[i], components, prefix, location, depth).Some?
    requires n in OwnNames(properties[i], components, prefix, location, depth)
    ensures n in Names(ExtractAll(properties, required, components, prefix, location, depth).value)
    decreases |properties|
  {
    hide ExtractAll, ExtractNested, OwnNames, Names;
    AllNamesSplit(properties, required, components, prefix, location, depth);
    if i < |properties| - 1 {
      OwnedIsExtracted(properties[..|properties| - 1], required, components, prefix, location, depth, i, n);
    }
  }

  /** The name that a property gives to `v` when that is a property of what is nested in it. */
  function InnerName(p: Property, components: Components, prefix: string, v: string): string
    requires Nested(p.schema, components).Some?
  {
    FieldName(FieldName(prefix, p.name) + Nested(p.schema, components).value.1, v)
  }

  predicate HasProperty(schema: Schema, components: Components, v: string) {
    exists k | 0 <= k < |Resolve(schema, components).properties| :: Resolve(schema, components).properties[k].name == v
  }

  lemma NestedOwns(p: Property, components: Components, prefix: string, location: string, depth: nat, v: string)
    requires Nested(p.schema, components).Some? && HasProperty(Nested(p.schema, components).value.0, components, v)
    requires ExtractNested(p, components, prefix, location, depth).Some?
    ensures InnerName(p, components, prefix, v) in NestedNames(p, components, prefix, location, depth)
  {
    var (nested, suffix) := Nested(p.schema, components).value;
    var resolved, top := Resolve(nested, components), FieldName(prefix, p.name) + suffix;
    AllNestedIff(resolved.properties, resolved.required, components, top, location, depth - 1);
    var k :| 0 <= k < |resolved.properties| && resolved.properties[k].name == v;
    OwnHasNested(resolved.properties[k], components, top, location, depth - 1, FieldName(top, v));
    OwnedIsExtracted(resolved.properties, resolved.required, components, top, location, depth - 1, k, FieldName(top, v));
  }

  /** `q` is named like what is nested as `v` in `u`: `u.v`, or `u[].v` through items, or `v` alone when `u` is empty. */
  predicate NamedLikeInner(q: Property, u: Property, components: Components, prefix: string, v: string) {
    Nested(u.schema, components).Some? && FieldName(prefix, q.name) == InnerName(u, components, prefix, v)
  }

  /**
   The conditions are needed.  A dotted property name collides with what it spells out, as does any name with an
   inner one when the outer is empty; and so do the nested fields of a bracket pair.
   */
  lemma UncleanNamesCollide(schema: Schema, components: Components, prefix: string, location: string, depth: nat, i: nat, j: nat, v: string)
    requires Extract(schema, components, prefix, location, depth).Some?
    requires i < |Resolve(schema, components).properties| && j < |Resolve(schema, components).properties| && i != j
    requires var u := Resolve(schema, components).properties[i];
             Nested(u.schema, components).Some? && HasProperty(Nested(u.schema, components).value.0, components, v)
    requires var u, q := Resolve(schema, components).properties[i], Resolve(schema, components).properties[j];
             || NamedLikeInner(q, u, components, prefix, v)
             || (BracketPair(u, q, components) && HasProperty(Nested(q.schema, components).value.0, components, v))
    ensures !NoRepeats(Names(Extract(schema, components, prefix, location, depth).value))
  {
    hide ExtractAll, ExtractNested, HasProperty, Names, NestedNames;
    var resolved := Resolve(schema, components);
    var u, q := resolved.properties[i], resolved.properties[j];
    AllNestedIff(resolved.properties, resolved.required, components, prefix, location, depth);
    var n := InnerName(u, components, prefix, v);
    NestedOwns(u, components, prefix, location, depth, v);
    OwnHasNested(u, components, prefix, location, depth, n);
    if BracketPair(u, q, components) && HasProperty(Nested(q.schema, components).value.0, components, v) {
      NestedOwns(q, components, prefix, location, depth, v);
      BracketPairSameInner(u, q, components, prefix, v);
    }
    OwnHasNested(q, components, prefix, location, depth, n);
    if i < j {
      SharedNameRepeats(resolved.properties, resolved.required, components, prefix, location, depth, i, j, n);
    } else {
      SharedNameRepeats(resolved.properties, resolved.required, components, prefix, location, depth, j, i, n);
    }
  }

  lemma BracketPairSameInner(u: Property, q: Property, components: Components, prefix: string, v: string)
    requires BracketPair(u, q, components)
    ensures InnerName(u, components, prefix, v) == InnerName(q, components, prefix, v)
  {
    assert FieldName(prefix, q.name) + "" == FieldName(prefix, u.name) + "[]";
  }

  /** Which names are meant: the spelled-out ones, and those of an empty outer name. */
  lemma NamedLikeInnerIs(q: Property, u: Property, components: Components, prefix: string, v: string)
    requires Nested(u.schema, components).Some? && (prefix != "" || u.name + Nested(u.schema, components).value.1 != "")
    ensures q.name == u.name + Nested(u.schema, components).value.1 + "." + v ==> NamedLikeInner(q, u, components, prefix, v)
  {
    var suffix := Nested(u.schema, components).value.1;
    if prefix != "" {
      assert prefix + "." + (u.name + suffix + "." + v) == (prefix + "." + u.name) + suffix + "." + v;
    }
  }

  lemma EmptyNameLikeInner(q: Property, u: Property, components: Components, v: string)
    requires Nested(u.schema, components).Some? && u.name == Nested(u.schema, components).value.1 == "" && q.name == v
    ensures NamedLikeInner(q, u, components, "", v)
  {
  }
}
