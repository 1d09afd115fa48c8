/** What the endpoints, controls and checks of the attribute catalog say, stated without its helpers. */
module CatalogMeaning {
  import opened Wrappers
  import opened Text
  import opened ApiVocabulary
  import opened AttributeCatalog
  import opened FieldTerms

  // ----- endpoints -----

  /** The field of a request option. */
  predicate IsParameterField(f: Field, p: Parameter) {
    f.name == p.name && f.location == p.location && f.required == p.required && f.shown == p.shown && f.semanticId == SemanticId(p.name)
  }

  /** The field belongs to the schema, if there is one. */
  ghost predicate FieldOfSchema(schema: Option<Schema>, components: Components, f: Field) {
    schema.Some? && LedTo(schema.value, components, "", "body", f)
  }

  /** An endpoint lists its parameters in order, then what belongs to its body; and what belongs to its response. */
  ghost predicate Lists(e: Endpoint, op: Operation, components: Components) {
    var n := |op.parameters|;
    && |e.request| >= n && (forall i | 0 <= i < n && i < |e.request| :: IsParameterField(e.request[i], op.parameters[i]))
    && (forall f :: (exists i | n <= i < |e.request| :: e.request[i] == f) <==> FieldOfSchema(op.body, components, f))
    && forall f :: f in e.response <==> FieldOfSchema(op.response, components, f)
  }

  lemma SchemaFieldsExact(schema: Option<Schema>, components: Components, depth: nat)
    ensures SchemaFields(schema, components, depth).None? <==> schema.Some? && NestsDeeper(schema.value, components, depth)
    ensures SchemaFields(schema, components, depth).Some? ==>
              forall f :: f in SchemaFields(schema, components, depth).value <==> FieldOfSchema(schema, components, f)
  {
    hide Extract, NestsDeeper, LedTo;
    if schema.Some? {
      ExtractIff(schema.value, components, "", "body", depth);
      if SchemaFields(schema, components, depth).Some? {
        forall f
          ensures f in SchemaFields(schema, components, depth).value <==> FieldOfSchema(schema, components, f)
        {
          FieldsExact(schema.value, components, "", "body", depth, f);
        }
      }
    }
  }

  /** An operation has an endpoint unless a schema nests deeper than the stack; the endpoint lists all its fields. */
  lemma EndpointExact(op: Operation, components: Components, depth: nat)
    ensures EndpointOf(op, components, depth).None?
       <==> || (op.body.Some? && NestsDeeper(op.body.value, components, depth))
            || (op.response.Some? && NestsDeeper(op.response.value, components, depth))
    ensures EndpointOf(op, components, depth).Some? ==> Lists(EndpointOf(op, components, depth).value, op, components)
  {
    SchemaFieldsExact(op.body, components, depth);
    SchemaFieldsExact(op.response, components, depth);
    hide SchemaFields, FieldOfSchema, SemanticId, NestsDeeper;
    if EndpointOf(op, components, depth).Some? {
      var e, n, body := EndpointOf(op, components, depth).value, |op.parameters|, SchemaFields(op.body, components, depth).value;
      assert e.request == ParameterFields(op.parameters) + body;
      forall f
        ensures (exists i | n <= i < |e.request| :: e.request[i] == f) <==> f in body
      {
        if i :| n <= i < |e.request| && e.request[i] == f {
          assert body[i - n] == f;
        }
        if i :| 0 <= i < |body| && body[i] == f {
          assert e.request[n + i] == f;
        }
      }
    }
  }

  // ----- controls -----

  predicate IsControl(c: Control, p: Parameter) {
    && c.semanticId == SemanticId(p.name) == "lotus." + c.name
    && c.location == p.location && c.required == p.required && c.shown == p.shown
  }

  /** A control for each parameter of each operation, in order. */
  function AllParameters(operations: seq<Operation>): seq<Parameter> {
    if operations == [] then [] else AllParameters(operations[..|operations| - 1]) + operations[|operations| - 1].parameters
  }

  lemma {:induction false} ControlsExact(operations: seq<Operation>)
    ensures |AllControls(operations)| == |AllParameters(operations)|
    ensures forall i | 0 <= i < |AllParameters(operations)| :: IsControl(AllControls(operations)[i], AllParameters(operations)[i])
  {
    hide CanonicalTerm;
    if operations == [] {
      assert AllControls(operations) == [];
    } else {
      var init, last := operations[..|operations| - 1], operations[|operations| - 1];
      ControlsExact(init);
      var n := |AllParameters(init)|;
      forall i | 0 <= i < |AllParameters(operations)|
        ensures IsControl(AllControls(operations)[i], AllParameters(operations)[i])
      {
        if i >= n {
          assert AllControls(operations)[i] == Controls(last.parameters)[i - n];
        }
      }
    }
  }

  // ----- terms -----

  /** A lower-case letter, then lower-case letters, digits and underscores. */
  lemma SnakeCaseExact(s: string)
    ensures IsSnakeCase(s) <==> s != "" && LowerLetter(s[0]) && forall i | 0 <= i < |s| :: WordChar(s[i]) || s[i] == '_'
  {
    hide LowerLetter, WordChar;
    forall c: char
      ensures LowerLetter(c) <==> 'a' <= c <= 'z'
      ensures WordChar(c) <==> IsLowerOrDigit(c)
    {
      LetterCode(c);
    }
  }

  lemma LegacyExact(term: string)
    ensures term in LEGACY_TERMS <==> term == "cif_id" || term == "booking_center"
  {
  }

  /** The term of words that start with a letter is snake case. */
  lemma {:induction false} SpelledTermIsSnake(first: string, parts: seq<Part>)
    requires IsWord(first) && LowerLetter(first[0]) && AllValid(parts)
    ensures IsSnakeCase(Snake(first, parts))
  {
    SnakeCaseExact(Snake(first, parts));
    SnakeChars(first, parts);
  }

  lemma {:induction false} SnakeChars(first: string, parts: seq<Part>)
    requires IsWord(first) && AllValid(parts)
    ensures var s := Snake(first, parts); s != "" && s[0] == first[0] && forall i | 0 <= i < |s| :: WordChar(s[i]) || s[i] == '_'
  {
    hide WordChar, LowerLetter;
    if parts == [] {
      assert Snake(first, parts) == first;
    } else {
      var init, last := parts[..|parts| - 1], parts[|parts| - 1];
      assert last.Valid();
      SnakeChars(first, init);
    }
  }
}
