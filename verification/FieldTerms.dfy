/** What scripts/api_vocabulary_inventory.py makes of a property name, and which fields it extracts, stated without its helpers. */
module FieldTerms {
  import opened Wrappers
  import opened Text
  import opened ApiVocabulary

  // ----- names as words -----

  predicate LowerLetter(c: char) {
    c in "abcdefghijklmnopqrstuvwxyz"
  }

  predicate WordChar(c: char) {
    c in "abcdefghijklmnopqrstuvwxyz0123456789"
  }

  predicate IsWord(word: string) {
    word != "" && forall i | 0 <= i < |word| :: WordChar(word[i])
  }

  /** The word with its first letter as a capital. */
  function Capitalized(word: string): string
    requires word != "" && LowerLetter(word[0])
  {
    LetterCode(word[0]);
    [(word[0] as int - 32) as char] + word[1..]
  }

  lemma LetterCode(c: char)
    ensures LowerLetter(c) <==> 'a' <= c <= 'z'
    ensures WordChar(c) <==> 'a' <= c <= 'z' || '0' <= c <= '9'
  {
    var letters, chars := "abcdefghijklmnopqrstuvwxyz", "abcdefghijklmnopqrstuvwxyz0123456789";
    assert forall i | 0 <= i < 26 :: letters[i] as int == 'a' as int + i && chars[i] == letters[i];
    assert forall i | 26 <= i < 36 :: chars[i] as int == '0' as int + i - 26;
    if 'a' <= c <= 'z' {
      assert letters[c as int - 'a' as int] == c && chars[c as int - 'a' as int] == c;
    } else if '0' <= c <= '9' {
      assert chars[c as int - '0' as int + 26] == c;
    }
  }

  /** How a word is joined to the one before: by a separator, or by its capital. */
  datatype Joint = Separator(c: char) | Hump

  predicate Joins(joint: Joint, word: string) {
    && IsWord(word)
    && match joint
       case Separator(c) => c in "-_ "
       case Hump => LowerLetter(word[0])
  }

  datatype Part = Part(joint: Joint, word: string) {
    predicate Valid() {
      Joins(joint, word)
    }

    function Print(): string
      requires Valid()
    {
      match joint
      case Separator(c) => [c] + word
      case Hump => Capitalized(word)
    }
  }

  /** A single capital, as the B of `planB`. */
  predicate OneCapital(part: Part) {
    part.joint.Hump? && |part.word| == 1
  }

  /** How often a single capital is followed by another one, as in `aBC`. */
  function Acronyms(parts: seq<Part>): nat {
    if |parts| < 2 then 0
    else
      Acronyms(parts[..|parts| - 1])
      + if OneCapital(parts[|parts| - 2]) && parts[|parts| - 1].joint.Hump? then 1 else 0
  }

  predicate AllValid(parts: seq<Part>) {
    forall i | 0 <= i < |parts| :: parts[i].Valid()
  }

  /** A spelling such as `clientId`, `client-id` or `client_id`, from the words client and id. */
  function Spell(first: string, parts: seq<Part>): string
    requires AllValid(parts)
  {
    if parts == [] then first else Spell(first, parts[..|parts| - 1]) + parts[|parts| - 1].Print()
  }

  /** The words in snake case. */
  function Snake(first: string, parts: seq<Part>): string {
    if parts == [] then first else Snake(first, parts[..|parts| - 1]) + "_" + parts[|parts| - 1].word
  }

  /** Separators around a name. */
  predicate IsPadding(s: string) {
    forall i | 0 <= i < |s| :: s[i] in "-_ "
  }

  // ----- from a spelling to its words -----

  /** What goes between two characters. */
  function Gap(a: char, b: char): string {
    if IsLowerOrDigit(a) && IsUpper(b) then "_" else ""
  }

  lemma SplitStep(s: string)
    requires |s| >= 2
    ensures SplitHumps(s) == [s[0]] + Gap(s[0], s[1]) + SplitHumps(s[1..])
  {
    hide IsLowerOrDigit, IsUpper;
  }

  lemma SplitOne(s: string)
    requires |s| == 1
    ensures SplitHumps(s) == s
  {
  }

  lemma {:induction false} HumpsAppend(a: string, b: string)
    requires a != "" && b != ""
    ensures SplitHumps(a + b) == SplitHumps(a) + Gap(a[|a| - 1], b[0]) + SplitHumps(b)
  {
    hide SplitHumps, Gap;
    var s := a + b;
    SplitStep(s);
    if |a| == 1 {
      SplitOne(a);
      assert s[0] == a[0] && s[1] == b[0] && s[1..] == b && a == [a[0]];
    } else {
      assert s[0] == a[0] && s[1] == a[1] && s[1..] == a[1..] + b;
      SplitStep(a);
      HumpsAppend(a[1..], b);
      Regroup([a[0]], Gap(a[0], a[1]), SplitHumps(a[1..]), Gap(a[|a| - 1], b[0]), SplitHumps(b));
    }
  }

  lemma Regroup(x: string, y: string, z: string, v: string, w: string)
    ensures x + y + (z + v + w) == (x + y + z) + v + w
  {
  }

  /** Without a capital after the first character nothing is split. */
  lemma {:induction false} NoHumps(s: string)
    requires forall i | 0 < i < |s| :: !IsUpper(s[i])
    ensures SplitHumps(s) == s
  {
    if |s| >= 2 {
      NoHumps(s[1..]);
      assert s == [s[0]] + s[1..];
    }
  }

  /** The transformation before underscores are stripped, in lower case. */
  function Raw(s: string): string {
    Lower(Underscored(SplitHumps(s)))
  }

  lemma MapsAppend(a: string, b: string)
    ensures Lower(a + b) == Lower(a) + Lower(b) && Underscored(a + b) == Underscored(a) + Underscored(b)
  {
  }

  lemma RawAppend(a: string, b: string)
    requires a != "" && b != ""
    ensures Raw(a + b) == Raw(a) + (if IsLowerOrDigit(a[|a| - 1]) && IsUpper(b[0]) then "_" else "") + Raw(b)
  {
    hide SplitHumps, Lower, Underscored;
    HumpsAppend(a, b);
    var glue := Gap(a[|a| - 1], b[0]);
    MapsAppend(SplitHumps(a) + glue, SplitHumps(b));
    MapsAppend(SplitHumps(a), glue);
    MapsAppend(Underscored(SplitHumps(a)) + Underscored(glue), Underscored(SplitHumps(b)));
    MapsAppend(Underscored(SplitHumps(a)), Underscored(glue));
    Glue();
  }

  lemma Glue()
    ensures Lower(Underscored("_")) == "_" && Lower(Underscored("")) == ""
  {
  }

  lemma WordCodes(word: string)
    requires IsWord(word)
    ensures forall i | 0 <= i < |word| :: 'a' <= word[i] <= 'z' || '0' <= word[i] <= '9'
  {
    hide WordChar;
    forall i | 0 <= i < |word|
      ensures 'a' <= word[i] <= 'z' || '0' <= word[i] <= '9'
    {
      LetterCode(word[i]);
    }
  }

  lemma RawWord(word: string)
    requires IsWord(word)
    ensures word != "" && Raw(word) == word && IsLowerOrDigit(word[|word| - 1])
    ensures !IsUpper(word[0]) && '_' !in word && '.' !in word && '[' !in word
  {
    WordCodes(word);
    hide WordChar;
    NoHumps(word);
  }

  /** Characters that neither become underscores nor change their case. */
  lemma PlainRaw(word: string)
    requires forall i | 0 <= i < |word| :: 'a' <= word[i] <= 'z' || '0' <= word[i] <= '9'
    ensures Underscored(word) == word && Lower(word) == word
  {
  }

  lemma RawSeparated(c: char, word: string)
    requires IsWord(word) && c in "-_ "
    ensures Raw([c] + word) == "_" + word
  {
    assert c == '-' || c == '_' || c == ' ';
    WordCodes(word);
    PlainRaw(word);
    assert Underscored([c]) == "_" && Lower("_") == "_";
    hide IsWord, WordChar;
    NoHumps([c] + word);
    hide SplitHumps, Underscored, Lower;
    MapsAppend([c], word);
    MapsAppend("_", word);
  }

  lemma RawCapitalized(word: string)
    requires IsWord(word) && LowerLetter(word[0])
    ensures Raw(Capitalized(word)) == word && IsUpper(Capitalized(word)[0])
  {
    WordCodes(word);
    LetterCode(word[0]);
    hide IsWord, WordChar, LowerLetter;
    var s := Capitalized(word);
    NoHumps(s);
    assert Underscored(s) == s;
    assert Lower(s) == word;
  }

  lemma RawPart(part: Part)
    requires part.Valid()
    ensures part.Print() != "" && (IsLowerOrDigit(part.Print()[|part.Print()| - 1]) <==> !OneCapital(part))
    ensures '.' !in part.Print() && '[' !in part.Print()
    ensures Raw(part.Print()) == (if part.joint.Hump? then part.word else "_" + part.word)
    ensures IsUpper(part.Print()[0]) <==> part.joint.Hump?
    ensures part.word != "" && part.word[|part.word| - 1] != '_'
  {
    hide WordChar, LowerLetter, Raw;
    var word := part.word;
    WordCodes(word);
    match part.joint {
      case Separator(c) =>
        RawSeparated(c, word);
      case Hump =>
        LetterCode(word[0]);
        RawCapitalized(word);
    }
  }

  /** What is known of a spelling and of what becomes of it. */
  predicate Spelled(first: string, parts: seq<Part>, s: string)
    requires first != ""
  {
    && s != "" && s[0] == first[0] && '.' !in s && '[' !in s
    && (IsLowerOrDigit(s[|s| - 1]) <==> parts == [] || !OneCapital(parts[|parts| - 1]))
    && Raw(s) != "" && Raw(s)[0] == first[0] != '_' && Raw(s)[|Raw(s)| - 1] != '_'
    && |Raw(s)| + Acronyms(parts) == |Snake(first, parts)|
    && (Acronyms(parts) == 0 ==> Raw(s) == Snake(first, parts))
  }

  /** A capital right after a single capital is not split off; otherwise the words come out in snake case. */
  lemma {:induction false} RawSpelling(first: string, parts: seq<Part>)
    requires IsWord(first) && AllValid(parts)
    ensures first != "" && Spelled(first, parts, Spell(first, parts))
  {
    hide Raw, Joins, IsWord, IsLowerOrDigit, IsUpper;
    RawWord(first);
    if parts == [] {
      assert Spell(first, parts) == first;
    } else {
      var init, last := parts[..|parts| - 1], parts[|parts| - 1];
      assert AllValid(init) && last.Valid();
      RawSpelling(first, init);
      hide AllValid, Spelled;
      SpelledMore(first, parts, Spell(first, init));
    }
  }

  lemma SpelledMore(first: string, parts: seq<Part>, s: string)
    requires first != "" && parts != [] && parts[|parts| - 1].Valid() && Spelled(first, parts[..|parts| - 1], s)
    ensures Spelled(first, parts, s + parts[|parts| - 1].Print())
  {
    hide Raw, Joins, IsWord, IsLowerOrDigit, IsUpper, Snake, Acronyms, OneCapital;
    var init, last := parts[..|parts| - 1], parts[|parts| - 1];
    OnePartMore(first, parts);
    RawPart(last);
    RawAppend(s, last.Print());
    var printed, word := last.Print(), last.word;
    assert (s + printed)[|s + printed| - 1] == printed[|printed| - 1];
    var gap := if init != [] && OneCapital(init[|init| - 1]) && last.joint.Hump? then "" else "_";
    assert Raw(s + printed) == Raw(s) + gap + word;
    assert Snake(first, parts) == Snake(first, init) + "_" + word;
  }

  lemma OnePartMore(first: string, parts: seq<Part>)
    requires parts != []
    ensures var init, last := parts[..|parts| - 1], parts[|parts| - 1];
            && Snake(first, parts) == Snake(first, init) + "_" + last.word
            && Acronyms(parts) == Acronyms(init) + if init != [] && OneCapital(init[|init| - 1]) && last.joint.Hump? then 1 else 0
  {
  }

  lemma PaddingBlank(s: string)
    requires IsPadding(s)
    ensures Raw(s) == seq(|s|, _ => '_') && '.' !in s && '[' !in s
    ensures forall i | 0 <= i < |s| :: !IsLowerOrDigit(s[i]) && !IsUpper(s[i])
  {
    assert forall i | 0 <= i < |s| :: s[i] == '-' || s[i] == '_' || s[i] == ' ';
    NoHumps(s);
  }

  lemma {:induction false} StripLeading(n: nat, s: string)
    ensures StripUnderscores(seq(n, _ => '_') + s) == StripUnderscores(s)
  {
    if n == 0 {
      assert seq(n, _ => '_') + s == s;
    } else {
      assert (seq(n, _ => '_') + s)[1..] == seq(n - 1, _ => '_') + s;
      StripLeading(n - 1, s);
    }
  }

  lemma {:induction false} StripTrailing(s: string, n: nat)
    requires s != "" && s[0] != '_' && s[|s| - 1] != '_'
    ensures StripUnderscores(s + seq(n, _ => '_')) == s
  {
    var all := s + seq(n, _ => '_');
    if n == 0 {
      assert all == s;
    } else {
      assert all[..|all| - 1] == s + seq(n - 1, _ => '_');
      StripTrailing(s, n - 1);
    }
  }

  lemma {:induction false} StripLowered(s: string)
    ensures Lower(StripUnderscores(s)) == StripUnderscores(Lower(s))
    decreases |s|
  {
    if s == "" {
    } else if s[0] == '_' {
      assert Lower(s)[1..] == Lower(s[1..]);
      StripLowered(s[1..]);
    } else if s[|s| - 1] == '_' {
      assert Lower(s)[..|s| - 1] == Lower(s[..|s| - 1]);
      StripLowered(s[..|s| - 1]);
    }
  }

  /** A name that is padded with separators, in lower case with underscores. */
  lemma RawPadded(before: string, s: string, after: string)
    requires IsPadding(before) && IsPadding(after) && s != ""
    ensures Raw(before + s + after) == seq(|before|, _ => '_') + Raw(s) + seq(|after|, _ => '_')
  {
    PaddingBlank(before);
    PaddingBlank(after);
    hide Raw, IsPadding;
    if before == "" {
      assert before + s == s && seq(|before|, _ => '_') + Raw(s) == Raw(s);
    } else {
      RawAppend(before, s);
    }
    if after == "" {
      assert before + s + after == before + s;
      assert seq(|before|, _ => '_') + Raw(s) + seq(|after|, _ => '_') == seq(|before|, _ => '_') + Raw(s);
    } else {
      RawAppend(before + s, after);
    }
  }

  lemma {:induction false} SnakeShape(first: string, parts: seq<Part>)
    requires IsWord(first) && AllValid(parts)
    ensures var s := Snake(first, parts); s != "" && s[0] == first[0] && s[0] != '_' && s[|s| - 1] != '_'
  {
    RawWord(first);
    if parts == [] {
      assert Snake(first, parts) == first;
    } else {
      var init, last := parts[..|parts| - 1], parts[|parts| - 1];
      assert AllValid(init) && last.Valid();
      SnakeShape(first, init);
      RawWord(last.word);
    }
  }

  /** Underscores around a text that neither starts nor ends with one are stripped. */
  lemma StripBoth(m: nat, s: string, n: nat)
    requires s != "" && s[0] != '_' && s[|s| - 1] != '_'
    ensures StripUnderscores(seq(m, _ => '_') + s + seq(n, _ => '_')) == s
  {
    assert seq(m, _ => '_') + s + seq(n, _ => '_') == seq(m, _ => '_') + (s + seq(n, _ => '_'));
    hide StripUnderscores;
    StripLeading(m, s + seq(n, _ => '_'));
    StripTrailing(s, n);
  }

  lemma StripsRaw(s: string)
    ensures ToSnakeCase(s) == StripUnderscores(Raw(s))
  {
    StripLowered(Underscored(SplitHumps(s)));
  }

  /** A spelling of words becomes the words in snake case, unless a single capital is followed by another capital. */
  lemma SnakeOfSpelling(before: string, first: string, parts: seq<Part>, after: string)
    requires IsWord(first) && AllValid(parts) && IsPadding(before) && IsPadding(after)
    ensures ToSnakeCase(before + Spell(first, parts) + after) == Snake(first, parts) <==> Acronyms(parts) == 0
  {
    hide IsWord, AllValid, Spell, Snake, IsPadding, Raw, StripUnderscores, ToSnakeCase;
    var s := Spell(first, parts);
    RawSpelling(first, parts);
    RawPadded(before, s, after);
    StripsRaw(before + s + after);
    StripBoth(|before|, Raw(s), |after|);
  }

  lemma {:induction false} BracketsLeft(s: string, n: nat)
    requires '[' !in s
    ensures WithoutBrackets(s + Brackets(n)) == s
    decreases |s|, n
  {
    if s == "" {
      assert s + Brackets(n) == Brackets(n);
      if n > 0 {
        assert Brackets(n)[2..] == Brackets(n - 1) && Brackets(n)[..2] == "[]";
        BracketsLeft(s, n - 1);
        assert s + Brackets(n - 1) == Brackets(n - 1);
      }
    } else {
      assert s[0] in s && (s + Brackets(n))[0] == s[0] && (s + Brackets(n))[1..] == s[1..] + Brackets(n);
      BracketsLeft(s[1..], n);
    }
  }

  /** The marks of nested arrays behind a name. */
  function Brackets(n: nat): string {
    if n == 0 then "" else "[]" + Brackets(n - 1)
  }

  lemma {:induction false} NoDotInBrackets(n: nat)
    ensures '.' !in Brackets(n)
  {
    if n > 0 {
      NoDotInBrackets(n - 1);
    }
  }

  lemma NoDot(s: string)
    requires '.' !in s
    ensures LastPart(s) == s
  {
    IndexOfAbsent(s, '.');
  }

  /** The preferred term for a name in snake case: two legacy names are replaced. */
  function Preferred(snake: string): string {
    if snake == "cif_id" then "client_id" else if snake == "booking_center" then "booking_center_code" else snake
  }

  /**
   A field is known by the words of its last property, in snake case, legacy names replaced: whatever stands before the
   last dot, around the words and behind them, and however the words are spelled.
   */
  lemma TermOfSpelling(prefix: string, before: string, first: string, parts: seq<Part>, after: string, n: nat)
    requires IsWord(first) && AllValid(parts) && IsPadding(before) && IsPadding(after) && Acronyms(parts) == 0
    ensures var name := before + Spell(first, parts) + after + Brackets(n);
            && SemanticId(name) == "lotus." + Preferred(Snake(first, parts))
            && SemanticId(prefix + "." + name) == "lotus." + Preferred(Snake(first, parts))
  {
    hide ToSnakeCase, IsPadding, IsWord, AllValid, WithoutBrackets, LastPart;
    var core := before + Spell(first, parts) + after;
    SnakeOfSpelling(before, first, parts, after);
    RawSpelling(first, parts);
    PaddingBlank(before);
    PaddingBlank(after);
    BracketsLeft(core, n);
    NoDotInBrackets(n);
    NoDot(core + Brackets(n));
    DottedTerm(prefix, core + Brackets(n));
  }

  // ----- which fields are extracted -----

  /** The schema that is meant: the referenced component, which is empty when it is missing, or the schema itself. */
  predicate Meant(schema: Schema, components: Components, meant: Schema) {
    && (schema.ref == None ==> meant == schema)
    && (forall name | name in components && schema.ref == Some(name) :: meant == components[name])
    && (schema.ref.Some? && schema.ref.value !in components ==> meant.properties == [] && meant.required == {} && meant.kind == "")
  }

  /** What lies in a property: its own fields, or those of its items. */
  predicate LiesIn(p: Schema, components: Components, inner: Schema, mark: string) {
    || ((p.kind == "object" || p.ref.Some?) && inner == p && mark == "")
    || (p.ref.None? && p.kind == "array" && p.items == Some(inner) && mark == "[]")
  }

  function Dotted(prefix: string, name: string): string {
    (if prefix == "" then "" else prefix + ".") + name
  }

  /** The i-th property of the schema, references followed, and whether it is required. */
  ghost predicate Lists(schema: Schema, components: Components, i: nat, p: Property, required: bool) {
    exists meant: Schema ::
      && Meant(schema, components, meant)
      && i < |meant.properties| && p == meant.properties[i] && (required <==> p.name in meant.required)
  }

  predicate IsField(f: Field, p: Property, prefix: string, location: string, required: bool) {
    && f.name == Dotted(prefix, p.name) && f.location == location && f.shown == p.schema.shown
    && f.required == required && f.semanticId == SemanticId(p.name)
  }

  /**
   The field that a path of property numbers leads to: its name joins those of the properties on the path; it is
   required when the schema that lists it, references followed, requires it.
   */
  ghost predicate LeadsTo(schema: Schema, components: Components, prefix: string, location: string, path: seq<nat>, f: Field)
    decreases |path|
  {
    if path == [] then false
    else if |path| == 1 then
      exists p, required :: Lists(schema, components, path[0], p, required) && IsField(f, p, prefix, location, required)
    else
      exists p, required, inner, mark ::
        && Lists(schema, components, path[0], p, required) && LiesIn(p.schema, components, inner, mark)
        && LeadsTo(inner, components, Dotted(prefix, p.name) + mark, location, path[1..], f)
  }

  /** Some path leads to the field. */
  ghost predicate LedTo(schema: Schema, components: Components, prefix: string, location: string, f: Field) {
    exists path: seq<nat> :: LeadsTo(schema, components, prefix, location, path, f)
  }

  lemma {:induction false} AllFields(properties: seq<Property>, required: set<string>, components: Components, prefix: string,
                                     location: string, depth: nat, f: Field)
    requires ExtractAll(properties, required, components, prefix, location, depth).Some?
    requires forall k | 0 <= k < |properties| :: ExtractNested(properties[k], components, prefix, location, depth).Some?
    ensures f in ExtractAll(properties, required, components, prefix, location, depth).value
       <==> exists k | 0 <= k < |properties| ::
              || f == FieldOf(properties[k], prefix, location, required)
              || f in ExtractNested(properties[k], components, prefix, location, depth).value
    decreases |properties|
  {
    hide ExtractNested, FieldOf;
    if properties == [] {
      assert ExtractAll(properties, required, components, prefix, location, depth).value == [];
    } else {
      var init, last := properties[..|properties| - 1], properties[|properties| - 1];
      assert forall k | 0 <= k < |init| :: init[k] == properties[k];
      AllFields(init, required, components, prefix, location, depth, f);
      var before := ExtractAll(init, required, components, prefix, location, depth).value;
      var inner := ExtractNested(last, components, prefix, location, depth).value;
      assert ExtractAll(properties, required, components, prefix, location, depth).value
          == before + [FieldOf(last, prefix, location, required)] + inner;
    }
  }

  lemma ListsExact(schema: Schema, components: Components, i: nat, p: Property, required: bool)
    ensures Lists(schema, components, i, p, required)
       <==> && i < |Resolve(schema, components).properties| && p == Resolve(schema, components).properties[i]
            && (required <==> p.name in Resolve(schema, components).required)
  {
    assert Meant(schema, components, Resolve(schema, components));
  }

  lemma LiesInExact(p: Schema, components: Components, inner: Schema, mark: string)
    ensures LiesIn(p, components, inner, mark) <==> Nested(p, components) == Some((inner, mark))
  {
  }

  lemma IsFieldExact(f: Field, p: Property, prefix: string, location: string, required: set<string>)
    ensures IsField(f, p, prefix, location, p.name in required) <==> f == FieldOf(p, prefix, location, required)
    ensures Dotted(prefix, p.name) == FieldName(prefix, p.name)
  {
    assert prefix == "" ==> "" + p.name == p.name;
    hide SemanticId;
  }

  /** The extracted fields are exactly those that paths lead to. */
  lemma FieldsExact(schema: Schema, components: Components, prefix: string, location: string, depth: nat, f: Field)
    requires Extract(schema, components, prefix, location, depth).Some?
    ensures f in Extract(schema, components, prefix, location, depth).value <==> LedTo(schema, components, prefix, location, f)
  {
    hide Extract, LeadsTo;
    if f in Extract(schema, components, prefix, location, depth).value {
      var path := ExtractedHasPath(schema, components, prefix, location, depth, f);
    }
    if path :| LeadsTo(schema, components, prefix, location, path, f) {
      PathIsExtracted(schema, components, prefix, location, depth, path, f);
    }
  }

  lemma PathOne(schema: Schema, components: Components, prefix: string, location: string, k: nat, p: Property, required: bool, f: Field)
    requires Lists(schema, components, k, p, required) && IsField(f, p, prefix, location, required)
    ensures LeadsTo(schema, components, prefix, location, [k], f)
  {
    hide Lists, IsField;
  }

  lemma PathNotEmpty(schema: Schema, components: Components, prefix: string, location: string, path: seq<nat>, f: Field)
    requires LeadsTo(schema, components, prefix, location, path, f)
    ensures path != []
  {
  }

  lemma PathMore(schema: Schema, components: Components, prefix: string, location: string, k: nat, p: Property, required: bool,
                 inner: Schema, mark: string, rest: seq<nat>, f: Field)
    requires Lists(schema, components, k, p, required) && LiesIn(p.schema, components, inner, mark)
    requires LeadsTo(inner, components, Dotted(prefix, p.name) + mark, location, rest, f)
    ensures LeadsTo(schema, components, prefix, location, [k] + rest, f)
  {
    PathNotEmpty(inner, components, Dotted(prefix, p.name) + mark, location, rest, f);
    hide Lists, IsField, LiesIn, Dotted;
    var path := [k] + rest;
    assert |path| > 1 && path[0] == k && path[1..] == rest;
    assert Lists(schema, components, path[0], p, required) && LiesIn(p.schema, components, inner, mark)
        && LeadsTo(inner, components, Dotted(prefix, p.name) + mark, location, path[1..], f);
  }

  /** Where an extracted field comes from: a property of the schema, or what is nested in it. */
  predicate ComesFrom(properties: seq<Property>, required: set<string>, components: Components, prefix: string, location: string,
                      depth: nat, f: Field, k: nat)
    requires k < |properties| && ExtractNested(properties[k], components, prefix, location, depth).Some?
  {
    || f == FieldOf(properties[k], prefix, location, required)
    || f in ExtractNested(properties[k], components, prefix, location, depth).value
  }

  lemma ExtractedFrom(schema: Schema, components: Components, prefix: string, location: string, depth: nat, f: Field)
    requires Extract(schema, components, prefix, location, depth).Some?
    ensures var resolved := Resolve(schema, components);
            && (forall k | 0 <= k < |resolved.properties| :: ExtractNested(resolved.properties[k], components, prefix, location, depth).Some?)
            && (f in Extract(schema, components, prefix, location, depth).value
                <==> exists k | 0 <= k < |resolved.properties| ::
                       ComesFrom(resolved.properties, resolved.required, components, prefix, location, depth, f, k))
  {
    var resolved := Resolve(schema, components);
    AllNestedIff(resolved.properties, resolved.required, components, prefix, location, depth);
    hide ExtractAll, ExtractNested, FieldOf, Resolve;
    assert forall k | 0 <= k < |resolved.properties| ::
        ComesFrom(resolved.properties, resolved.required, components, prefix, location, depth, f, k)
        <==> || f == FieldOf(resolved.properties[k], prefix, location, resolved.required)
             || f in ExtractNested(resolved.properties[k], components, prefix, location, depth).value;
    AllFields(resolved.properties, resolved.required, components, prefix, location, depth, f);
  }

  lemma NestedExtracts(p: Property, components: Components, prefix: string, location: string, depth: nat, inner: Schema, mark: string)
    requires ExtractNested(p, components, prefix, location, depth).Some? && Nested(p.schema, components) == Some((inner, mark))
    ensures depth > 0
    ensures ExtractNested(p, components, prefix, location, depth)
         == Extract(inner, components, FieldName(prefix, p.name) + mark, location, depth - 1)
  {
    hide Extract, FieldName;
  }

  lemma NothingNested(p: Property, components: Components, prefix: string, location: string, depth: nat)
    requires Nested(p.schema, components).None?
    ensures ExtractNested(p, components, prefix, location, depth) == Some([])
  {
  }

  lemma {:induction false} ExtractedHasPath(schema: Schema, components: Components, prefix: string, location: string, depth: nat,
                                            f: Field) returns (path: seq<nat>)
    requires Extract(schema, components, prefix, location, depth).Some?
    requires f in Extract(schema, components, prefix, location, depth).value
    ensures LeadsTo(schema, components, prefix, location, path, f)
    decreases depth
  {
    hide *;
    var resolved := Resolve(schema, components);
    ExtractedFrom(schema, components, prefix, location, depth, f);
    var k :| 0 <= k < |resolved.properties|
             && ComesFrom(resolved.properties, resolved.required, components, prefix, location, depth, f, k);
    var p := resolved.properties[k];
    ListsExact(schema, components, k, p, p.name in resolved.required);
    IsFieldExact(f, p, prefix, location, resolved.required);
    ComesFromIs(resolved.properties, resolved.required, components, prefix, location, depth, f, k);
    if f == FieldOf(p, prefix, location, resolved.required) {
      PathOne(schema, components, prefix, location, k, p, p.name in resolved.required, f);
      path := [k];
    } else {
      if Nested(p.schema, components).None? {
        NothingNested(p, components, prefix, location, depth);
      }
      var (inner, mark) := Nested(p.schema, components).value;
      NestedExtracts(p, components, prefix, location, depth, inner, mark);
      LiesInExact(p.schema, components, inner, mark);
      var rest := ExtractedHasPath(inner, components, FieldName(prefix, p.name) + mark, location, depth - 1, f);
      PathMore(schema, components, prefix, location, k, p, p.name in resolved.required, inner, mark, rest, f);
      path := [k] + rest;
    }
  }

  lemma ComesFromIs(properties: seq<Property>, required: set<string>, components: Components, prefix: string, location: string,
                    depth: nat, f: Field, k: nat)
    requires k < |properties| && ExtractNested(properties[k], components, prefix, location, depth).Some?
    ensures ComesFrom(properties, required, components, prefix, location, depth, f, k)
       <==> || f == FieldOf(properties[k], prefix, location, required)
            || f in ExtractNested(properties[k], components, prefix, location, depth).value
  {
  }

  /** The first step of a path. */
  lemma PathStarts(schema: Schema, components: Components, prefix: string, location: string, path: seq<nat>, f: Field)
    returns (p: Property, required: bool, inner: Schema, mark: string)
    requires LeadsTo(schema, components, prefix, location, path, f)
    ensures path != [] && Lists(schema, components, path[0], p, required)
    ensures |path| == 1 ==> IsField(f, p, prefix, location, required)
    ensures |path| > 1 ==>
              LiesIn(p.schema, components, inner, mark)
              && LeadsTo(inner, components, Dotted(prefix, p.name) + mark, location, path[1..], f)
  {
    hide Lists, IsField, LiesIn, Dotted;
    if |path| == 1 {
      p, required :| Lists(schema, components, path[0], p, required) && IsField(f, p, prefix, location, required);
      inner, mark := p.schema, "";
    } else {
      p, required, inner, mark :|
        && Lists(schema, components, path[0], p, required) && LiesIn(p.schema, components, inner, mark)
        && LeadsTo(inner, components, Dotted(prefix, p.name) + mark, location, path[1..], f);
    }
  }

  lemma {:induction false} PathIsExtracted(schema: Schema, components: Components, prefix: string, location: string, depth: nat,
                                           path: seq<nat>, f: Field)
    requires Extract(schema, components, prefix, location, depth).Some? && LeadsTo(schema, components, prefix, location, path, f)
    ensures f in Extract(schema, components, prefix, location, depth).value
    decreases depth
  {
    hide *;
    var resolved := Resolve(schema, components);
    ExtractedFrom(schema, components, prefix, location, depth, f);
    var p, required, inner, mark := PathStarts(schema, components, prefix, location, path, f);
    ListsExact(schema, components, path[0], p, required);
    IsFieldExact(f, p, prefix, location, resolved.required);
    ComesFromIs(resolved.properties, resolved.required, components, prefix, location, depth, f, path[0]);
    if |path| > 1 {
      LiesInExact(p.schema, components, inner, mark);
      NestedExtracts(p, components, prefix, location, depth, inner, mark);
      PathIsExtracted(inner, components, FieldName(prefix, p.name) + mark, location, depth - 1, path[1..], f);
    }
  }
}
