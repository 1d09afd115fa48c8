/** The golden-fixture updater of update_goldens.py. */
module GoldenFixtures {
  import opened Wrappers
  import opened Text
  import opened DecimalText
  import opened Json

  // ----- projection onto a template -----

  /** `_looks_decimal` */
  predicate LooksDecimal(v: Value) {
    v.Str? && ParseNumber(v.s).Some?
  }

  /** `Decimal(str(actual))`; None when the text is no number. */
  function NumberOf(actual: Value): Option<Number> {
    match actual
    case Str(s) => ParseNumber(s)
    case Fraction(text) => ParseNumber(text)
    case Int(n) => Some(Finite(n < 0, if n < 0 then -n else n, 0))
    case _ => None
  }

  /** `format(actual.quantize(template), "f")` */
  function MatchScale(actual: Number, template: Number): Option<string> {
    match Quantize(actual, template)
    case None => None
    case Some(q) => Some(FormatFixed(q))
  }

  /** `_project_to_template`; None when it raises. */
  function Project(actual: Value, template: Value): Option<Value>
    decreases template
  {
    match template
    case Obj(tm) =>
      if actual.Obj? && forall k | k in tm :: k in actual.m && Project(actual.m[k], tm[k]).Some? then
        Some(Obj(map k | k in tm :: Project(actual.m[k], tm[k]).value))
      else None
    case List(ts) =>
      if actual.List? && |actual.items| == |ts| && forall i | 0 <= i < |ts| :: Project(actual.items[i], ts[i]).Some? then
        Some(List(seq(|ts|, i requires 0 <= i < |ts| => Project(actual.items[i], ts[i]).value)))
      else None
    case _ => ProjectLeaf(actual, template)
  }

  /** A decimal-looking template fixes the scale; any other leaf takes over the actual value. */
  function ProjectLeaf(actual: Value, template: Value): Option<Value> {
    if LooksDecimal(template) then
      match NumberOf(actual)
      case None => None
      case Some(a) =>
        match MatchScale(a, ParseNumber(template.s).value)
        case None => None
        case Some(text) => Some(Str(text))
    else Some(actual)
  }

  /** `v` has the template's keys and lengths wherever the template is a mapping or a list. */
  predicate SameShape(v: Value, template: Value)
    decreases template
  {
    match template
    case Obj(tm) => v.Obj? && v.m.Keys == tm.Keys && forall k | k in tm :: SameShape(v.m[k], tm[k])
    case List(ts) => v.List? && |v.items| == |ts| && forall i | 0 <= i < |ts| :: SameShape(v.items[i], ts[i])
    case _ => true
  }

  lemma {:induction false} ProjectKeepsShape(actual: Value, template: Value)
    requires Project(actual, template).Some?
    ensures SameShape(Project(actual, template).value, template)
    ensures template.Obj? ==>
              var v := Project(actual, template).value;
              v.Obj? && v.m.Keys == template.m.Keys && forall k | k in template.m :: SameShape(v.m[k], template.m[k])
    ensures template.List? ==>
              var v := Project(actual, template).value;
              && v.List? && |v.items| == |template.items|
              && forall i | 0 <= i < |template.items| :: SameShape(v.items[i], template.items[i])
    decreases template
  {
    match template {
      case Obj(tm) =>
        forall k | k in tm
          ensures SameShape(Project(actual, template).value.m[k], tm[k])
        {
          ProjectKeepsShape(actual.m[k], tm[k]);
        }
      case List(ts) =>
        forall i | 0 <= i < |ts|
          ensures SameShape(Project(actual, template).value.items[i], ts[i])
        {
          ProjectKeepsShape(actual.items[i], ts[i]);
        }
      case _ =>
    }
  }

  /** A projected decimal has the template's unit and is the nearest multiple of it. */
  lemma ProjectedDecimalNearest(actual: Value, template: Value, a: Number, t: Number)
    requires LooksDecimal(template) && ParseNumber(template.s) == Some(t) && t.Finite? && t.exp <= 0
    requires NumberOf(actual) == Some(a) && a.Finite? && Project(actual, template).Some?
    ensures Project(actual, template).value.Str?
    ensures ParseNumber(Project(actual, template).value.s) == Some(Finite(a.neg, Rescale(a.coeff, a.exp, t.exp), t.exp))
    ensures t.exp <= a.exp ==> Rescale(a.coeff, a.exp, t.exp) == a.coeff * Pow10(a.exp - t.exp)
    ensures t.exp > a.exp ==>
              var unit: int := Pow10(t.exp - a.exp);
              -unit <= 2 * (Rescale(a.coeff, a.exp, t.exp) * unit - a.coeff) <= unit
  {
    hide ParseNumber, FormatFixed, Rescale, Pow10, NumberOf;
    ParseFormatFixed(a.neg, Rescale(a.coeff, a.exp, t.exp), t.exp);
    RescaleNearest(a.coeff, a.exp, t.exp);
    assert Project(actual, template) == ProjectLeaf(actual, template);
  }

  /** The value of a decimal-looking text, of an integer or of another number; truth values have none here. */
  ghost predicate DecimalValue(v: Value, x: real) {
    match v
    case Str(s) => HasValue(Fraction(s), x)
    case Bool(_) => false
    case _ => HasValue(v, x)
  }

  lemma DecimalValueExact(v: Value, x: real)
    ensures DecimalValue(v, x)
       <==> && NumberOf(v).Some? && NumberOf(v).value.Finite?
            && var n := NumberOf(v).value;
               x == if n.neg then -Scaled(n.coeff, n.exp) else Scaled(n.coeff, n.exp)
  {
    hide ParseNumber;
    assert Pow10(0) == 1;
    if v.Int? {
      assert Scaled(if v.n < 0 then -v.n else v.n, 0) == (if v.n < 0 then -v.n else v.n) as real;
    }
  }

  /** An integer counts as what its decimal text reads as. */
  lemma IntegerReads(n: int)
    ensures NumberOf(Int(n)) == ParseNumber(ShowInteger(n))
  {
    hide ParseNumber, Digits, NatOf, FormatFixed;
    var m: nat := if n < 0 then -n else n;
    ParseFormatFixed(n < 0, m, 0);
    WholeText(n < 0, m);
    assert ShowInteger(n) == FormatFixed(Finite(n < 0, m, 0));
  }

  lemma WholeText(neg: bool, m: nat)
    ensures FormatFixed(Finite(neg, m, 0)) == if neg then "-" + Digits(m) else Digits(m)
  {
    hide Digits;
    assert m * Pow10(0) == m;
    assert "" + Digits(m) == Digits(m);
  }

  lemma ScaledLinear(coeff: nat, exp: int)
    ensures Scaled(1, exp) > 0.0 && Scaled(coeff, exp) == coeff as real * Scaled(1, exp)
  {
    if exp >= 0 {
      RealProduct(coeff, Pow10(exp));
    } else {
      var k := Pow10(-exp) as real;
      assert 1.0 / k * k == 1.0;
      Distribute(coeff as real, k);
    }
  }

  lemma Distribute(a: real, k: real)
    requires k > 0.0
    ensures a / k == a * (1.0 / k) && 1.0 / k > 0.0
  {
    assert (a / k) * k == a && (1.0 / k) * k == 1.0;
    assert (a * (1.0 / k)) * k == a;
  }

  /** A rescaled coefficient stands for a value at most half a unit away. */
  lemma RescaledNear(coeff: nat, exp: int, target: int)
    ensures var x, y, unit := Scaled(coeff, exp), Scaled(Rescale(coeff, exp, target), target), Scaled(1, target);
            -unit <= 2.0 * (y - x) <= unit
  {
    hide Scaled, Rescale, Pow10;
    var r := Rescale(coeff, exp, target);
    RescaleNearest(coeff, exp, target);
    ScaledLinear(1, target);
    if exp >= target {
      ScaledDown(coeff, exp, target);
    } else {
      var k := Pow10(target - exp);
      ScaledDown(r, target, exp);
      ScaledDown(1, target, exp);
      ScaledLinear(r * k, exp);
      ScaledLinear(coeff, exp);
      ScaledLinear(1 * k, exp);
      Bounded((r * k) as real, coeff as real, k as real, Scaled(1, exp));
    }
  }

  lemma Bounded(a: real, b: real, k: real, unit: real)
    requires unit > 0.0 && -k <= 2.0 * (a - b) <= k
    ensures -(k * unit) <= 2.0 * (a * unit - b * unit) <= k * unit
  {
    NonNegative(k - 2.0 * (a - b), unit);
    NonNegative(k + 2.0 * (a - b), unit);
    assert (k - 2.0 * (a - b)) * unit == k * unit - 2.0 * (a * unit - b * unit);
    assert (k + 2.0 * (a - b)) * unit == k * unit + 2.0 * (a * unit - b * unit);
  }

  lemma NonNegative(x: real, y: real)
    requires x >= 0.0 && y >= 0.0
    ensures x * y >= 0.0
  {
  }

  /** Onto a plain decimal, a number is projected as a text whose value is at most half the template's unit away. */
  lemma ProjectedValue(actual: Value, template: Value, x: real, t: Number) returns (text: string, y: real)
    requires template.Str? && ParseNumber(template.s) == Some(t) && t.Finite? && t.exp <= 0
    requires DecimalValue(actual, x) && Project(actual, template).Some?
    ensures Project(actual, template) == Some(Str(text)) && DecimalValue(Str(text), y)
    ensures ParseNumber(text).Some? && ParseNumber(text).value.Finite? && ParseNumber(text).value.exp == t.exp
    ensures -Scaled(1, t.exp) <= 2.0 * (y - x) <= Scaled(1, t.exp)
  {
    DecimalValueExact(actual, x);
    var a := NumberOf(actual).value;
    var r := Rescale(a.coeff, a.exp, t.exp);
    hide Project, ParseNumber, Rescale, Scaled, DecimalValue, NumberOf;
    ProjectedDecimalNearest(actual, template, a, t);
    text := Project(actual, template).value.s;
    y := if a.neg then -Scaled(r, t.exp) else Scaled(r, t.exp);
    TextNumber(text);
    DecimalValueExact(Str(text), y);
    RescaledNear(a.coeff, a.exp, t.exp);
  }

  lemma TextNumber(text: string)
    ensures NumberOf(Str(text)) == ParseNumber(text)
  {
    hide ParseNumber;
  }

  // ----- projecting onto what was projected -----

  /** Quantizing to the template and then to the resulting text gives that text again. */
  predicate ScaleSteady(a: Number, t: Number) {
    t.Finite? && a.Finite? && t.exp > 0 ==>
      Rescale(a.coeff, a.exp, 0) == Rescale(a.coeff, a.exp, t.exp) * Pow10(t.exp) < LIMIT
  }

  lemma ParseFormatSpecial(n: Number)
    requires n.Infinite? || (n.NotANumber? && !n.signaling)
    ensures ParseNumber(FormatFixed(n)) == Some(n)
  {
    hide ParseNumber;
    if n.Infinite? {
      ParseWord("Infinity", n.neg);
      ParseInfinity(n.neg);
    } else {
      ParseWord("NaN", n.neg);
      ParseNotANumber(n.neg);
    }
  }

  lemma {:induction false} ParseInfinity(neg: bool)
    ensures ParseUnsigned("Infinity", neg) == Some(Infinite(neg))
  {
    hide ParseMagnitude;
    assert LowerCase("Infinity") == "infinity";
  }

  lemma ParseNotANumber(neg: bool)
    ensures ParseUnsigned("NaN", neg) == Some(NotANumber(neg, false))
  {
    hide ParseMagnitude;
    assert LowerCase("NaN") == "nan" && "nan"[3..] == "" && "infinity"[0] == "inf"[0] == 'i';
  }

  /** An optional minus sign before a word that has no blanks or underscores. */
  lemma ParseWord(word: string, neg: bool)
    requires word in ["Infinity", "NaN"]
    ensures ParseNumber((if neg then "-" else "") + word) == ParseUnsigned(word, neg)
  {
    hide ParseUnsigned, WithoutUnderscores;
    var s := (if neg then "-" else "") + word;
    assert '_' !in "Infinity" && '_' !in "NaN";
    assert s == if neg then "-" + word else word;
    PlainKeepsUnderscores(s);
    StripPlain(s);
    if neg {
      assert s[0] == '-' && s[1..] == word;
    }
  }

  lemma StripPlain(s: string)
    requires s != "" && !IsSpace(s[0]) && !IsSpace(s[|s| - 1])
    ensures Strip(s) == s
  {
  }

  /** A second projection of the same number changes nothing exactly when the first one is steady. */
  lemma RematchIff(a: Number, t: Number, text: string)
    requires MatchScale(a, t) == Some(text)
    ensures ParseNumber(text).Some?
    ensures MatchScale(a, ParseNumber(text).value) == Some(text) <==> ScaleSteady(a, t)
  {
    hide ParseNumber, FormatFixed, Rescale, Pow10;
    var q := Quantize(a, t).value;
    if !(a.Finite? && t.Finite?) {
      ParseFormatSpecial(q);
    } else {
      ParseFormatFixed(q.neg, q.coeff, q.exp);
      if t.exp > 0 {
        var units, big := Rescale(a.coeff, a.exp, 0), q.coeff * Pow10(t.exp);
        FormatWhole(q.neg, q.coeff, t.exp);
        if units < LIMIT {
          FormatInjective(q.neg, units, big);
        }
      }
    }
  }

  lemma FormatWhole(neg: bool, coeff: nat, exp: int)
    requires exp >= 0
    ensures FormatFixed(Finite(neg, coeff, exp)) == FormatFixed(Finite(neg, coeff * Pow10(exp), 0))
  {
  }

  lemma FormatInjective(neg: bool, m: nat, n: nat)
    ensures FormatFixed(Finite(neg, m, 0)) == FormatFixed(Finite(neg, n, 0)) <==> m == n
  {
    ParseFormatFixed(neg, m, 0);
    ParseFormatFixed(neg, n, 0);
  }

  /** A decimal-looking string is already the fixed-point text of its own number. */
  predicate Canonical(s: string) {
    ParseNumber(s).Some? ==> MatchScale(ParseNumber(s).value, ParseNumber(s).value) == Some(s)
  }

  /** Every string of `v` is canonical. */
  predicate Settled(v: Value) {
    match v
    case Str(s) => Canonical(s)
    case List(items) => forall i | 0 <= i < |items| :: Settled(items[i])
    case Obj(m) => forall k | k in m :: Settled(m[k])
    case _ => true
  }

  lemma {:induction false} SelfProjectIff(v: Value)
    ensures Project(v, v) == Some(v) <==> Settled(v)
  {
    hide ParseNumber, MatchScale;
    match v {
      case Obj(m) =>
        forall k | k in m
          ensures Project(m[k], m[k]) == Some(m[k]) <==> Settled(m[k])
        {
          SelfProjectIff(m[k]);
        }
        if Project(v, v) == Some(v) {
          forall k | k in m
            ensures Project(m[k], m[k]) == Some(m[k])
          {
            assert Project(v, v).value.m[k] == m[k];
          }
        }
        if Settled(v) {
          assert Project(v, v).Some? && Project(v, v).value.m == m;
        }
      case List(items) =>
        forall i | 0 <= i < |items|
          ensures Project(items[i], items[i]) == Some(items[i]) <==> Settled(items[i])
        {
          SelfProjectIff(items[i]);
        }
        if Project(v, v) == Some(v) {
          forall i | 0 <= i < |items|
            ensures Project(items[i], items[i]) == Some(items[i])
          {
            assert Project(v, v).value.items[i] == items[i];
          }
        }
        if Settled(v) {
          assert Project(v, v).Some? && Project(v, v).value.items == items;
        }
      case _ =>
    }
  }

  /**
   Where projection is stable: at decimal leaves the rounding is (always, unless the template's exponent is
   positive), and what other leaves take over unchanged is settled.
   */
  predicate Steady(actual: Value, template: Value)
    requires Project(actual, template).Some?
    decreases template
  {
    match template
    case Obj(tm) => forall k | k in tm :: Steady(actual.m[k], tm[k])
    case List(ts) => forall i | 0 <= i < |ts| :: Steady(actual.items[i], ts[i])
    case _ => LeafSteady(actual, template)
  }

  predicate LeafSteady(actual: Value, template: Value) {
    if LooksDecimal(template) then
      NumberOf(actual).Some? ==> ScaleSteady(NumberOf(actual).value, ParseNumber(template.s).value)
    else Settled(actual)
  }

  /** Projecting onto an already projected template changes nothing exactly when the projection is steady. */
  lemma {:induction false} ReprojectIff(actual: Value, template: Value)
    requires Project(actual, template).Some?
    ensures Project(actual, Project(actual, template).value) == Project(actual, template) <==> Steady(actual, template)
    decreases template
  {
    hide ParseNumber, MatchScale, ScaleSteady, NumberOf;
    var v := Project(actual, template).value;
    match template {
      case Obj(tm) =>
        forall k | k in tm
          ensures Project(actual.m[k], v.m[k]) == Some(v.m[k]) <==> Steady(actual.m[k], tm[k])
        {
          ReprojectIff(actual.m[k], tm[k]);
        }
        if Project(actual, v) == Some(v) {
          forall k | k in tm
            ensures Project(actual.m[k], v.m[k]) == Some(v.m[k])
          {
            assert Project(actual, v).value.m[k] == v.m[k];
          }
        }
        if Steady(actual, template) {
          assert Project(actual, v).Some? && Project(actual, v).value.m == v.m;
        }
      case List(ts) =>
        forall i | 0 <= i < |ts|
          ensures Project(actual.items[i], v.items[i]) == Some(v.items[i]) <==> Steady(actual.items[i], ts[i])
        {
          ReprojectIff(actual.items[i], ts[i]);
        }
        if Project(actual, v) == Some(v) {
          forall i | 0 <= i < |ts|
            ensures Project(actual.items[i], v.items[i]) == Some(v.items[i])
          {
            assert Project(actual, v).value.items[i] == v.items[i];
          }
        }
        if Steady(actual, template) {
          assert Project(actual, v).Some? && Project(actual, v).value.items == v.items;
        }
      case _ => ReprojectLeafIff(actual, template, v);
    }
  }

  lemma ReprojectLeafIff(actual: Value, template: Value, v: Value)
    requires ProjectLeaf(actual, template) == Some(v)
    ensures Project(actual, v) == Some(v) <==> LeafSteady(actual, template)
  {
    hide ParseNumber, MatchScale, ScaleSteady;
    if LooksDecimal(template) {
      RematchIff(NumberOf(actual).value, ParseNumber(template.s).value, v.s);
      assert Project(actual, v) == ProjectLeaf(actual, v);
    } else {
      SelfProjectIff(actual);
    }
  }

  /** Every decimal of a template is finite and in plain notation: its exponent is not positive. */
  predicate PlainDecimals(template: Value) {
    match template
    case Str(s) => ParseNumber(s).Some? ==> ParseNumber(s).value.Finite? && ParseNumber(s).value.exp <= 0
    case List(ts) => forall i | 0 <= i < |ts| :: PlainDecimals(ts[i])
    case Obj(tm) => forall k | k in tm :: PlainDecimals(tm[k])
    case _ => true
  }

  /** Plain templates and settled values project steadily. */
  lemma {:induction false} PlainIsSteady(actual: Value, template: Value)
    requires Project(actual, template).Some? && PlainDecimals(template) && Settled(actual)
    ensures Steady(actual, template)
    decreases template
  {
    hide ParseNumber, MatchScale;
    match template {
      case Obj(tm) =>
        forall k | k in tm
          ensures Steady(actual.m[k], tm[k])
        {
          PlainIsSteady(actual.m[k], tm[k]);
        }
      case List(ts) =>
        forall i | 0 <= i < |ts|
          ensures Steady(actual.items[i], ts[i])
        {
          PlainIsSteady(actual.items[i], ts[i]);
        }
      case _ =>
    }
  }

  /** A template with a positive exponent loses it: 1234 onto "1E+3" gives "1000", and onto that "1234". */
  lemma PositiveExponentDrifts()
    ensures ParseNumber("1E+3") == Some(Finite(false, 1, 3))
    ensures MatchScale(Finite(false, 1234, 0), Finite(false, 1, 3)) == Some("1000")
    ensures ParseNumber("1000") == Some(Finite(false, 1000, 0))
    ensures MatchScale(Finite(false, 1234, 0), Finite(false, 1000, 0)) == Some("1234")
  {
    ParseScientific();
    PowersOfTen();
    hide ParseNumber;
    SmallDigits();
    hide Pow10, Digits;
    assert "" + "1000" == "1000" && "" + "1234" == "1234";
    ParseFormatFixed(false, 1000, 0);
  }

  lemma SmallDigits()
    ensures Digits(1000) == "1000" && Digits(1234) == "1234"
  {
    assert Digits(1) == "1" && Digits(10) == "10" && Digits(100) == "100";
    assert Digits(12) == "12" && Digits(123) == "123";
  }

  lemma PowersOfTen()
    ensures Pow10(0) == 1 && Pow10(3) == 1000 && LIMIT >= 1_0000
  {
  }

  lemma ParseScientific()
    ensures ParseNumber("1E+3") == Some(Finite(false, 1, 3))
  {
    hide ParseUnsigned, ParseMagnitude, WithoutUnderscores;
    PlainKeepsUnderscores("1E+3");
    StripPlain("1E+3");
    PlainIsNoWord("1E+3", false);
    ParseScientificMagnitude();
  }

  lemma {:induction false} ParseScientificMagnitude()
    ensures ParseMagnitude("1E+3") == Some((1, 3))
  {
    ParseScientificExponent();
    hide ParseExponent;
    DigitRunOf("1", "E+3");
    assert "1" + "E+3" == "1E+3" && "1E+3"[..1] == "1" && "1" + "" == "1" && "1E+3"[1..] == "E+3";
    assert "1"[..0] == "" && NatOf("1") == 1;
  }

  lemma ParseScientificExponent()
    ensures ParseExponent("E+3") == Some(3)
  {
    assert "E+3"[2..] == "3" && "3"[..0] == "" && NatOf("3") == 3;
    DigitRunOf("3", "");
    assert "3" + "" == "3";
  }

  // ----- what Python's equality sees -----

  /** Reprojecting rewrites strings only, so that Python sees every change it makes. */
  lemma {:induction false} SelfChangesSeen(v: Value)
    requires Project(v, v).Some? && PyEqual(Project(v, v).value, v)
    ensures Project(v, v).value == v
  {
    hide MatchScale, ParseNumber;
    var w := Project(v, v).value;
    match v {
      case Obj(m) =>
        forall k | k in m
          ensures w.m[k] == m[k]
        {
          SelfChangesSeen(m[k]);
        }
        assert w.m == m;
      case List(items) =>
        forall i | 0 <= i < |items|
          ensures w.items[i] == items[i]
        {
          SelfChangesSeen(items[i]);
        }
        assert w.items == items;
      case _ =>
    }
  }

  lemma {:induction false} ChangesSeen(actual: Value, template: Value, v: Value)
    requires Project(actual, template) == Some(v)
    requires Project(actual, v).Some? && PyEqual(Project(actual, v).value, v)
    ensures Project(actual, v).value == v
    decreases template
  {
    hide MatchScale, ParseNumber, LeafEqual, ProjectLeaf;
    var w := Project(actual, v).value;
    match template {
      case Obj(tm) =>
        forall k | k in tm
          ensures w.m[k] == v.m[k]
        {
          ChangesSeen(actual.m[k], tm[k], v.m[k]);
        }
        assert w.m == v.m;
      case List(ts) =>
        forall i | 0 <= i < |ts|
          ensures w.items[i] == v.items[i]
        {
          ChangesSeen(actual.items[i], ts[i], v.items[i]);
        }
        assert w.items == v.items;
      case _ => LeafChangesSeen(actual, template, v);
    }
  }

  lemma {:induction false} LeafChangesSeen(actual: Value, template: Value, v: Value)
    requires ProjectLeaf(actual, template) == Some(v)
    requires Project(actual, v).Some? && PyEqual(Project(actual, v).value, v)
    ensures Project(actual, v).value == v
  {
    hide MatchScale, ParseNumber;
    if LooksDecimal(template) {
      RematchIff(NumberOf(actual).value, ParseNumber(template.s).value, v.s);
      assert Project(actual, v) == ProjectLeaf(actual, v);
    } else {
      SelfChangesSeen(actual);
    }
  }

  /** A fixture that is up to date is steady. */
  lemma {:induction false} UpToDateIsSteady(actual: Value, template: Value)
    requires Project(actual, template).Some? && PyEqual(Project(actual, template).value, template)
    ensures Steady(actual, template)
    decreases template
  {
    hide LeafEqual, LeafSteady, ProjectLeaf;
    var v := Project(actual, template).value;
    match template {
      case Obj(tm) =>
        forall k | k in tm
          ensures Steady(actual.m[k], tm[k])
        {
          assert PyEqual(v.m[k], tm[k]);
          UpToDateIsSteady(actual.m[k], tm[k]);
        }
      case List(ts) =>
        forall i | 0 <= i < |ts|
          ensures Steady(actual.items[i], ts[i])
        {
          assert PyEqual(v.items[i], ts[i]);
          UpToDateIsSteady(actual.items[i], ts[i]);
        }
      case _ => UpToDateLeaf(actual, template, v);
    }
  }

  lemma UpToDateLeaf(actual: Value, template: Value, v: Value)
    requires ProjectLeaf(actual, template) == Some(v) && PyEqual(v, template)
    requires !template.Obj? && !template.List?
    ensures LeafSteady(actual, template)
  {
    hide MatchScale, ParseNumber, ScaleSteady;
    if LooksDecimal(template) {
      RematchIff(NumberOf(actual).value, ParseNumber(template.s).value, v.s);
      assert v == template;
    } else {
      assert v == actual && !v.Obj? && !v.List?;
    }
  }

  // ----- writing a document -----

  /** What loading finds after `json.dumps`: a Decimal is written as the string of its digits. */
  function Written(v: Value): Value {
    match v
    case Fraction(text) => Str(text)
    case List(items) => List(seq(|items|, i requires 0 <= i < |items| => Written(items[i])))
    case Obj(m) => Obj(map k | k in m :: Written(m[k]))
    case _ => v
  }

  function WrittenDocument(m: map<string, Value>): map<string, Value> {
    map k | k in m :: Written(m[k])
  }

  predicate NoFractions(v: Value) {
    match v
    case Fraction(_) => false
    case List(items) => forall i | 0 <= i < |items| :: NoFractions(items[i])
    case Obj(m) => forall k | k in m :: NoFractions(m[k])
    case _ => true
  }

  lemma {:induction false} WrittenSame(v: Value)
    requires NoFractions(v)
    ensures Written(v) == v
  {
    match v {
      case Obj(m) =>
        forall k | k in m
          ensures Written(m[k]) == m[k]
        {
          WrittenSame(m[k]);
        }
        assert WrittenDocument(m) == m;
      case List(items) =>
        forall i | 0 <= i < |items|
          ensures Written(items[i]) == items[i]
        {
          WrittenSame(items[i]);
        }
        assert Written(v).items == items;
      case _ =>
    }
  }

  lemma {:induction false} ProjectNoFractions(actual: Value, template: Value)
    requires Project(actual, template).Some? && NoFractions(actual)
    ensures NoFractions(Project(actual, template).value)
    decreases template
  {
    hide MatchScale, ParseNumber;
    match template {
      case Obj(tm) =>
        forall k | k in tm
          ensures NoFractions(Project(actual, template).value.m[k])
        {
          ProjectNoFractions(actual.m[k], tm[k]);
        }
      case List(ts) =>
        forall i | 0 <= i < |ts|
          ensures NoFractions(Project(actual, template).value.items[i])
        {
          ProjectNoFractions(actual.items[i], ts[i]);
        }
      case _ =>
    }
  }

  // ----- regenerating a fixture -----

  /** What one simulation yields: the dumped result, the dumped diagnostics and the artifact's values by key. */
  datatype Run = Run(result: map<string, Value>, diagnostics: map<string, Value>, artifact: map<string, Value>)

  /** The simulation of a fixture's inputs; None when they are rejected. */
  type Engine = Value -> Option<Run>

  const INPUTS := "proposal_inputs"
  const PROPOSAL := "expected_proposal_output"
  const ARTIFACT := "expected_artifact_output"
  const DIAGNOSTIC_KEYS := {"missing_fx_pairs", "funding_plan", "insufficient_cash"}

  /** Three keys of a proposal's expected output come from the diagnostics. */
  function ProposalValues(run: Run): map<string, Value> {
    map k | k in run.result.Keys + run.diagnostics.Keys && k in DumpOf(run, k) :: DumpOf(run, k)[k]
  }

  function DumpOf(run: Run, key: string): map<string, Value> {
    if key in DIAGNOSTIC_KEYS then run.diagnostics else run.result
  }

  /** `_proposal_expected_output`; None when a key is missing or a projection raises. */
  method ProposalExpectedOutput(currentExpected: map<string, Value>, run: Run) returns (output: Option<Value>)
    ensures output == Project(Obj(ProposalValues(run)), Obj(currentExpected))
  {
    hide ProjectLeaf;
    var generated: map<string, Value> := map[];
    ghost var values := ProposalValues(run);
    var todo := currentExpected.Keys;
    while todo != {}
      invariant todo <= currentExpected.Keys && generated.Keys == currentExpected.Keys - todo
      invariant forall k | k in generated ::
                  k in values && Project(values[k], currentExpected[k]) == Some(generated[k])
    {
      var key :| key in todo;
      todo := todo - {key};
      if key !in DumpOf(run, key) {
        assert key !in values;
        return None;
      }
      assert key in values && values[key] == DumpOf(run, key)[key];
      match Project(DumpOf(run, key)[key], currentExpected[key]) {
        case None => return None;
        case Some(v) => generated := generated[key := v];
      }
    }
    output := Some(Obj(generated));
    assert Project(Obj(values), Obj(currentExpected)).value.m == generated;
  }

  /** The dump that a key of a proposal's expected output is taken from. */
  function Source(run: Run, key: string): map<string, Value> {
    if key == "missing_fx_pairs" || key == "funding_plan" || key == "insufficient_cash" then run.diagnostics else run.result
  }

  /** Each key is projected from its own dump, and all keys have to be there. */
  lemma ProposalExact(currentExpected: map<string, Value>, run: Run, output: map<string, Value>)
    ensures Project(Obj(ProposalValues(run)), Obj(currentExpected)) == Some(Obj(output))
       <==> && output.Keys == currentExpected.Keys
            && forall k | k in currentExpected ::
                 k in Source(run, k) && Project(Source(run, k)[k], currentExpected[k]) == Some(output[k])
  {
    hide ProjectLeaf;
    forall k
      ensures DumpOf(run, k) == Source(run, k)
    {
      DiagnosticKey(k);
    }
    hide DumpOf, Source;
    var values := ProposalValues(run);
    assert forall k :: k in values ==> k in Source(run, k) && values[k] == Source(run, k)[k];
    forall k | k in Source(run, k)
      ensures k in values
    {
      DumpKeys(run, k);
    }
    if Project(Obj(values), Obj(currentExpected)) == Some(Obj(output)) {
      assert Project(Obj(values), Obj(currentExpected)).value.m == output;
    }
    if output.Keys == currentExpected.Keys
       && forall k | k in currentExpected :: k in Source(run, k) && Project(Source(run, k)[k], currentExpected[k]) == Some(output[k])
    {
      assert Project(Obj(values), Obj(currentExpected)).Some?;
      assert Project(Obj(values), Obj(currentExpected)).value.m == output;
    }
  }

  lemma DiagnosticKey(key: string)
    ensures key in DIAGNOSTIC_KEYS <==> key == "missing_fx_pairs" || key == "funding_plan" || key == "insufficient_cash"
  {
  }

  lemma DumpKeys(run: Run, key: string)
    requires key in Source(run, key)
    ensures key in run.result.Keys + run.diagnostics.Keys
  {
  }

  /** The section that the updater rewrites: a proposal's when there is one, otherwise an artifact's. */
  function Section(document: map<string, Value>): Option<string> {
    if PROPOSAL in document then Some(PROPOSAL)
    else if ARTIFACT in document then Some(ARTIFACT)
    else None
  }

  function SectionValues(section: string, run: Run): Value {
    Obj(if section == PROPOSAL then ProposalValues(run) else run.artifact)
  }

  function SimulationOf(document: map<string, Value>, engine: Engine): Option<Run> {
    if INPUTS in document then engine(document[INPUTS]) else None
  }

  /** `regenerate_golden_document`: the section's new value, or None when it raises. */
  function NewSection(document: map<string, Value>, engine: Engine): Option<Value> {
    match SimulationOf(document, engine)
    case None => None
    case Some(run) =>
      match Section(document)
      case None => None
      case Some(section) =>
        if document[section].Obj? then Project(SectionValues(section, run), document[section]) else None
  }

  /** What is regenerated, key by key: the proposal's section from both dumps, or else the artifact's from its values. */
  lemma NewSectionExact(document: map<string, Value>, engine: Engine, v: Value)
    ensures NewSection(document, engine) == Some(v)
       <==> && "proposal_inputs" in document && engine(document["proposal_inputs"]).Some?
            && var run := engine(document["proposal_inputs"]).value;
               || (&& "expected_proposal_output" in document && document["expected_proposal_output"].Obj?
                   && Project(Obj(ProposalValues(run)), document["expected_proposal_output"]) == Some(v))
               || (&& "expected_proposal_output" !in document
                   && "expected_artifact_output" in document && document["expected_artifact_output"].Obj?
                   && Project(Obj(run.artifact), document["expected_artifact_output"]) == Some(v))
  {
    hide Project, ProposalValues;
    assert "expected_proposal_output"[9] == 'p' && "expected_artifact_output"[9] == 'a';
  }

  class GoldenFile {
    var document: map<string, Value>

    constructor (document: map<string, Value>)
      ensures this.document == document
    {
      this.document := document;
    }

    /** `regenerate_golden_document` works on a copy that it loads itself. */
    method Regenerate(engine: Engine) returns (updated: Option<map<string, Value>>)
      ensures NewSection(document, engine).None? ==> updated == None
      ensures NewSection(document, engine).Some? ==>
                updated == Some(document[Section(document).value := NewSection(document, engine).value])
    {
      if INPUTS !in document {
        return None;
      }
      var run := engine(document[INPUTS]);
      if run.None? {
        return None;
      }
      if PROPOSAL in document {
        if !document[PROPOSAL].Obj? {
          return None;
        }
        var output := ProposalExpectedOutput(document[PROPOSAL].m, run.value);
        return if output.None? then None else Some(document[PROPOSAL := output.value]);
      }
      if ARTIFACT in document {
        if !document[ARTIFACT].Obj? {
          return None;
        }
        var output := Project(Obj(run.value.artifact), document[ARTIFACT]);
        return if output.None? then None else Some(document[ARTIFACT := output.value]);
      }
      return None;
    }

    /** `update_golden_file`: whether the file had drifted; None when regenerating raises. */
    method Update(engine: Engine, check: bool) returns (drifted: Option<bool>)
      modifies this
      ensures drifted.Some? <==> NewSection(old(document), engine).Some?
      ensures drifted.Some? ==> drifted == Some(!UpToDate(old(document), engine))
      ensures document == if check then old(document) else AfterUpdate(old(document), engine)
    {
      var updated := Regenerate(engine);
      if updated.None? {
        return None;
      }
      SectionDecides(document, engine);
      if PyEqual(Obj(updated.value), Obj(document)) {
        return Some(false);
      }
      if !check {
        document := WrittenDocument(updated.value);
      }
      return Some(true);
    }
  }

  predicate UpToDate(document: map<string, Value>, engine: Engine)
    requires NewSection(document, engine).Some?
  {
    PyEqual(NewSection(document, engine).value, document[Section(document).value])
  }

  /** The file after `update_golden_file` without `--check`. */
  function AfterUpdate(document: map<string, Value>, engine: Engine): map<string, Value> {
    if NewSection(document, engine).None? || UpToDate(document, engine) then document
    else WrittenDocument(document[Section(document).value := NewSection(document, engine).value])
  }

  /** Replacing one section leaves the documents equal exactly when the section's values are. */
  lemma SectionDecides(document: map<string, Value>, engine: Engine)
    requires NewSection(document, engine).Some?
    ensures var updated := document[Section(document).value := NewSection(document, engine).value];
            PyEqual(Obj(updated), Obj(document)) <==> UpToDate(document, engine)
  {
    hide LeafEqual, Project;
    var section, v := Section(document).value, NewSection(document, engine).value;
    var updated := document[section := v];
    assert updated.Keys == document.Keys;
    forall k | k in document && k != section
      ensures PyEqual(updated[k], document[k])
    {
      PyEqualReflexive(document[k]);
    }
    assert updated[section] == v;
    if PyEqual(Obj(updated), Obj(document)) {
      assert PyEqual(updated[section], document[section]);
    }
  }

  /**
   After an update, a check reports no drift exactly when the projection is steady; in particular whenever
   the fixture's decimals are plain and the engine's strings are settled (`PlainIsSteady`).  The engine must
   read a number and the string it is written as alike, and dump numbers as strings.
   */
  lemma UpdateThenCheck(document: map<string, Value>, engine: Engine)
    requires NewSection(document, engine).Some?
    requires engine(Written(document[INPUTS])) == engine(document[INPUTS])
    requires NoFractions(SectionValues(Section(document).value, SimulationOf(document, engine).value))
    ensures var after := AfterUpdate(document, engine);
            NewSection(after, engine).Some? && UpToDate(after, engine)
            <==> Steady(SectionValues(Section(document).value, SimulationOf(document, engine).value),
                        document[Section(document).value])
  {
    hide Project, PyEqual, Steady, NoFractions, ProposalValues;
    var section, template := Section(document).value, document[Section(document).value];
    var actual := SectionValues(section, SimulationOf(document, engine).value);
    var v := NewSection(document, engine).value;
    if UpToDate(document, engine) {
      UpToDateIsSteady(actual, template);
    } else {
      var after := AfterUpdate(document, engine);
      ProjectNoFractions(actual, template);
      WrittenSame(v);
      ProjectedIsObj(actual, template);
      assert after.Keys == document.Keys && after[section] == v && after[INPUTS] == Written(document[INPUTS]);
      assert NewSection(after, engine) == Project(actual, v);
      ReprojectIff(actual, template);
      if NewSection(after, engine).Some? {
        if UpToDate(after, engine) {
          ChangesSeen(actual, template, v);
        }
        PyEqualReflexive(v);
      }
    }
  }

  lemma ProjectedIsObj(actual: Value, template: Value)
    requires Project(actual, template).Some? && template.Obj?
    ensures Project(actual, template).value.Obj?
  {
  }
}
