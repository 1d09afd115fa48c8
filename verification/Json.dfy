/** JSON documents as Python loads them, with Python's equality and truth value. */
module Json {
  import opened Wrappers
  import opened DecimalText

  /** A loaded document; `Fraction` is a number that is not written as an integer, kept as the text of its value. */
  datatype Value =
    | Null
    | Bool(b: bool)
    | Int(n: int)
    | Fraction(text: string)
    | Str(s: string)
    | List(items: seq<Value>)
    | Obj(m: map<string, Value>)

  /** `mapping.get(key)`: an absent key reads as null. */
  function Get(m: map<string, Value>, key: string): Value {
    if key in m then m[key] else Null
  }

  /** `bool(v)` */
  predicate Truthy(v: Value) {
    match v
    case Null => false
    case Bool(b) => b
    case Int(n) => n != 0
    case Fraction(text) => !(ParseNumber(text).Some? && ParseNumber(text).value.Finite? && ParseNumber(text).value.coeff == 0)
    case Str(s) => s != ""
    case List(items) => items != []
    case Obj(m) => m != map[]
  }

  // ----- Python's equality on loaded documents -----

  predicate IsNumeric(v: Value) {
    v.Bool? || v.Int? || v.Fraction?
  }

  /** A truth value counts as 0 or 1. */
  function Numeric(v: Value): Option<Number>
    requires IsNumeric(v)
  {
    match v
    case Bool(b) => Some(Finite(false, if b then 1 else 0, 0))
    case Int(n) => Some(Finite(n < 0, if n < 0 then -n else n, 0))
    case Fraction(text) => ParseNumber(text)
  }

  /** The same numeric value, whatever the exponents. */
  predicate NumericEqual(a: Number, b: Number) {
    && a.Finite? && b.Finite?
    && a.coeff * Pow10(if a.exp > b.exp then a.exp - b.exp else 0) == b.coeff * Pow10(if b.exp > a.exp then b.exp - a.exp else 0)
    && (a.neg == b.neg || a.coeff == 0)
  }

  /** `left == right` */
  predicate PyEqual(left: Value, right: Value) {
    match left
    case Obj(m) => right.Obj? && m.Keys == right.m.Keys && forall k | k in m :: PyEqual(m[k], right.m[k])
    case List(items) => right.List? && |items| == |right.items| && forall i | 0 <= i < |items| :: PyEqual(items[i], right.items[i])
    case _ => LeafEqual(left, right)
  }

  predicate LeafEqual(left: Value, right: Value) {
    || left == right
    || (&& IsNumeric(left) && IsNumeric(right)
        && Numeric(left).Some? && Numeric(right).Some?
        && NumericEqual(Numeric(left).value, Numeric(right).value))
  }

  lemma {:induction false} PyEqualReflexive(v: Value)
    ensures PyEqual(v, v)
  {
    hide LeafEqual;
    match v {
      case Obj(m) =>
        forall k | k in m
          ensures PyEqual(m[k], m[k])
        {
          PyEqualReflexive(m[k]);
        }
      case List(items) =>
        forall i | 0 <= i < |items|
          ensures PyEqual(items[i], items[i])
        {
          PyEqualReflexive(items[i]);
        }
      case _ => LeafEqualReflexive(v);
    }
  }

  lemma LeafEqualReflexive(v: Value)
    ensures LeafEqual(v, v)
  {
  }

  // ----- what the two are -----

  /** `coeff * 10^exp` */
  function Scaled(coeff: nat, exp: int): real {
    if exp >= 0 then (coeff * Pow10(exp)) as real else coeff as real / Pow10(-exp) as real
  }

  /** The value that counts as this number: truth values count as 1 and 0. */
  ghost predicate HasValue(v: Value, x: real) {
    match v
    case Bool(b) => x == if b then 1.0 else 0.0
    case Int(n) => x == n as real
    case Fraction(text) =>
      exists neg, coeff, exp :: ParseNumber(text) == Some(Finite(neg, coeff, exp))
                                && x == if neg then -Scaled(coeff, exp) else Scaled(coeff, exp)
    case _ => false
  }

  /** Exactly null, false, numbers equal to zero, and empty texts, lists and objects count as false. */
  lemma TruthyExact(v: Value)
    ensures !Truthy(v) <==> v == Null || v == Str("") || v == List([]) || v == Obj(map[]) || HasValue(v, 0.0)
  {
    if v.Fraction? && ParseNumber(v.text).Some? && ParseNumber(v.text).value.Finite? {
      var n := ParseNumber(v.text).value;
      ScaledZero(n.coeff, n.exp);
    }
    hide ParseNumber, Scaled;
  }

  lemma ScaledZero(coeff: nat, exp: int)
    ensures Scaled(coeff, exp) >= 0.0 && (Scaled(coeff, exp) == 0.0 <==> coeff == 0)
  {
    if exp >= 0 {
      ProductZero(coeff, Pow10(exp));
    } else {
      QuotientZero(coeff as real, Pow10(-exp) as real);
    }
  }

  lemma ProductZero(a: nat, b: nat)
    requires b > 0
    ensures a * b == 0 <==> a == 0
  {
  }

  lemma QuotientZero(a: real, b: real)
    requires a >= 0.0 && b > 0.0
    ensures a / b >= 0.0 && (a / b == 0.0 <==> a == 0.0)
  {
  }

  lemma {:induction false} Pow10Sum(m: nat, n: nat)
    ensures Pow10(m + n) == Pow10(m) * Pow10(n)
  {
    if m == 0 {
      assert Pow10(m) == 1;
    } else {
      Pow10Sum(m - 1, n);
      assert Pow10(m + n) == 10 * (Pow10(m - 1) * Pow10(n)) == (10 * Pow10(m - 1)) * Pow10(n);
    }
  }

  lemma Regroup(a: nat, b: nat, c: nat)
    ensures a * (b * c) == (a * b) * c
  {
  }

  lemma WholeQuotient(a: nat, q: nat)
    requires q > 0
    ensures (a * q) as real / q as real == a as real
  {
    RealProduct(a, q);
    RealQuotient(a as real, q as real);
  }

  lemma RealProduct(a: nat, b: nat)
    ensures (a * b) as real == a as real * b as real
  {
  }

  lemma RealQuotient(x: real, q: real)
    requires q > 0.0
    ensures (x * q) / q == x
  {
  }

  lemma SameQuotient(a: nat, b: nat, k: nat)
    requires b > 0 && k > 0
    ensures k * b > 0 && a as real / b as real == (a * k) as real / (k * b) as real
  {
    assert k * b >= b;
    RealProduct(a, k);
    RealProduct(k, b);
    Cancel(a as real, b as real, k as real);
  }

  lemma Cancel(a: real, b: real, k: real)
    requires b > 0.0 && k > 0.0
    ensures k * b > 0.0 && a / b == (a * k) / (k * b)
  {
    var q := a / b;
    assert q * b == a;
    assert q * (k * b) == (q * b) * k;
    PositiveProduct(k, b);
    RealQuotient(q, k * b);
  }

  lemma PositiveProduct(a: real, b: real)
    requires a > 0.0 && b > 0.0
    ensures a * b > 0.0
  {
  }

  /** Moving the exponent down multiplies the coefficient. */
  lemma ScaledDown(coeff: nat, exp: int, lower: int)
    requires lower <= exp
    ensures Scaled(coeff, exp) == Scaled(coeff * Pow10(exp - lower), lower)
  {
    hide Pow10;
    var k := Pow10(exp - lower);
    if lower >= 0 {
      Pow10Sum(exp - lower, lower);
      Regroup(coeff, k, Pow10(lower));
    } else if exp >= 0 {
      Pow10Sum(exp, -lower);
      Regroup(coeff, Pow10(exp), Pow10(-lower));
      WholeQuotient(coeff * Pow10(exp), Pow10(-lower));
    } else {
      Pow10Sum(exp - lower, -exp);
      SameQuotient(coeff, Pow10(-exp), k);
    }
  }

  lemma SameMultiple(a: nat, b: nat, k: nat)
    requires k > 0
    ensures a * k == b * k <==> a == b
  {
    if a * k == b * k {
      WholeQuotient(a, k);
      WholeQuotient(b, k);
    }
  }

  lemma SameExponent(a: nat, b: nat, exp: int)
    ensures Scaled(a, exp) == Scaled(b, exp) <==> a == b
  {
    hide Pow10;
    if exp >= 0 {
      SameMultiple(a, b, Pow10(exp));
    } else {
      SameShare(a as real, b as real, Pow10(-exp) as real);
    }
  }

  lemma SameShare(a: real, b: real, k: real)
    requires k > 0.0
    ensures a / k == b / k <==> a == b
  {
    assert (a / k) * k == a && (b / k) * k == b;
  }

  /** Numbers are numerically equal exactly when their values are. */
  lemma NumericExact(a: Number, b: Number)
    requires a.Finite? && b.Finite?
    ensures var x, y := Scaled(a.coeff, a.exp), Scaled(b.coeff, b.exp);
            NumericEqual(a, b) <==> (if a.neg then -x else x) == (if b.neg then -y else y)
  {
    hide Scaled, Pow10;
    var lower := if a.exp < b.exp then a.exp else b.exp;
    ScaledDown(a.coeff, a.exp, lower);
    ScaledDown(b.coeff, b.exp, lower);
    PowerOfNothing();
    assert a.exp - lower == if a.exp > b.exp then a.exp - b.exp else 0;
    assert b.exp - lower == if b.exp > a.exp then b.exp - a.exp else 0;
    SameExponent(a.coeff * Pow10(a.exp - lower), b.coeff * Pow10(b.exp - lower), lower);
    ScaledZero(a.coeff, a.exp);
    ScaledZero(b.coeff, b.exp);
  }

  lemma PowerOfNothing()
    ensures Pow10(0) == 1
  {
  }

  lemma ValueExact(v: Value, x: real)
    ensures HasValue(v, x)
       <==> && IsNumeric(v) && Numeric(v).Some? && Numeric(v).value.Finite?
            && var n := Numeric(v).value;
               x == if n.neg then -Scaled(n.coeff, n.exp) else Scaled(n.coeff, n.exp)
  {
    hide ParseNumber;
    assert Pow10(0) == 1;
    if v.Int? {
      assert Scaled(if v.n < 0 then -v.n else v.n, 0) == (if v.n < 0 then -v.n else v.n) as real;
    }
    if v.Bool? {
      assert Scaled(1, 0) == 1.0 && Scaled(0, 0) == 0.0;
    }
  }

  /** Values that are neither objects nor lists are equal when they are the same or have the same numeric value. */
  lemma LeafExact(a: Value, b: Value)
    requires !(a.Obj? && b.Obj?) && !(a.List? && b.List?)
    ensures PyEqual(a, b) <==> a == b || exists x: real :: HasValue(a, x) && HasValue(b, x)
  {
    hide HasValue, Numeric, NumericEqual, Scaled, ParseNumber;
    forall x: real
      ensures HasValue(a, x)
         <==> && IsNumeric(a) && Numeric(a).Some? && Numeric(a).value.Finite?
              && var n := Numeric(a).value;
                 x == if n.neg then -Scaled(n.coeff, n.exp) else Scaled(n.coeff, n.exp)
      ensures HasValue(b, x)
         <==> && IsNumeric(b) && Numeric(b).Some? && Numeric(b).value.Finite?
              && var n := Numeric(b).value;
                 x == if n.neg then -Scaled(n.coeff, n.exp) else Scaled(n.coeff, n.exp)
    {
      ValueExact(a, x);
      ValueExact(b, x);
    }
    if IsNumeric(a) && IsNumeric(b) && Numeric(a).Some? && Numeric(b).Some? {
      EqualOnlyFinite(Numeric(a).value, Numeric(b).value);
      if Numeric(a).value.Finite? && Numeric(b).value.Finite? {
        NumericExact(Numeric(a).value, Numeric(b).value);
        var n := Numeric(a).value;
        assert HasValue(a, if n.neg then -Scaled(n.coeff, n.exp) else Scaled(n.coeff, n.exp));
      }
    }
  }

  lemma EqualOnlyFinite(a: Number, b: Number)
    ensures NumericEqual(a, b) ==> a.Finite? && b.Finite?
  {
  }
}
