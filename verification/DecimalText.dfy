/** Decimal numbers as Python's `decimal` reads, quantizes and formats them in its default context. */
module DecimalText {
  import opened Wrappers
  import opened Text

  /** `Finite` is (-1)^neg * coeff * 10^exp. */
  datatype Number = Finite(neg: bool, coeff: nat, exp: int) | Infinite(neg: bool) | NotANumber(neg: bool, signaling: bool)

  function Pow10(n: nat): (p: nat)
    ensures p > 0
  {
    if n == 0 then 1 else 10 * Pow10(n - 1)
  }

  // ----- Decimal(text) -----

  /** `text.strip().replace("_", "")` */
  function WithoutUnderscores(s: string): string {
    if s == "" then "" else (if s[0] == '_' then "" else [s[0]]) + WithoutUnderscores(s[1..])
  }

  function LowerCase(s: string): string {
    seq(|s|, i requires 0 <= i < |s| => if 'A' <= s[i] <= 'Z' then (s[i] as int + 32) as char else s[i])
  }

  /** The exponent part: nothing, or `E`, an optional sign and digits. */
  function ParseExponent(s: string): Option<int> {
    if s == "" then Some(0)
    else if s[0] != 'e' && s[0] != 'E' then None
    else
      var signed := |s| > 1 && (s[1] == '+' || s[1] == '-');
      var digits := if signed then s[2..] else s[1..];
      if digits == "" || DigitRun(digits) != |digits| then None
      else
        assert digits[..|digits|] == digits;
        var e: int := NatOf(digits);
        Some(if signed && s[1] == '-' then -e else e)
  }

  /** `\d*(\.\d*)?` with at least one digit, then the exponent part. */
  function ParseMagnitude(s: string): Option<(nat, int)> {
    var n := DigitRun(s);
    var rest := s[n..];
    var k := if StartsWith(rest, ".") then DigitRun(rest[1..]) else 0;
    var after := if StartsWith(rest, ".") then rest[1..][k..] else rest;
    var fraction := if StartsWith(rest, ".") then rest[1..][..k] else "";
    if n + k == 0 then None
    else
      match ParseExponent(after)
      case None => None
      case Some(e) => Some((NatOf(s[..n] + fraction), e - k))
  }

  function ParseUnsigned(s: string, neg: bool): Option<Number> {
    var word := LowerCase(s);
    if word == "inf" || word == "infinity" then Some(Infinite(neg))
    else if StartsWith(word, "nan") && DigitRun(word[3..]) == |word| - 3 then Some(NotANumber(neg, false))
    else if StartsWith(word, "snan") && DigitRun(word[4..]) == |word| - 4 then Some(NotANumber(neg, true))
    else
      match ParseMagnitude(s)
      case None => None
      case Some((coeff, exp)) => Some(Finite(neg, coeff, exp))
  }

  function ParseNumber(text: string): Option<Number> {
    var s := WithoutUnderscores(Strip(text));
    if s != "" && (s[0] == '-' || s[0] == '+') then ParseUnsigned(s[1..], s[0] == '-') else ParseUnsigned(s, false)
  }

  // ----- number.quantize(template), rounding half to even -----

  /** `n / d`, rounded half to even. */
  function DivideHalfEven(n: nat, d: nat): nat
    requires d > 0
  {
    var q, r := n / d, n % d;
    if 2 * r < d || (2 * r == d && q % 2 == 0) then q else q + 1
  }

  /** The coefficient of `coeff * 10^exp` at the exponent `target`. */
  function Rescale(coeff: nat, exp: int, target: int): nat {
    if exp >= target then coeff * Pow10(exp - target) else DivideHalfEven(coeff, Pow10(target - exp))
  }

  /** The context's precision: 28 digits. */
  const LIMIT: nat := Pow10(28)

  /** None stands for the InvalidOperation signal. */
  function Quantize(a: Number, template: Number): Option<Number> {
    if a.NotANumber? || template.NotANumber? then
      if (a.NotANumber? && a.signaling) || (template.NotANumber? && template.signaling) then None
      else if a.NotANumber? then Some(a)
      else Some(template)
    else if a.Infinite? || template.Infinite? then
      if a.Infinite? && template.Infinite? then Some(a) else None
    else
      var coeff := Rescale(a.coeff, a.exp, template.exp);
      if coeff >= LIMIT then None else Some(Finite(a.neg, coeff, template.exp))
  }

  /** The quantized value is the nearest multiple of the template's unit, the even one of two that are equally near. */
  lemma RescaleNearest(coeff: nat, exp: int, target: int)
    ensures exp >= target ==> Rescale(coeff, exp, target) == coeff * Pow10(exp - target)
    ensures exp < target ==>
              var unit: int, r: int := Pow10(target - exp), Rescale(coeff, exp, target);
              && -unit <= 2 * (r * unit - coeff) <= unit
              && (2 * (r * unit - coeff) == unit || 2 * (r * unit - coeff) == -unit ==> r % 2 == 0)
  {
    if exp < target {
      HalfEvenNearest(coeff, Pow10(target - exp));
    }
  }

  lemma HalfEvenNearest(n: nat, d: nat)
    requires d > 0
    ensures var r: int, unit: int := DivideHalfEven(n, d), d;
            && -unit <= 2 * (r * unit - n) <= unit
            && (2 * (r * unit - n) == unit || 2 * (r * unit - n) == -unit ==> r % 2 == 0)
  {
    var q, rest := n / d, n % d;
    assert n == q * d + rest;
    assert (q + 1) * d == q * d + d;
  }

  // ----- format(number, "f") -----

  function Zeros(n: nat): (s: string)
    ensures |s| == n && AllDigits(s)
  {
    seq(n, _ => '0')
  }

  /** The digits of `coeff`, zero-padded to more than `places` of them. */
  function Padded(coeff: nat, places: nat): (s: string)
    ensures |s| > places && AllDigits(s)
  {
    var digits := Digits(coeff);
    if |digits| <= places then Zeros(places + 1 - |digits|) + digits else digits
  }

  function FormatMagnitude(coeff: nat, exp: int): string {
    if exp >= 0 then Digits(coeff * Pow10(exp))
    else
      var padded := Padded(coeff, -exp);
      padded[..|padded| + exp] + "." + padded[|padded| + exp..]
  }

  function FormatFixed(n: Number): string {
    (if n.neg then "-" else "")
    + match n
      case Finite(_, coeff, exp) => FormatMagnitude(coeff, exp)
      case Infinite(_) => "Infinity"
      case NotANumber(_, signaling) => if signaling then "sNaN" else "NaN"
  }

  // ----- reading back what was formatted -----

  lemma {:induction false} NatOfZeros(n: nat, s: string)
    requires AllDigits(s)
    ensures AllDigits(Zeros(n) + s) && NatOf(Zeros(n) + s) == NatOf(s)
    decreases |s|, n
  {
    var t := Zeros(n) + s;
    if s != "" {
      assert t[..|t| - 1] == Zeros(n) + s[..|s| - 1];
      NatOfZeros(n, s[..|s| - 1]);
    } else if n > 0 {
      assert t[..|t| - 1] == Zeros(n - 1) + s;
      NatOfZeros(n - 1, s);
    }
  }

  predicate PlainText(s: string) {
    s != "" && forall i | 0 <= i < |s| :: IsDigit(s[i]) || s[i] == '.' || s[i] == '-'
  }

  lemma {:induction false} PlainKeepsUnderscores(s: string)
    requires forall i | 0 <= i < |s| :: s[i] != '_'
    ensures WithoutUnderscores(s) == s
  {
    if s == "" {
    } else {
      PlainKeepsUnderscores(s[1..]);
    }
  }

  lemma PlainCleaned(s: string)
    requires PlainText(s)
    ensures WithoutUnderscores(Strip(s)) == s
  {
    assert !IsSpace(s[0]) && !IsSpace(s[|s| - 1]);
    PlainKeepsUnderscores(s);
  }

  /** Digits, a point and digits parse as written. */
  lemma ParsePointed(whole: string, fraction: string)
    requires AllDigits(whole) && AllDigits(fraction) && whole != ""
    ensures ParseMagnitude(whole + "." + fraction) == Some((NatOf(whole + fraction), -|fraction|))
  {
    var s := whole + "." + fraction;
    var rest := "." + fraction;
    DigitRunOf(whole, rest);
    assert s == whole + rest && s[..|whole|] == whole && s[|whole|..] == rest && rest[1..] == fraction;
    DigitRunOf(fraction, "");
    assert fraction + "" == fraction && fraction[..|fraction|] == fraction && fraction[|fraction|..] == "";
    NoExponent();
    hide NatOf, ParseExponent, DigitRun, AllDigits, IsDigit;
    assert StartsWith(rest, ".");
  }

  lemma NoExponent()
    ensures ParseExponent("") == Some(0)
  {
  }

  lemma ParseWhole(whole: string)
    requires AllDigits(whole) && whole != ""
    ensures ParseMagnitude(whole) == Some((NatOf(whole), 0))
  {
    DigitRunOf(whole, "");
    assert whole + "" == whole;
    assert whole[..|whole|] == whole && whole[|whole|..] == "" && whole + "" == whole;
  }

  lemma ParseDigits(n: nat)
    ensures ParseMagnitude(Digits(n)) == Some((n, 0))
  {
    hide ParseMagnitude, NatOf, Digits;
    NatOfDigits(n);
    ParseWhole(Digits(n));
  }

  lemma ParsePadded(coeff: nat, exp: int)
    requires exp < 0
    ensures ParseMagnitude(FormatMagnitude(coeff, exp)) == Some((coeff, exp))
    ensures PlainText(FormatMagnitude(coeff, exp)) && IsDigit(FormatMagnitude(coeff, exp)[0])
  {
    var whole, fraction := SplitPadded(coeff, exp);
    hide *;
    ParsePointed(whole, fraction);
    PlainPointed(whole, fraction);
  }

  /** The two sides of the decimal point. */
  lemma SplitPadded(coeff: nat, exp: int) returns (whole: string, fraction: string)
    requires exp < 0
    ensures AllDigits(whole) && AllDigits(fraction) && whole != "" && |fraction| == -exp
    ensures AllDigits(whole + fraction) && NatOf(whole + fraction) == coeff
    ensures FormatMagnitude(coeff, exp) == whole + "." + fraction
  {
    hide NatOf, Padded, Pow10, Digits;
    var padded := Padded(coeff, -exp);
    whole, fraction := padded[..|padded| + exp], padded[|padded| + exp..];
    assert whole + fraction == padded;
    PaddedValue(coeff, -exp);
  }

  lemma PlainPointed(whole: string, fraction: string)
    requires AllDigits(whole) && AllDigits(fraction) && whole != ""
    ensures PlainText(whole + "." + fraction) && IsDigit((whole + "." + fraction)[0])
  {
  }

  /** Fixed-point text parses back to the same coefficient and exponent, unless the exponent is positive. */
  lemma ParseFormatMagnitude(coeff: nat, exp: int)
    ensures ParseMagnitude(FormatMagnitude(coeff, exp))
         == Some(if exp <= 0 then (coeff, exp) else (coeff * Pow10(exp), 0))
    ensures PlainText(FormatMagnitude(coeff, exp)) && IsDigit(FormatMagnitude(coeff, exp)[0])
  {
    if exp < 0 {
      ParsePadded(coeff, exp);
    } else {
      assert exp == 0 ==> coeff * Pow10(exp) == coeff;
      hide ParseMagnitude, Pow10, Digits, ParseExponent;
      ParseDigits(coeff * Pow10(exp));
    }
  }

  lemma PaddedValue(coeff: nat, places: nat)
    ensures NatOf(Padded(coeff, places)) == coeff
  {
    hide Digits, NatOf, Zeros;
    var digits := Digits(coeff);
    NatOfDigits(coeff);
    if |digits| <= places {
      NatOfZeros(places + 1 - |digits|, digits);
    }
  }

  lemma PlainIsNoWord(s: string, neg: bool)
    requires s != "" && IsDigit(s[0])
    ensures ParseUnsigned(s, neg)
         == match ParseMagnitude(s) case None => None case Some((c, e)) => Some(Finite(neg, c, e))
  {
    assert LowerCase(s)[0] == s[0];
    assert "inf"[0] == "infinity"[0] == 'i' && "nan"[0] == 'n' && "snan"[0] == 's';
  }

  lemma ParseFormatFixed(neg: bool, coeff: nat, exp: int)
    ensures ParseNumber(FormatFixed(Finite(neg, coeff, exp)))
         == Some(if exp <= 0 then Finite(neg, coeff, exp) else Finite(neg, coeff * Pow10(exp), 0))
  {
    hide FormatMagnitude, ParseMagnitude, ParseUnsigned, Pow10;
    var m := FormatMagnitude(coeff, exp);
    var s := FormatFixed(Finite(neg, coeff, exp));
    ParseFormatMagnitude(coeff, exp);
    PlainIsNoWord(m, neg);
    assert s == if neg then "-" + m else m;
    PlainCleaned(s);
    if neg {
      assert s[0] == '-' && s[1..] == m;
    }
  }

  // ----- what is read -----

  /** An exponent as it is written: `e` or `E`, a sign or none, and digits. */
  datatype Exponent = Absent | Power(letter: char, sign: string, digits: string) {
    predicate Valid() {
      Power? ==> letter in "eE" && sign in ["", "+", "-"] && digits != "" && AllDigits(digits)
    }

    function Print(): string {
      match this
      case Absent => ""
      case Power(letter, sign, digits) => [letter] + sign + digits
    }

    function Value(): int
      requires Valid()
    {
      match this
      case Absent => 0
      case Power(_, sign, digits) => if sign == "-" then -(NatOf(digits) as int) else NatOf(digits)
    }
  }

  lemma ExponentReads(e: Exponent)
    requires e.Valid()
    ensures ParseExponent(e.Print()) == Some(e.Value())
    ensures e.Print() != "" ==> !IsDigit(e.Print()[0]) && e.Print()[0] != '.'
  {
    hide NatOf;
    match e {
      case Absent =>
      case Power(letter, sign, digits) =>
        var s := e.Print();
        assert letter == 'e' || letter == 'E';
        assert sign == "" || sign == "+" || sign == "-";
        DigitRunOf(digits, "");
        assert digits + "" == digits && digits[..|digits|] == digits;
        if sign == "" {
          assert s == [letter] + digits && s[1..] == digits && IsDigit(digits[0]);
        } else {
          assert s[1] == sign[0] && s[2..] == digits;
        }
    }
  }

  lemma PointedReads(whole: string, digits: string, tail: string)
    requires AllDigits(whole) && AllDigits(digits) && whole + digits != "" && (tail != "" ==> !IsDigit(tail[0]))
    requires ParseExponent(tail).Some?
    ensures ParseMagnitude(whole + ("." + digits) + tail)
         == Some((NatOf(whole + digits), ParseExponent(tail).value - |digits|))
  {
    hide NatOf, ParseExponent, Digits, IsDigit;
    var rest := "." + (digits + tail);
    var s := whole + ("." + digits) + tail;
    assert s == whole + rest && !IsDigit(rest[0]) by {
      NoDigitPoint();
    }
    DigitRunOf(whole, rest);
    assert s[..|whole|] == whole && s[|whole|..] == rest && rest[1..] == digits + tail;
    DigitRunOf(digits, tail);
    assert (digits + tail)[..|digits|] == digits && (digits + tail)[|digits|..] == tail;
    assert StartsWith(rest, ".");
    hide DigitRun, AllDigits;
  }

  lemma NoDigitPoint()
    ensures !IsDigit('.')
  {
  }

  lemma UnpointedReads(whole: string, tail: string)
    requires AllDigits(whole) && whole != "" && (tail != "" ==> !IsDigit(tail[0]) && tail[0] != '.')
    requires ParseExponent(tail).Some?
    ensures ParseMagnitude(whole + tail) == Some((NatOf(whole), ParseExponent(tail).value))
  {
    hide NatOf, ParseExponent, Digits, IsDigit;
    var s := whole + tail;
    DigitRunOf(whole, tail);
    assert s[..|whole|] == whole && s[|whole|..] == tail && whole + "" == whole;
    assert !StartsWith(tail, ".");
    hide DigitRun, AllDigits;
  }

  /** The part of a number before its exponent. */
  function Unsigned(whole: string, fraction: Option<string>): string {
    whole + match fraction case None => "" case Some(digits) => "." + digits
  }

  function FractionDigits(fraction: Option<string>): string {
    match fraction case None => "" case Some(digits) => digits
  }

  /** A number without its sign: digits, perhaps a point and more digits, and an exponent. */
  lemma MagnitudeReads(whole: string, fraction: Option<string>, e: Exponent)
    requires AllDigits(whole) && AllDigits(FractionDigits(fraction)) && whole + FractionDigits(fraction) != "" && e.Valid()
    ensures AllDigits(whole + FractionDigits(fraction))
    ensures ParseMagnitude(Unsigned(whole, fraction) + e.Print())
         == Some((NatOf(whole + FractionDigits(fraction)), e.Value() - |FractionDigits(fraction)|))
  {
    hide NatOf, ParseExponent, Digits, ParseMagnitude, AllDigits;
    DigitsTogether(whole, FractionDigits(fraction));
    ExponentReads(e);
    match fraction {
      case None =>
        assert whole + "" == whole;
        UnpointedReads(whole, e.Print());
      case Some(digits) =>
        PointedReads(whole, digits, e.Print());
    }
  }

  lemma DigitsTogether(a: string, b: string)
    requires AllDigits(a) && AllDigits(b)
    ensures AllDigits(a + b)
  {
  }

  /** Blanks around a number do not matter, nor does a plus sign. */
  lemma SignedReads(before: string, sign: string, magnitude: string, after: string)
    requires (forall i | 0 <= i < |before| :: IsSpace(before[i])) && (forall i | 0 <= i < |after| :: IsSpace(after[i]))
    requires sign in ["", "+", "-"] && magnitude != "" && '_' !in magnitude
    requires !IsSpace(magnitude[0]) && !IsSpace(magnitude[|magnitude| - 1]) && magnitude[0] != '-' && magnitude[0] != '+'
    ensures ParseNumber(before + sign + magnitude + after) == ParseUnsigned(magnitude, sign == "-")
  {
    var core := sign + magnitude;
    assert sign == "" || sign == "+" || sign == "-";
    assert !IsSpace('+') && !IsSpace('-');
    hide IsSpace, ParseUnsigned, Strip;
    assert before + sign + magnitude + after == before + core + after;
    StripsTo(before, core, after);
    assert '_' !in core;
    PlainKeepsUnderscores(core);
    if sign == "" {
      assert core == magnitude;
    } else {
      assert core[0] == sign[0] && core[1..] == magnitude;
    }
  }

  lemma {:induction false} StripsTo(before: string, s: string, after: string)
    requires (forall i | 0 <= i < |before| :: IsSpace(before[i])) && (forall i | 0 <= i < |after| :: IsSpace(after[i]))
    requires s != "" && !IsSpace(s[0]) && !IsSpace(s[|s| - 1])
    ensures Strip(before + s + after) == s
    decreases |before| + |after|
  {
    hide IsSpace;
    var text := before + s + after;
    if before != "" {
      assert text[1..] == before[1..] + s + after && text[0] == before[0];
      StripsTo(before[1..], s, after);
    } else {
      assert text == s + after && StripLeft(text) == text;
      StripsRight(s, after);
    }
  }

  lemma {:induction false} StripsRight(s: string, after: string)
    requires (forall i | 0 <= i < |after| :: IsSpace(after[i])) && s != "" && !IsSpace(s[|s| - 1])
    ensures StripRight(s + after) == s
  {
    hide IsSpace;
    if after == "" {
      assert s + after == s;
    } else {
      var text := s + after;
      assert text[|text| - 1] == after[|after| - 1] && text[..|text| - 1] == s + after[..|after| - 1];
      StripsRight(s, after[..|after| - 1]);
    }
  }

  /** A written number reads as its digits, moved by its exponent. */
  lemma WrittenReads(before: string, sign: string, whole: string, fraction: Option<string>, e: Exponent, after: string)
    requires (forall i | 0 <= i < |before| :: IsSpace(before[i])) && (forall i | 0 <= i < |after| :: IsSpace(after[i]))
    requires sign in ["", "+", "-"] && e.Valid()
    requires AllDigits(whole) && AllDigits(FractionDigits(fraction)) && whole + FractionDigits(fraction) != ""
    ensures AllDigits(whole + FractionDigits(fraction))
    ensures ParseNumber(before + sign + (Unsigned(whole, fraction) + e.Print()) + after)
         == Some(Finite(sign == "-", NatOf(whole + FractionDigits(fraction)), e.Value() - |FractionDigits(fraction)|))
  {
    hide *;
    var magnitude := Unsigned(whole, fraction) + e.Print();
    MagnitudeReads(whole, fraction, e);
    MagnitudeShape(whole, fraction, e);
    SignedReads(before, sign, magnitude, after);
    NotAWord(magnitude, sign == "-");
  }

  lemma MagnitudeShape(whole: string, fraction: Option<string>, e: Exponent)
    requires AllDigits(whole) && AllDigits(FractionDigits(fraction)) && whole + FractionDigits(fraction) != "" && e.Valid()
    ensures var s := Unsigned(whole, fraction) + e.Print();
            && s != "" && '_' !in s && (IsDigit(s[0]) || s[0] == '.') && s[0] != '-' && s[0] != '+'
            && !IsSpace(s[0]) && !IsSpace(s[|s| - 1])
  {
    var body := Unsigned(whole, fraction);
    assert body != "" && forall i | 0 <= i < |body| :: IsDigit(body[i]) || body[i] == '.';
    hide *;
    ExponentShape(e);
    BodyShape(body, e.Print());
  }

  lemma ExponentShape(e: Exponent)
    requires e.Valid()
    ensures '_' !in e.Print() && (e.Print() != "" ==> IsDigit(e.Print()[|e.Print()| - 1]))
  {
    if e.Power? {
      assert e.letter == 'e' || e.letter == 'E';
      assert e.sign == "" || e.sign == "+" || e.sign == "-";
      assert e.Print()[|e.Print()| - 1] == e.digits[|e.digits| - 1];
    }
  }

  lemma BodyShape(body: string, tail: string)
    requires body != "" && forall i | 0 <= i < |body| :: IsDigit(body[i]) || body[i] == '.'
    requires '_' !in tail && (tail != "" ==> IsDigit(tail[|tail| - 1]))
    ensures var s := body + tail;
            && s != "" && '_' !in s && (IsDigit(s[0]) || s[0] == '.') && s[0] != '-' && s[0] != '+'
            && !IsSpace(s[0]) && !IsSpace(s[|s| - 1])
  {
    var s := body + tail;
    assert s[0] == body[0];
    if tail == "" {
      assert s == body;
    } else {
      assert s[|s| - 1] == tail[|tail| - 1];
    }
  }

  lemma NotAWord(s: string, neg: bool)
    requires s != "" && (IsDigit(s[0]) || s[0] == '.')
    ensures ParseUnsigned(s, neg)
         == match ParseMagnitude(s) case None => None case Some((c, e)) => Some(Finite(neg, c, e))
  {
    assert LowerCase(s)[0] == s[0];
    assert "inf"[0] == "infinity"[0] == 'i' && "nan"[0] == 'n' && "snan"[0] == 's';
  }

  /** The words: infinities, and not-a-number with a payload of digits, in any case. */
  lemma WordReads(s: string, digits: string, neg: bool)
    requires AllDigits(digits)
    ensures LowerCase(s) == "inf" || LowerCase(s) == "infinity" ==> ParseUnsigned(s, neg) == Some(Infinite(neg))
    ensures LowerCase(s) == "nan" + digits ==> ParseUnsigned(s, neg) == Some(NotANumber(neg, false))
    ensures LowerCase(s) == "snan" + digits ==> ParseUnsigned(s, neg) == Some(NotANumber(neg, true))
  {
    hide ParseMagnitude;
    var word := LowerCase(s);
    assert "inf"[0] == "infinity"[0] == 'i' && "nan"[0] == 'n' && "snan"[0] == 's';
    DigitRunOf(digits, "");
    assert digits + "" == digits;
    if word == "nan" + digits {
      assert word[0] == 'n' && word[3..] == digits && StartsWith(word, "nan");
    }
    if word == "snan" + digits {
      assert word[0] == 's' && word[4..] == digits && StartsWith(word, "snan");
    }
  }

  /** A capital letter reads like its lower-case letter. */
  lemma LowerCaseExact(s: string, i: nat)
    requires i < |s|
    ensures 'A' <= s[i] <= 'Z' ==> 'a' <= LowerCase(s)[i] <= 'z' && LowerCase(s)[i] as int - 'a' as int == s[i] as int - 'A' as int
    ensures !('A' <= s[i] <= 'Z') ==> LowerCase(s)[i] == s[i]
  {
  }

  /** Underscores inside a text are passed over. */
  lemma {:induction false} UnderscoreIgnored(a: string, b: string)
    ensures WithoutUnderscores(a + "_" + b) == WithoutUnderscores(a + b)
  {
    if a == "" {
      assert a + "_" + b == "_" + b && a + b == b && ("_" + b)[1..] == b;
    } else {
      assert (a + "_" + b)[1..] == a[1..] + "_" + b && (a + b)[1..] == a[1..] + b;
      UnderscoreIgnored(a[1..], b);
    }
  }
}
