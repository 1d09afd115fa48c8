/**
 The strings and values of the lock: `_quote` and `_array` of scripts/dependency_lock_evidence.py, and a
 reader for the forms they produce, after the sections "String", "Integer", "Boolean" and "Array" of
 TOML v1.0.0.
 */
module TomlText {
  import opened Wrappers
  import opened Text

  // ----- `json.dumps(str(value))`, which escapes everything outside printable ASCII -----

  function HexDigit(d: nat): (c: char)
    requires d < 16
  {
    "0123456789abcdef"[d]
  }

  function Hex4(n: nat): (s: string)
    requires n < 0x1_0000
    ensures |s| == 4
  {
    [HexDigit(n / 4096), HexDigit(n / 256 % 16), HexDigit(n / 16 % 16), HexDigit(n % 16)]
  }

  function EscapeUnicode(n: nat): (s: string)
    requires n < 0x1_0000
    ensures |s| == 6
  {
    "\\u" + Hex4(n)
  }

  function EscapeChar(c: char): string {
    if c == '"' then "\\\""
    else if c == '\\' then "\\\\"
    else if c == '\n' then "\\n"
    else if c == '\r' then "\\r"
    else if c == '\t' then "\\t"
    else if c == '\U{C}' then "\\f"
    else if c == '\U{8}' then "\\b"
    else if ' ' <= c <= '~' then [c]
    else
      var n := c as int;
      if n < 0x1_0000 then EscapeUnicode(n)
      else EscapeUnicode(0xD800 + (n - 0x1_0000) / 0x400) + EscapeUnicode(0xDC00 + (n - 0x1_0000) % 0x400)
  }

  function Escape(s: string): string {
    if s == "" then "" else EscapeChar(s[0]) + Escape(s[1..])
  }

  function Quote(s: string): string {
    "\"" + Escape(s) + "\""
  }

  predicate Printable(s: string) {
    forall i | 0 <= i < |s| :: ' ' <= s[i] <= '~'
  }

  lemma {:induction false} HexPrintable(n: nat)
    requires n < 0x1_0000
    ensures Printable(EscapeUnicode(n))
  {
    assert forall d | 0 <= d < 16 :: ' ' <= HexDigit(d) <= '~';
  }

  lemma {:induction false} EscapeCharPrintable(c: char)
    ensures Printable(EscapeChar(c))
  {
    hide EscapeUnicode;
    var n := c as int;
    if n < 0x1_0000 {
      HexPrintable(n);
    } else {
      HexPrintable(0xD800 + (n - 0x1_0000) / 0x400);
      HexPrintable(0xDC00 + (n - 0x1_0000) % 0x400);
    }
  }

  lemma {:induction false} EscapePrintable(s: string)
    ensures Printable(Escape(s))
  {
    if s == "" {
    } else {
      EscapeCharPrintable(s[0]);
      EscapePrintable(s[1..]);
    }
  }

  // ----- reading a basic string -----

  function HexValue(c: char): Option<nat> {
    if '0' <= c <= '9' then Some(c as int - '0' as int)
    else if 'a' <= c <= 'f' then Some(c as int - 'a' as int + 10)
    else if 'A' <= c <= 'F' then Some(c as int - 'A' as int + 10)
    else None
  }

  function HexNumber(s: string): Option<nat> {
    if s == "" then Some(0)
    else
      match (HexNumber(s[..|s| - 1]), HexValue(s[|s| - 1]))
      case (Some(n), Some(d)) => Some(n * 16 + d)
      case _ => None
  }

  /** "Any Unicode character may be escaped"; the escape must denote a scalar value. */
  function Scalar(code: Option<nat>): Option<char> {
    match code
    case None => None
    case Some(n) => if n < 0xD800 || 0xE000 <= n < 0x11_0000 then Some(n as char) else None
  }

  /** One character of a basic string, which does not start with the closing quote, and what follows. */
  function ReadChar(s: string): Option<(char, string)>
    requires s != ""
  {
    if s[0] != '\\' then
      if (s[0] < ' ' && s[0] != '\t') || s[0] == '\U{7F}' then None else Some((s[0], s[1..]))
    else if |s| == 1 then None
    else if s[1] == 'b' then Some(('\U{8}', s[2..]))
    else if s[1] == 't' then Some(('\t', s[2..]))
    else if s[1] == 'n' then Some(('\n', s[2..]))
    else if s[1] == 'f' then Some(('\U{C}', s[2..]))
    else if s[1] == 'r' then Some(('\r', s[2..]))
    else if s[1] == '"' then Some(('"', s[2..]))
    else if s[1] == '\\' then Some(('\\', s[2..]))
    else if s[1] == 'u' && |s| >= 6 then
      match Scalar(HexNumber(s[2..6]))
      case Some(c) => Some((c, s[6..]))
      case None => None
    else if s[1] == 'U' && |s| >= 10 then
      match Scalar(HexNumber(s[2..10]))
      case Some(c) => Some((c, s[10..]))
      case None => None
    else None
  }

  /** The text up to the closing quote, and what follows it. */
  function ReadString(s: string): (r: Option<(string, string)>)
    ensures r.Some? ==> |r.value.1| < |s|
    decreases |s|
  {
    if s == "" then None
    else if s[0] == '"' then Some(("", s[1..]))
    else
      match ReadChar(s)
      case None => None
      case Some((c, rest)) =>
        match ReadString(rest)
        case None => None
        case Some((text, after)) => Some(([c] + text, after))
  }

  /** TOML has no surrogate pairs, so it can only read back what `_quote` writes with one escape. */
  predicate Basic(s: string) {
    forall i | 0 <= i < |s| :: s[i] as int < 0x1_0000
  }

  lemma HexNumberFour(a: char, b: char, c: char, d: char)
    requires HexValue(a).Some? && HexValue(b).Some? && HexValue(c).Some? && HexValue(d).Some?
    ensures HexNumber([a, b, c, d])
         == Some(((HexValue(a).value * 16 + HexValue(b).value) * 16 + HexValue(c).value) * 16 + HexValue(d).value)
  {
    assert [a, b, c, d][..3] == [a, b, c] && [a, b, c][..2] == [a, b] && [a, b][..1] == [a] && [a][..0] == "";
    assert HexNumber([a]) == Some(HexValue(a).value);
    assert HexNumber([a, b]) == Some(HexValue(a).value * 16 + HexValue(b).value);
    assert HexNumber([a, b, c]) == Some((HexValue(a).value * 16 + HexValue(b).value) * 16 + HexValue(c).value);
  }

  lemma HexDigitValue(d: nat)
    requires d < 16
    ensures HexValue(HexDigit(d)) == Some(d)
  {
  }

  lemma HexParts(n: nat)
    requires n < 0x1_0000
    ensures n / 4096 < 16 && ((n / 4096 * 16 + n / 256 % 16) * 16 + n / 16 % 16) * 16 + n % 16 == n
  {
  }

  lemma HexNumberHex4(n: nat)
    requires n < 0x1_0000
    ensures HexNumber(Hex4(n)) == Some(n)
  {
    hide HexNumber, HexDigit, HexValue;
    HexParts(n);
    var a, b, c, d := n / 4096, n / 256 % 16, n / 16 % 16, n % 16;
    HexDigitValue(a);
    HexDigitValue(b);
    HexDigitValue(c);
    HexDigitValue(d);
    HexNumberFour(HexDigit(a), HexDigit(b), HexDigit(c), HexDigit(d));
  }

  lemma ReadUnicode(n: nat, rest: string)
    requires n < 0x1_0000
    ensures ReadChar(EscapeUnicode(n) + rest)
         == match Scalar(Some(n)) case Some(c) => Some((c, rest)) case None => None
  {
    hide Hex4, HexNumber;
    HexNumberHex4(n);
    var s := EscapeUnicode(n) + rest;
    assert s[0] == '\\' && s[1] == 'u' && s[2..6] == Hex4(n) && s[6..] == rest;
  }

  lemma ReadEscapedChar(c: char, rest: string)
    ensures var s := EscapeChar(c) + rest;
            s != "" && s[0] != '"' && ReadChar(s) == if c as int < 0x1_0000 then Some((c, rest)) else None
  {
    hide EscapeUnicode, HexNumber;
    var n := c as int;
    var s := EscapeChar(c) + rest;
    if c in "\"\\\n\r\t\U{C}\U{8}" {
      assert |EscapeChar(c)| == 2 && s[2..] == rest;
    } else if ' ' <= c <= '~' {
      assert s[1..] == rest;
    } else if n < 0x1_0000 {
      ReadUnicode(n, rest);
      EscapeUnicodeHead(n, rest);
    } else {
      var high, low := 0xD800 + (n - 0x1_0000) / 0x400, 0xDC00 + (n - 0x1_0000) % 0x400;
      assert s == EscapeUnicode(high) + (EscapeUnicode(low) + rest);
      ReadUnicode(high, EscapeUnicode(low) + rest);
      EscapeUnicodeHead(high, EscapeUnicode(low) + rest);
    }
  }

  lemma EscapeUnicodeHead(n: nat, rest: string)
    requires n < 0x1_0000
    ensures (EscapeUnicode(n) + rest)[0] == '\\'
  {
  }

  /** A quoted string reads back as itself exactly when it stays in the Basic Multilingual Plane. */
  lemma {:induction false} ReadEscaped(s: string, rest: string)
    ensures ReadString(Escape(s) + "\"" + rest) == if Basic(s) then Some((s, rest)) else None
  {
    hide EscapeChar, ReadChar;
    if s == "" {
      assert (Escape(s) + "\"" + rest)[1..] == rest;
    } else {
      var tail := Escape(s[1..]) + "\"" + rest;
      assert Escape(s) + "\"" + rest == EscapeChar(s[0]) + tail;
      ReadEscapedChar(s[0], tail);
      ReadEscaped(s[1..], rest);
      assert [s[0]] + s[1..] == s;
      assert Basic(s) <==> s[0] as int < 0x1_0000 && Basic(s[1..]) by {
        assert forall i | 0 <= i < |s| - 1 :: s[1..][i] == s[i + 1];
        assert forall i | 1 <= i < |s| :: s[i] == s[1..][i - 1];
      }
    }
  }

  // ----- values -----

  datatype Value = Str(text: string) | Int(n: nat) | Bool(b: bool) | Strings(items: seq<string>)

  predicate Readable(v: Value) {
    match v
    case Str(s) => Basic(s)
    case Strings(items) => forall i | 0 <= i < |items| :: Basic(items[i])
    case _ => true
  }

  /** `", ".join(_quote(value) for value in values)` */
  function PrintItems(items: seq<string>): string {
    if items == [] then ""
    else if |items| == 1 then Quote(items[0])
    else Quote(items[0]) + ", " + PrintItems(items[1..])
  }

  function PrintValue(v: Value): string {
    match v
    case Str(s) => Quote(s)
    case Int(n) => Digits(n)
    case Bool(b) => if b then "true" else "false"
    case Strings(items) => "[" + PrintItems(items) + "]"
  }

  function SkipSpaces(s: string): (r: string)
    ensures |r| <= |s| && (r != "" ==> r[0] != ' ')
  {
    if s != "" && s[0] == ' ' then SkipSpaces(s[1..]) else s
  }

  /** The elements of an array of basic strings, after the opening bracket. */
  function ReadItems(s: string): Option<(seq<string>, string)>
    decreases |s|
  {
    var t := SkipSpaces(s);
    if t == "" then None
    else if t[0] == ']' then Some(([], t[1..]))
    else if t[0] != '"' then None
    else
      match ReadString(t[1..])
      case None => None
      case Some((item, after)) =>
        var u := SkipSpaces(after);
        if u == "" then None
        else if u[0] == ']' then Some(([item], u[1..]))
        else if u[0] != ',' then None
        else
          match ReadItems(u[1..])
          case None => None
          case Some((items, rest)) => Some(([item] + items, rest))
  }

  /** A value that takes the whole of `s`. */
  function ReadValue(s: string): Option<Value> {
    if s == "" then None
    else if s[0] == '"' then
      match ReadString(s[1..])
      case Some((text, rest)) => if rest == "" then Some(Str(text)) else None
      case None => None
    else if s[0] == '[' then
      match ReadItems(s[1..])
      case Some((items, rest)) => if rest == "" then Some(Strings(items)) else None
      case None => None
    else if s == "true" then Some(Bool(true))
    else if s == "false" then Some(Bool(false))
    else if AllDigits(s) && (|s| == 1 || s[0] != '0') then Some(Int(NatOf(s)))
    else None
  }

  lemma QuoteSplit(s: string, rest: string)
    ensures Quote(s) + rest == "\"" + (Escape(s) + "\"" + rest)
    ensures (Quote(s) + rest)[0] == '"' && (Quote(s) + rest)[1..] == Escape(s) + "\"" + rest
  {
  }

  lemma {:induction false} ReadPrintedItems(items: seq<string>)
    ensures ReadItems(PrintItems(items) + "]") == if Readable(Strings(items)) then Some((items, "")) else None
    decreases items
  {
    hide Quote, Escape, ReadString;
    if items == [] {
      assert PrintItems(items) + "]" == "]";
    } else if |items| == 1 {
      QuoteSplit(items[0], "]");
      ReadEscaped(items[0], "]");
      assert items == [items[0]];
      assert PrintItems(items) == Quote(items[0]);
      assert SkipSpaces("]") == "]" && "]"[1..] == "";
    } else {
      var tail := PrintItems(items[1..]) + "]";
      assert PrintItems(items) + "]" == Quote(items[0]) + (", " + tail);
      QuoteSplit(items[0], ", " + tail);
      ReadEscaped(items[0], ", " + tail);
      ReadPrintedItems(items[1..]);
      assert (", " + tail)[0] == ',' && (", " + tail)[1..] == " " + tail;
      ReadItemsSpace(tail);
      assert [items[0]] + items[1..] == items;
      assert Readable(Strings(items)) <==> Basic(items[0]) && Readable(Strings(items[1..])) by {
        assert forall i | 0 <= i < |items| - 1 :: items[1..][i] == items[i + 1];
        assert forall i | 1 <= i < |items| :: items[i] == items[1..][i - 1];
      }
    }
  }

  lemma ReadItemsSpace(s: string)
    ensures ReadItems(" " + s) == ReadItems(s)
  {
  }

  lemma {:induction false} DigitsNoLeadingZero(n: nat)
    ensures |Digits(n)| == 1 || Digits(n)[0] != '0'
    ensures n >= 10 ==> Digits(n)[0] != '0'
  {
    if n >= 10 {
      DigitsNoLeadingZero(n / 10);
      assert n / 10 < 10 ==> Digits(n / 10) == [DigitChar(n / 10)] && DigitValue(DigitChar(n / 10)) == n / 10;
    }
  }

  /** A printed value reads back as itself exactly when its strings stay in the Basic Multilingual Plane. */
  lemma ReadPrintedValue(v: Value)
    ensures ReadValue(PrintValue(v)) == if Readable(v) then Some(v) else None
  {
    hide Quote, Escape, ReadString, ReadItems, PrintItems, Digits, NatOf;
    match v {
      case Str(s) =>
        QuoteSplit(s, "");
        ReadEscaped(s, "");
        assert Quote(s) + "" == Quote(s);
      case Strings(items) =>
        ReadPrintedItems(items);
        assert PrintValue(v)[0] == '[' && PrintValue(v)[1..] == PrintItems(items) + "]";
      case Bool(b) =>
        assert "true"[0] == 't' && "false"[0] == 'f';
      case Int(n) =>
        DigitsNoLeadingZero(n);
        NatOfDigits(n);
        var s := Digits(n);
        assert IsDigit(s[0]);
        assert !IsDigit("true"[0]) && !IsDigit("false"[0]);
    }
  }

  lemma {:induction false} ItemsPrintable(items: seq<string>)
    ensures Printable(PrintItems(items))
  {
    if items == [] {
    } else {
      EscapePrintable(items[0]);
      ItemsPrintable(items[1..]);
    }
  }

  lemma ValuePrintable(v: Value)
    ensures Printable(PrintValue(v))
  {
    match v {
      case Str(s) => EscapePrintable(s);
      case Strings(items) => ItemsPrintable(items);
      case Bool(_) =>
      case Int(n) => assert forall i | 0 <= i < |Digits(n)| :: IsDigit(Digits(n)[i]);
    }
  }
}
