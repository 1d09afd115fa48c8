/** Text operations shared by the readers and printers: affixes, decimal digits, `split` and `join`. */
module Text {
  import opened Wrappers

  predicate StartsWith(s: string, prefix: string) {
    prefix <= s
  }

  predicate EndsWith(s: string, suffix: string) {
    |suffix| <= |s| && s[|s| - |suffix|..] == suffix
  }

  function Replace(s: string, from: char, to: char): (r: string)
    ensures |r| == |s|
  {
    seq(|s|, i requires 0 <= i < |s| => if s[i] == from then to else s[i])
  }

  /** `slashed` is `path` with its backslashes turned into slashes. */
  predicate Slashed(path: string, slashed: string) {
    && |slashed| == |path|
    && forall k | 0 <= k < |path| :: slashed[k] == if path[k] == '\\' then '/' else path[k]
  }

  lemma SlashedIff(path: string, file: string)
    ensures Slashed(path, file) <==> file == Replace(path, '\\', '/')
  {
    var r := Replace(path, '\\', '/');
    if Slashed(path, file) {
      assert forall k | 0 <= k < |path| :: file[k] == r[k];
    }
  }

  /** `str.isspace` for one character. */
  predicate IsSpace(c: char) {
    '\U{9}' <= c <= '\U{D}' || '\U{1C}' <= c <= ' ' || c in "\U{85}\U{A0}\U{1680}\U{2028}\U{2029}\U{202F}\U{205F}\U{3000}"
    || '\U{2000}' <= c <= '\U{200A}'
  }

  /** The blanks that `strip` and `isspace` know. */
  const BLANKS := "\t\n\U{B}\U{C}\r\U{1C}\U{1D}\U{1E}\U{1F} \U{85}\U{A0}\U{1680}\U{2000}\U{2001}\U{2002}\U{2003}\U{2004}\U{2005}\U{2006}\U{2007}\U{2008}\U{2009}\U{200A}\U{2028}\U{2029}\U{202F}\U{205F}\U{3000}"

  lemma SpaceExact(c: char)
    ensures IsSpace(c) <==> c in BLANKS
  {
    assert |BLANKS| == 29;
    assert forall i | 0 <= i < 5 :: BLANKS[i] as int == 9 + i;
    assert forall i | 5 <= i < 10 :: BLANKS[i] as int == 0x1C + i - 5;
    assert forall i | 13 <= i < 24 :: BLANKS[i] as int == 0x2000 + i - 13;
    if IsSpace(c) {
      if 9 <= c as int <= 13 {
        assert BLANKS[c as int - 9] == c;
      } else if 0x1C <= c as int <= 0x20 {
        assert BLANKS[c as int - 0x1C + 5] == c;
      } else if 0x2000 <= c as int <= 0x200A {
        assert BLANKS[c as int - 0x2000 + 13] == c;
      } else {
        assert BLANKS[10] == '\U{85}' && BLANKS[11] == '\U{A0}' && BLANKS[12] == '\U{1680}' && BLANKS[24] == '\U{2028}';
        assert BLANKS[25] == '\U{2029}' && BLANKS[26] == '\U{202F}' && BLANKS[27] == '\U{205F}' && BLANKS[28] == '\U{3000}';
      }
    }
  }

  function StripLeft(s: string): string {
    if s != "" && IsSpace(s[0]) then StripLeft(s[1..]) else s
  }

  function StripRight(s: string): string {
    if s != "" && IsSpace(s[|s| - 1]) then StripRight(s[..|s| - 1]) else s
  }

  /** `s.strip()` */
  function Strip(s: string): string {
    StripRight(StripLeft(s))
  }

  lemma {:induction false} StripLeftExact(s: string)
    ensures |StripLeft(s)| <= |s| && s[|s| - |StripLeft(s)|..] == StripLeft(s)
    ensures forall i | 0 <= i < |s| - |StripLeft(s)| :: IsSpace(s[i])
    ensures StripLeft(s) != "" ==> !IsSpace(StripLeft(s)[0])
  {
    hide IsSpace;
    if s == "" {
      assert StripLeft(s) == s;
    } else if IsSpace(s[0]) {
      StripLeftExact(s[1..]);
    }
  }

  lemma {:induction false} StripRightExact(s: string)
    ensures StripRight(s) <= s && forall i | |StripRight(s)| <= i < |s| :: IsSpace(s[i])
    ensures StripRight(s) != "" ==> !IsSpace(StripRight(s)[|StripRight(s)| - 1])
  {
    hide IsSpace;
    if s == "" {
      assert StripRight(s) == s;
    } else if IsSpace(s[|s| - 1]) {
      StripRightExact(s[..|s| - 1]);
    }
  }

  /** `strip` takes off all blanks on both sides, and nothing else. */
  lemma StripExact(s: string) returns (before: string, after: string)
    ensures s == before + Strip(s) + after
    ensures (forall i | 0 <= i < |before| :: IsSpace(before[i])) && (forall i | 0 <= i < |after| :: IsSpace(after[i]))
    ensures Strip(s) != "" ==> !IsSpace(Strip(s)[0]) && !IsSpace(Strip(s)[|Strip(s)| - 1])
  {
    var left := StripLeft(s);
    StripLeftExact(s);
    StripRightExact(left);
    before, after := s[..|s| - |left|], left[|Strip(s)|..];
  }

  lemma BlankIff(s: string)
    ensures Strip(s) == "" <==> forall i | 0 <= i < |s| :: IsSpace(s[i])
  {
    hide IsSpace, Strip;
    var before, after := StripExact(s);
    if Strip(s) == "" {
      assert forall i | 0 <= i < |s| :: s[i] == if i < |before| then before[i] else after[i - |before|];
    } else {
      assert s[|before|] == Strip(s)[0];
    }
  }

  // ----- decimal digits -----

  predicate IsDigit(c: char) {
    '0' <= c <= '9'
  }

  predicate AllDigits(s: string) {
    forall i | 0 <= i < |s| :: IsDigit(s[i])
  }

  function DigitValue(c: char): (d: nat)
    requires IsDigit(c)
    ensures d < 10
  {
    c as int - '0' as int
  }

  function DigitChar(d: nat): (c: char)
    requires d < 10
    ensures IsDigit(c) && DigitValue(c) == d
  {
    ('0' as int + d) as char
  }

  /** `int(s)` for a string of decimal digits. */
  function NatOf(s: string): nat
    requires AllDigits(s)
  {
    if s == "" then 0 else NatOf(s[..|s| - 1]) * 10 + DigitValue(s[|s| - 1])
  }

  /** `str(n)`. */
  function Digits(n: nat): (s: string)
    ensures s != "" && AllDigits(s)
  {
    if n < 10 then [DigitChar(n)] else Digits(n / 10) + [DigitChar(n % 10)]
  }

  lemma {:induction false} NatOfDigits(n: nat)
    ensures NatOf(Digits(n)) == n
  {
    var s := Digits(n);
    if n < 10 {
      assert s[..0] == "";
    } else {
      NatOfDigits(n / 10);
      assert s[..|s| - 1] == Digits(n / 10);
    }
  }

  lemma DigitsInjective(m: nat, n: nat)
    requires Digits(m) == Digits(n)
    ensures m == n
  {
    NatOfDigits(m);
    NatOfDigits(n);
  }

  /** `str(n)` for any integer, and its inverse. */
  function ShowInteger(n: int): string {
    if n < 0 then "-" + Digits(-n) else Digits(n)
  }

  function ReadInteger(s: string): Option<int> {
    if s != "" && s[0] == '-' && AllDigits(s[1..]) then Some(-(NatOf(s[1..]) as int))
    else if AllDigits(s) then Some(NatOf(s))
    else None
  }

  lemma ReadShown(n: int)
    ensures Strip(ShowInteger(n)) != "" && ReadInteger(ShowInteger(n)) == Some(n)
  {
    hide Digits, NatOf, IsSpace, Strip;
    var digits := Digits(if n < 0 then -n else n);
    var text := ShowInteger(n);
    NatOfDigits(if n < 0 then -n else n);
    NoSpaceInDigits(digits);
    NotBlank(text);
    if n < 0 {
      assert text[0] == '-' && text[1..] == digits;
    } else {
      assert text[0] == digits[0] != '-';
    }
  }

  lemma NoSpaceInDigits(digits: string)
    requires AllDigits(digits)
    ensures !IsSpace('-') && forall i | 0 <= i < |digits| :: !IsSpace(digits[i])
  {
  }

  lemma NotBlank(text: string)
    requires text != "" && !IsSpace(text[0]) && !IsSpace(text[|text| - 1])
    ensures Strip(text) != ""
  {
  }

  /** The length of the longest all-digit prefix. */
  function DigitRun(s: string): (n: nat)
    ensures n <= |s| && AllDigits(s[..n]) && (n < |s| ==> !IsDigit(s[n]))
  {
    if s == "" || !IsDigit(s[0]) then 0
    else
      var n := 1 + DigitRun(s[1..]);
      assert s[..n] == [s[0]] + s[1..][..n - 1];
      n
  }

  lemma {:induction false} DigitRunOf(digits: string, rest: string)
    requires AllDigits(digits) && (rest != "" ==> !IsDigit(rest[0]))
    ensures DigitRun(digits + rest) == |digits|
  {
    if digits == "" {
      assert digits + rest == rest;
    } else {
      assert (digits + rest)[1..] == digits[1..] + rest;
      DigitRunOf(digits[1..], rest);
    }
  }

  // ----- split and join -----

  /** The position of the first `c`, or |s|. */
  function IndexOf(s: string, c: char): (i: nat)
    ensures i <= |s| && c !in s[..i] && (i < |s| ==> s[i] == c)
  {
    if s == "" || s[0] == c then 0
    else
      var i := 1 + IndexOf(s[1..], c);
      assert s[..i] == [s[0]] + s[1..][..i - 1];
      i
  }

  lemma {:induction false} IndexOfAppend(head: string, c: char, tail: string)
    requires c !in head
    ensures IndexOf(head + [c] + tail, c) == |head|
  {
    var s := head + [c] + tail;
    if head == "" {
    } else {
      assert s[0] == head[0];
      assert head[0] in head;
      assert s[1..] == head[1..] + [c] + tail;
      IndexOfAppend(head[1..], c, tail);
    }
  }

  /** `s.split(c)`: the pieces between the occurrences of `c`; never empty. */
  function Split(s: string, c: char): (pieces: seq<string>)
    ensures |pieces| > 0
  {
    var i := IndexOf(s, c);
    if i == |s| then [s] else [s[..i]] + Split(s[i + 1..], c)
  }

  /** `c.join(pieces)`. */
  function Join(pieces: seq<string>, c: char): string
    requires |pieces| > 0
  {
    if |pieces| == 1 then pieces[0] else pieces[0] + [c] + Join(pieces[1..], c)
  }

  lemma IndexOfAbsent(s: string, c: char)
    requires c !in s
    ensures IndexOf(s, c) == |s|
  {
  }

  lemma SplitOnce(head: string, c: char, tail: string)
    requires c !in head
    ensures Split(head + [c] + tail, c) == [head] + Split(tail, c)
  {
    var s := head + [c] + tail;
    IndexOfAppend(head, c, tail);
    assert s[..|head|] == head && s[|head| + 1..] == tail;
  }

  lemma {:induction false} SplitJoin(pieces: seq<string>, c: char)
    requires |pieces| > 0 && forall i | 0 <= i < |pieces| :: c !in pieces[i]
    ensures Split(Join(pieces, c), c) == pieces
  {
    if |pieces| == 1 {
      IndexOfAbsent(pieces[0], c);
    } else {
      hide Split;
      assert pieces == [pieces[0]] + pieces[1..];
      SplitOnce(pieces[0], c, Join(pieces[1..], c));
      SplitJoin(pieces[1..], c);
    }
  }

  // ----- lexicographic order by code point -----

  predicate LexLe(a: string, b: string) {
    a == "" || (b != "" && (a[0] < b[0] || (a[0] == b[0] && LexLe(a[1..], b[1..]))))
  }

  lemma {:induction false} LexTotal(a: string, b: string)
    ensures LexLe(a, b) || LexLe(b, a)
  {
    if a != "" && b != "" && a[0] == b[0] {
      LexTotal(a[1..], b[1..]);
    }
  }

  lemma {:induction false} LexAntisymmetric(a: string, b: string)
    requires LexLe(a, b) && LexLe(b, a)
    ensures a == b
  {
    if a != "" && b != "" {
      LexAntisymmetric(a[1..], b[1..]);
      assert a == [a[0]] + a[1..] && b == [b[0]] + b[1..];
    }
  }

  lemma {:induction false} LexTransitive(a: string, b: string, c: string)
    requires LexLe(a, b) && LexLe(b, c)
    ensures LexLe(a, c)
  {
    if a != "" && a[0] == b[0] == c[0] {
      LexTransitive(a[1..], b[1..], c[1..]);
    }
  }
}
