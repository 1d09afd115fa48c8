/** Compound license terms, as scripts/license_ip_evidence.py takes them apart. */
module LicenseTerms {
  import opened Text

  function SpaceRun(s: string): (n: nat)
    ensures n <= |s|
  {
    if s != "" && IsSpace(s[0]) then 1 + SpaceRun(s[1..]) else 0
  }

  function OperatorWord(s: string): (n: nat)
    ensures n <= |s|
  {
    if StartsWith(s, "AND") then 3 else if StartsWith(s, "OR") then 2 else if StartsWith(s, "WITH") then 4 else 0
  }

  predicate IsParenthesis(c: char) {
    c == '(' || c == ')'
  }

  /** The length of `\s+(AND|OR|WITH)\s+` or `[()]` at the start of `s`, 0 when there is none. */
  function OperatorLength(s: string): (n: nat)
    ensures n <= |s|
  {
    if s != "" && IsParenthesis(s[0]) then 1
    else
      var before := SpaceRun(s);
      var word := OperatorWord(s[before..]);
      var after := SpaceRun(s[before + word..]);
      if before == 0 || word == 0 || after == 0 then 0 else before + word + after
  }

  /** `LICENSE_OPERATOR_RE.split`, with the piece read so far. */
  function SplitTerms(s: string, piece: string): seq<string>
    decreases |s|
  {
    if s == "" then [piece]
    else
      var n := OperatorLength(s);
      if n == 0 then SplitTerms(s[1..], piece + [s[0]]) else [piece] + SplitTerms(s[n..], "")
  }

  /** The pieces that are left after stripping and dropping the empty ones. */
  function Stripped(pieces: seq<string>): seq<string> {
    if pieces == [] then []
    else (if Strip(pieces[0]) == "" then [] else [Strip(pieces[0])]) + Stripped(pieces[1..])
  }

  /** `_all_license_terms_allowed` */
  predicate AllTermsAllowed(term: string, allowed: set<string>) {
    var parts := Stripped(SplitTerms(term, ""));
    parts != [] && forall i | 0 <= i < |parts| :: parts[i] in allowed
  }

  // ----- license expressions -----

  /** An expression such as `(A OR B) AND C`. */
  datatype Expression =
    | Term(name: string)
    | Compound(left: Expression, operator: string, right: Expression)
    | Group(inner: Expression)
  {
    function Print(): string {
      match this
      case Term(name) => name
      case Compound(left, operator, right) => left.Print() + (" " + operator + " " + right.Print())
      case Group(inner) => "(" + (inner.Print() + ")")
    }

    predicate WellFormed() {
      match this
      case Term(name) => SimpleTerm(name)
      case Compound(left, operator, right) => operator in ["AND", "OR", "WITH"] && left.WellFormed() && right.WellFormed()
      case Group(inner) => inner.WellFormed()
    }

    /** The license terms, from left to right. */
    function Terms(): seq<string> {
      match this
      case Term(name) => [name]
      case Compound(left, _, right) => left.Terms() + right.Terms()
      case Group(inner) => inner.Terms()
    }
  }

  /** A word of the text: blanks or nothing on both sides. */
  predicate IsWord(s: string, i: nat, j: nat)
    requires i <= j <= |s|
  {
    (i == 0 || IsSpace(s[i - 1])) && (j == |s| || IsSpace(s[j]))
  }

  /** A license term, such as "BSD 2-Clause License": not blank on either side, no parentheses, and none of its words an operator. */
  predicate SimpleTerm(s: string) {
    && s != "" && !IsSpace(s[0]) && !IsSpace(s[|s| - 1])
    && (forall i | 0 <= i < |s| :: !IsParenthesis(s[i]))
    && (forall i, j | 0 <= i <= j <= |s| && IsWord(s, i, j) :: s[i..j] !in ["AND", "OR", "WITH"])
  }

  /** One word: no blanks, no parentheses, and no operator. */
  predicate PlainWord(s: string) {
    s != "" && s !in ["AND", "OR", "WITH"] && forall i | 0 <= i < |s| :: !IsSpace(s[i]) && !IsParenthesis(s[i])
  }

  lemma WordIsTerm(word: string)
    requires PlainWord(word)
    ensures SimpleTerm(word)
  {
    hide IsSpace, IsParenthesis;
    assert word[0..|word|] == word;
    forall i, j | 0 <= i <= j <= |word| && IsWord(word, i, j)
      ensures word[i..j] !in ["AND", "OR", "WITH"]
    {
      assert i == 0 || i == |word|;
    }
  }

  lemma BlankIsSpace()
    ensures IsSpace(' ') && !IsParenthesis(' ')
  {
  }

  /** Words separated by a blank make a term. */
  lemma WordsAreTerm(term: string, word: string)
    requires SimpleTerm(term) && PlainWord(word)
    ensures SimpleTerm(term + " " + word)
  {
    hide IsSpace, IsParenthesis;
    BlankIsSpace();
    var s := term + " " + word;
    assert s[|term|] == ' ' && s[|term| + 1..] == word;
    forall i, j | 0 <= i <= j <= |s| && IsWord(s, i, j)
      ensures s[i..j] !in ["AND", "OR", "WITH"]
    {
      if j <= |term| {
        assert IsWord(term, i, j) && s[i..j] == term[i..j];
      } else if i <= |term| {
        assert s[i..j][|term| - i] == ' ';
      } else {
        assert i == |term| + 1 || i == |s|;
        assert s[i..j] == "" || s[i..j] == word;
      }
    }
  }

  /** What can follow a term. */
  predicate Ends(rest: string) {
    rest == "" || rest[0] == ' ' || rest[0] == ')'
  }

  lemma {:induction false} SpaceRunExact(s: string)
    ensures forall i | 0 <= i < SpaceRun(s) :: IsSpace(s[i])
    ensures SpaceRun(s) < |s| ==> !IsSpace(s[SpaceRun(s)])
  {
    hide IsSpace;
    if s == "" || !IsSpace(s[0]) {
      assert SpaceRun(s) == 0;
    } else {
      SpaceRunExact(s[1..]);
    }
  }

  lemma OperatorWordExact(s: string)
    ensures OperatorWord(s) > 0 ==> s[..OperatorWord(s)] in ["AND", "OR", "WITH"]
    ensures OperatorWord(s) > 0 ==> forall i | 0 <= i < OperatorWord(s) :: s[i] != ' ' && s[i] != ')'
  {
    var words := ["AND", "OR", "WITH"];
    assert words[0] == "AND" && words[1] == "OR" && words[2] == "WITH";
    assert StartsWith(s, "AND") ==> s[..3] == words[0];
    assert StartsWith(s, "OR") ==> s[..2] == words[1];
    assert StartsWith(s, "WITH") ==> s[..4] == words[2];
    assert OperatorWord(s) > 0 ==> s[..OperatorWord(s)] in words;
    assert forall i | 0 <= i < OperatorWord(s) :: s[i] == s[..OperatorWord(s)][i];
    assert forall i | 0 <= i < 3 :: "AND"[i] != ' ' && "AND"[i] != ')';
    assert forall i | 0 <= i < 2 :: "OR"[i] != ' ' && "OR"[i] != ')';
    assert forall i | 0 <= i < 4 :: "WITH"[i] != ' ' && "WITH"[i] != ')';
  }

  /** No operator starts inside a term. */
  lemma InsideTerm(name: string, k: nat, rest: string)
    requires SimpleTerm(name) && k < |name| && Ends(rest)
    ensures OperatorLength(name[k..] + rest) == 0
  {
    hide IsSpace, OperatorWord, IsParenthesis;
    var s := name[k..] + rest;
    var before := SpaceRun(s);
    SpaceRunExact(s);
    assert forall i | 0 <= i < |name| - k :: s[i] == name[k + i];
    assert s[|name| - 1 - k] == name[|name| - 1];
    assert before < |name| - k;
    if before > 0 && OperatorWord(s[before..]) > 0 {
      var word, tail := OperatorWord(s[before..]), s[before..];
      var i, j := k + before, k + before + word;
      OperatorWordExact(tail);
      assert rest != "" ==> tail[|name| - i] == rest[0];
      assert j <= |name|;
      assert name[i..j] == tail[..word];
      assert IsSpace(s[before - 1]) && s[before - 1] == name[i - 1];
      assert !IsWord(name, i, j);
      assert s[before + word..][0] == name[j];
      assert SpaceRun(s[before + word..]) == 0;
    }
  }

  lemma {:induction false} SplitSimple(name: string, k: nat, rest: string, piece: string)
    requires SimpleTerm(name) && k <= |name| && Ends(rest)
    ensures SplitTerms(name[k..] + rest, piece) == SplitTerms(rest, piece + name[k..])
    decreases |name| - k
  {
    hide SimpleTerm, Ends, OperatorLength;
    if k == |name| {
      assert name[k..] + rest == rest && piece + name[k..] == piece;
    } else {
      var s := name[k..] + rest;
      InsideTerm(name, k, rest);
      assert s[1..] == name[k + 1..] + rest;
      SplitSimple(name, k + 1, rest, piece + [s[0]]);
      assert piece + [s[0]] + name[k + 1..] == piece + name[k..];
    }
  }

  lemma OperatorAt(operator: string, rest: string)
    requires operator in ["AND", "OR", "WITH"] && rest != "" && !IsSpace(rest[0])
    ensures OperatorLength(" " + operator + " " + rest) == |operator| + 2
  {
    var s := " " + operator + " " + rest;
    assert IsSpace(' ') && s[0] == ' ' && s[1..] == operator + " " + rest;
    assert s[1] == operator[0] && !IsSpace('A') && !IsSpace('O') && !IsSpace('W');
    assert SpaceRun(s[1..]) == 0;
    assert SpaceRun(s) == 1;
    assert operator <= s[1..];
    assert "AND"[0] == 'A' && "OR"[0] == 'O' && "WITH"[0] == 'W';
    assert OperatorWord(s[1..]) == |operator|;
    var tail := s[1 + |operator|..];
    assert tail == " " + rest && tail[1..] == rest;
    assert SpaceRun(tail) == 1 + SpaceRun(rest) == 1;
  }

  lemma SplitHere(s: string, piece: string)
    requires OperatorLength(s) > 0
    ensures SplitTerms(s, piece) == [piece] + SplitTerms(s[OperatorLength(s)..], "")
  {
  }

  lemma SplitOperator(operator: string, rest: string, piece: string)
    requires operator in ["AND", "OR", "WITH"] && rest != "" && !IsSpace(rest[0])
    ensures SplitTerms(" " + operator + " " + rest, piece) == [piece] + SplitTerms(rest, "")
  {
    hide OperatorLength, SplitTerms;
    OperatorAt(operator, rest);
    SplitHere(" " + operator + " " + rest, piece);
    assert (" " + operator + " " + rest)[|operator| + 2..] == rest;
  }

  lemma SplitParenthesis(c: char, rest: string, piece: string)
    requires IsParenthesis(c)
    ensures SplitTerms([c] + rest, piece) == [piece] + SplitTerms(rest, "")
  {
    assert ([c] + rest)[1..] == rest;
  }

  /** What is left of a piece: nothing when it is empty. */
  function Left(piece: string): seq<string> {
    if piece == "" then [] else [piece]
  }

  lemma StrippedFirst(piece: string, pieces: seq<string>)
    requires piece == "" || SimpleTerm(piece)
    ensures Stripped([piece] + pieces) == Left(piece) + Stripped(pieces)
  {
    assert ([piece] + pieces)[1..] == pieces;
    if piece != "" {
      assert !IsSpace(piece[0]) && !IsSpace(piece[|piece| - 1]);
      assert Strip(piece) == piece;
    }
  }

  lemma {:induction false} PrintStart(e: Expression)
    requires e.WellFormed()
    ensures e.Print() != "" && !IsSpace(e.Print()[0])
  {
    match e {
      case Term(name) => assert !IsSpace(name[0]);
      case Compound(left, _, _) => PrintStart(left);
      case Group(_) => assert !IsSpace('(');
    }
  }

  /** Reading an expression completes all its terms but the one that may still be going on. */
  lemma {:induction false} SplitExpression(e: Expression, rest: string) returns (done: seq<string>, piece: string)
    requires e.WellFormed() && Ends(rest)
    ensures Stripped(SplitTerms(e.Print() + rest, "")) == done + Stripped(SplitTerms(rest, piece))
    ensures done + Left(piece) == e.Terms() && (piece == "" || SimpleTerm(piece))
    decreases e
  {
    hide SplitTerms, Stripped, IsSpace, OperatorLength, SimpleTerm;
    match e {
      case Term(name) =>
        TermNotEmpty(name);
        SplitSimple(name, 0, rest, "");
        assert name[0..] == name && "" + name == name;
        done, piece := [], name;
      case Compound(left, operator, right) =>
        var tail := " " + operator + " " + (right.Print() + rest);
        assert e.Print() + rest == left.Print() + tail;
        var done1, piece1 := SplitExpression(left, tail);
        var done2, piece2 := SplitExpression(right, rest);
        PrintStart(right);
        assert (right.Print() + rest)[0] == right.Print()[0];
        assert e.Terms() == left.Terms() + right.Terms();
        hide *;
        SplitOperator(operator, right.Print() + rest, piece1);
        StrippedFirst(piece1, SplitTerms(right.Print() + rest, ""));
        done, piece := done1 + Left(piece1) + done2, piece2;
        assert done + Left(piece) == (done1 + Left(piece1)) + (done2 + Left(piece2));
      case Group(inner) =>
        var tail := ")" + rest;
        assert e.Print() + rest == "(" + (inner.Print() + tail);
        assert e.Terms() == inner.Terms();
        var done1, piece1 := SplitExpression(inner, tail);
        SplitGroup(inner.Print(), rest, done1, piece1);
        done, piece := done1 + Left(piece1), "";
        assert done + Left(piece) == inner.Terms();
    }
  }

  /** Parentheses complete the terms inside them. */
  lemma SplitGroup(inner: string, rest: string, done: seq<string>, piece: string)
    requires Stripped(SplitTerms(inner + (")" + rest), "")) == done + Stripped(SplitTerms(")" + rest, piece))
    requires piece == "" || SimpleTerm(piece)
    ensures Stripped(SplitTerms("(" + (inner + (")" + rest)), "")) == done + Left(piece) + Stripped(SplitTerms(rest, ""))
  {
    hide SplitTerms, Stripped, SimpleTerm;
    SplitParenthesis('(', inner + (")" + rest), "");
    StrippedFirst("", SplitTerms(inner + (")" + rest), ""));
    SplitParenthesis(')', rest, piece);
    StrippedFirst(piece, SplitTerms(rest, ""));
  }

  lemma TermNotEmpty(name: string)
    requires SimpleTerm(name)
    ensures name != "" && Left(name) == [name] && [] + [name] == [name]
  {
  }

  lemma {:induction false} TermsNotEmpty(e: Expression)
    ensures e.Terms() != []
  {
    match e {
      case Term(_) =>
      case Compound(left, _, _) => TermsNotEmpty(left);
      case Group(inner) => TermsNotEmpty(inner);
    }
  }

  /** A license expression is allowed exactly when each of its terms is, whatever its operators and parentheses. */
  lemma ExpressionAllowedIff(e: Expression, allowed: set<string>)
    requires e.WellFormed()
    ensures AllTermsAllowed(e.Print(), allowed) <==> forall i | 0 <= i < |e.Terms()| :: e.Terms()[i] in allowed
  {
    hide Strip, IsSpace, OperatorLength, SimpleTerm;
    var done, piece := SplitExpression(e, "");
    assert e.Print() + "" == e.Print();
    assert SplitTerms("", piece) == [piece] + [];
    StrippedFirst(piece, []);
    TermsNotEmpty(e);
    assert done + (Left(piece) + []) == e.Terms();
  }
}
