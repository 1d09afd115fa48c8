/** `str.splitlines`, with every boundary that Python knows. */
module TextLines {
  import opened Text

  predicate IsBoundary(c: char) {
    '\n' <= c <= '\r' || '\U{1C}' <= c <= '\U{1E}' || c == '\U{85}' || c == '\U{2028}' || c == '\U{2029}'
  }

  /** The ten characters: line feed to carriage return, three separators, next line, and the Unicode separators. */
  lemma BoundaryExact(c: char)
    ensures IsBoundary(c) <==> c in "\n\U{B}\U{C}\r\U{1C}\U{1D}\U{1E}\U{85}\U{2028}\U{2029}"
  {
    var all := "\n\U{B}\U{C}\r\U{1C}\U{1D}\U{1E}\U{85}\U{2028}\U{2029}";
    assert |all| == 10 && all[0] == '\n' && all[1] == '\U{B}' && all[2] == '\U{C}' && all[3] == '\r';
    assert all[4] == '\U{1C}' && all[5] == '\U{1D}' && all[6] == '\U{1E}' && all[7] == '\U{85}';
    assert all[8] == '\U{2028}' && all[9] == '\U{2029}';
    if IsBoundary(c) {
      assert '\n' as int <= c as int <= '\r' as int || '\U{1C}' as int <= c as int <= '\U{1E}' as int
          || c == '\U{85}' || c == '\U{2028}' || c == '\U{2029}';
    }
  }

  predicate NoBoundary(s: string) {
    forall i | 0 <= i < |s| :: !IsBoundary(s[i])
  }

  /** The position of the first boundary, or |s|. */
  function FirstBoundary(s: string): (i: nat)
    ensures i <= |s| && (forall k | 0 <= k < i :: !IsBoundary(s[k])) && (i < |s| ==> IsBoundary(s[i]))
  {
    if s == "" || IsBoundary(s[0]) then 0 else 1 + FirstBoundary(s[1..])
  }

  /** "\r\n" is one boundary. */
  function BoundaryLength(s: string): (n: nat)
    requires s != ""
    ensures 1 <= n <= |s|
  {
    if |s| > 1 && s[0] == '\r' && s[1] == '\n' then 2 else 1
  }

  function SplitLines(s: string): seq<string>
    decreases |s|
  {
    var i := FirstBoundary(s);
    if i < |s| then [s[..i]] + SplitLines(s[i + BoundaryLength(s[i..])..])
    else if s == "" then []
    else [s]
  }

  /** `line + "\n"` for each line. */
  function TextOf(lines: seq<string>): string {
    if lines == [] then "" else lines[0] + "\n" + TextOf(lines[1..])
  }

  /** What splitting makes of one printed line: more than one piece when a boundary stands inside it. */
  function Pieces(line: string): (pieces: seq<string>)
    ensures pieces != []
  {
    assert IsBoundary((line + "\n")[|line|]);
    SplitLines(line + "\n")
  }

  function AllPieces(lines: seq<string>): seq<string> {
    if lines == [] then [] else Pieces(lines[0]) + AllPieces(lines[1..])
  }

  /** What follows the first piece. */
  function Extras(line: string): seq<string> {
    Pieces(line)[1..]
  }

  // ----- splitting at one boundary -----

  /** One boundary, and not the first half of another. */
  predicate Separates(sep: string, tail: string) {
    sep == "\r\n" || (|sep| == 1 && IsBoundary(sep[0]) && !(sep == "\r" && tail != "" && tail[0] == '\n'))
  }

  lemma SplitParts(head: string, sep: string, tail: string)
    requires NoBoundary(head) && Separates(sep, tail)
    ensures SplitLines(head + sep + tail) == [head] + SplitLines(tail)
  {
    var s := head + sep + tail;
    var i := FirstBoundary(s);
    assert s[|head|] == sep[0];
    assert forall k | 0 <= k < |head| :: s[k] == head[k];
    assert i == |head|;
    assert s[..i] == head && s[i..] == sep + tail;
    SeparatorLength(sep, tail);
    assert s[i + |sep|..] == tail;
  }

  lemma SeparatorLength(sep: string, tail: string)
    requires Separates(sep, tail)
    ensures BoundaryLength(sep + tail) == |sep|
  {
    assert |sep| == 1 && tail != "" ==> (sep + tail)[1] == tail[0];
  }

  lemma SplitEmpty()
    ensures SplitLines("") == []
  {
  }

  /** A text with a boundary, taken apart at the first one. */
  lemma Parts(s: string) returns (head: string, sep: string, tail: string)
    requires !NoBoundary(s)
    ensures s == head + sep + tail && NoBoundary(head) && Separates(sep, tail)
  {
    var i := FirstBoundary(s);
    var n := BoundaryLength(s[i..]);
    head, sep, tail := s[..i], s[i..][..n], s[i..][n..];
    if n == 2 {
      assert sep == "\r\n";
    } else {
      assert sep == [s[i]];
    }
  }

  // ----- printed lines -----

  /** A printed line ends where it was printed to end. */
  lemma {:induction false} SplitLinesAppend(a: string, b: string)
    ensures SplitLines(a + "\n" + b) == SplitLines(a + "\n") + SplitLines(b)
    decreases |a|
  {
    hide *;
    SplitEmpty();
    if NoBoundary(a) {
      LineFeedSeparates(b);
      SplitParts(a, "\n", b);
      LineFeedSeparates("");
      SplitParts(a, "\n", "");
      assert a + "\n" + "" == a + "\n";
    } else {
      var head, sep, tail := Parts(a);
      if sep == "\r" && tail == "" {
        ReturnLineFeed(b);
        SplitParts(head, "\r\n", b);
        ReturnLineFeed("");
        SplitParts(head, "\r\n", "");
        assert a + "\n" == head + "\r\n" + "" && a + "\n" + b == head + "\r\n" + b;
      } else {
        SeparatesStill(sep, tail, "\n" + b);
        SeparatesStill(sep, tail, "\n");
        SplitParts(head, sep, tail + ("\n" + b));
        SplitParts(head, sep, tail + "\n");
        assert a + "\n" + b == head + sep + (tail + ("\n" + b)) && a + "\n" == head + sep + (tail + "\n");
        assert tail + ("\n" + b) == tail + "\n" + b;
        SplitLinesAppend(tail, b);
      }
    }
  }

  lemma LineFeedSeparates(tail: string)
    ensures Separates("\n", tail)
  {
  }

  lemma ReturnLineFeed(tail: string)
    ensures Separates("\r\n", tail)
  {
  }

  lemma SeparatesStill(sep: string, tail: string, more: string)
    requires Separates(sep, tail) && !(sep == "\r" && tail == "")
    ensures Separates(sep, tail + more) && sep != ""
  {
  }

  /** Splitting a printed text splits each of its lines. */
  lemma {:induction false} SplitText(lines: seq<string>)
    ensures SplitLines(TextOf(lines)) == AllPieces(lines)
  {
    hide SplitLines;
    if lines == [] {
      SplitEmpty();
    } else {
      SplitLinesAppend(lines[0], TextOf(lines[1..]));
      SplitText(lines[1..]);
    }
  }

  lemma PlainPiece(line: string)
    requires NoBoundary(line)
    ensures Pieces(line) == [line]
  {
    hide SplitLines;
    LineFeedSeparates("");
    SplitParts(line, "\n", "");
    SplitEmpty();
    assert line + "\n" + "" == line + "\n";
  }

  /** A line may end in a carriage return: it goes with the line feed. */
  lemma ReturnPiece(line: string)
    requires NoBoundary(line)
    ensures Pieces(line + "\r") == [line]
  {
    hide SplitLines;
    ReturnLineFeed("");
    SplitParts(line, "\r\n", "");
    SplitEmpty();
    assert line + "\r\n" + "" == (line + "\r") + "\n";
  }

  /** Lines without boundaries come back as they were printed. */
  lemma {:induction false} SplitPlainText(lines: seq<string>)
    requires forall i | 0 <= i < |lines| :: NoBoundary(lines[i])
    ensures SplitLines(TextOf(lines)) == AllPieces(lines) == lines
  {
    hide SplitLines;
    if lines == [] {
      SplitEmpty();
    } else {
      SplitText(lines);
      SplitPlainText(lines[1..]);
      PlainPiece(lines[0]);
    }
  }

  /** A head without boundaries stays with the first piece. */
  lemma PiecesAfter(head: string, line: string)
    requires NoBoundary(head)
    ensures Pieces(head + line) == [head + Pieces(line)[0]] + Extras(line)
  {
    hide SplitLines;
    var t := line + "\n";
    assert IsBoundary(t[|line|]);
    var first, sep, tail := Parts(t);
    assert (head + line) + "\n" == head + t == head + (first + sep + tail) == (head + first) + sep + tail;
    SplitParts(first, sep, tail);
    SplitParts(head + first, sep, tail);
  }

  lemma {:induction false} AllPiecesAppend(a: seq<string>, b: seq<string>)
    ensures AllPieces(a + b) == AllPieces(a) + AllPieces(b)
    decreases a
  {
    hide Pieces;
    if a == [] {
      assert a + b == b;
    } else {
      assert (a + b)[1..] == a[1..] + b;
      AllPiecesAppend(a[1..], b);
    }
  }

  lemma AllPiecesOne(line: string)
    ensures AllPieces([line]) == Pieces(line)
  {
    assert [line][1..] == [];
  }
}
