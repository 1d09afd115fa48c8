/** Package names and requirements, as `packaging` presents them to the scripts. */
module Packaging {
  import opened Wrappers

  /**
   A parsed requirement.  `extras` is `tuple(sorted(requirement.extras))`; a marker is kept as text
   and evaluated by an `Environment`.
   */
  datatype Requirement = Requirement(name: string, extras: seq<string>, marker: Option<string>)

  /** `marker.evaluate({"extra": extra})`. */
  type Environment = (string, string) -> bool

  // ----- canonical names -----

  predicate IsSeparator(c: char) {
    c == '-' || c == '_' || c == '.'
  }

  function Lower(c: char): (r: char)
    ensures !('A' <= r <= 'Z') && (IsSeparator(r) <==> IsSeparator(c))
  {
    if 'A' <= c <= 'Z' then (c as int + 32) as char else c
  }

  /** `canonicalize_name`: runs of separators become one '-', letters become lower case. */
  function Canonical(name: string): string {
    CanonicalFrom(name, false)
  }

  /** `inRun` says that the character before `name` was a separator. */
  function CanonicalFrom(name: string, inRun: bool): string {
    if name == "" then ""
    else if IsSeparator(name[0]) then
      (if inRun then "" else "-") + CanonicalFrom(name[1..], true)
    else [Lower(name[0])] + CanonicalFrom(name[1..], false)
  }

  // ----- when two names are the same -----

  /** `x` and `y` differ in the case of one letter, in one separator, or in the length of a run of separators. */
  predicate Interchangeable(x: string, y: string) {
    || (|x| == 1 && |y| == 1 && 'A' <= x[0] <= 'Z' && y[0] as int == x[0] as int + 32)
    || (|x| == 1 && |y| == 1 && x[0] in "-_." && y[0] in "-_.")
    || (|x| == 2 && |y| == 1 && x[0] in "-_." && x[1] in "-_." && y[0] in "-_.")
  }

  /** `b` is `a` with one part interchanged. */
  ghost predicate Rewritten(a: string, b: string) {
    exists before: string, x: string, y: string, after: string ::
      Interchangeable(x, y) && a == before + x + after && b == before + y + after
  }

  ghost predicate Linked(a: string, b: string) {
    Rewritten(a, b) || Rewritten(b, a)
  }

  ghost predicate IsPath(path: seq<string>) {
    path != [] && forall i | 0 <= i < |path| - 1 :: Linked(path[i], path[i + 1])
  }

  /** `a` becomes `b` by changing the case of letters, separators, and the lengths of their runs. */
  ghost predicate SameName(a: string, b: string) {
    exists path: seq<string> :: IsPath(path) && path[0] == a && path[|path| - 1] == b
  }

  lemma SameSelf(a: string)
    ensures SameName(a, a)
  {
    assert IsPath([a]);
  }

  lemma SameStep(a: string, b: string)
    requires Linked(a, b)
    ensures SameName(a, b)
  {
    assert IsPath([a, b]);
  }

  lemma SameThen(a: string, b: string, c: string)
    requires SameName(a, b) && SameName(b, c)
    ensures SameName(a, c)
  {
    hide Linked;
    var p :| IsPath(p) && p[0] == a && p[|p| - 1] == b;
    var q :| IsPath(q) && q[0] == b && q[|q| - 1] == c;
    var path := p + q[1..];
    forall i | 0 <= i < |path| - 1
      ensures Linked(path[i], path[i + 1])
    {
      if i >= |p| - 1 {
        assert path[i] == q[i - |p| + 1] && path[i + 1] == q[i - |p| + 2];
      }
    }
    assert path[|path| - 1] == c;
  }

  lemma SameBack(a: string, b: string)
    requires SameName(a, b)
    ensures SameName(b, a)
  {
    var p :| IsPath(p) && p[0] == a && p[|p| - 1] == b;
    var path := seq(|p|, i requires 0 <= i < |p| => p[|p| - 1 - i]);
    forall i | 0 <= i < |path| - 1
      ensures Linked(path[i], path[i + 1])
    {
      hide Rewritten;
      assert Linked(p[|p| - 2 - i], p[|p| - 2 - i + 1]);
    }
    assert IsPath(path) && path[0] == b && path[|path| - 1] == a;
  }

  lemma {:induction false} RewrittenAlike(before: string, x: string, y: string, after: string, inRun: bool)
    requires Interchangeable(x, y)
    ensures CanonicalFrom(before + x + after, inRun) == CanonicalFrom(before + y + after, inRun)
  {
    var a, b := before + x + after, before + y + after;
    if before == "" {
      assert a == x + after && b == y + after && b[1..] == after;
      if |x| == 2 {
        assert a[1..] == x[1..] + after && a[1..][1..] == after;
      } else {
        assert a[1..] == after;
      }
    } else {
      assert a[0] == before[0] == b[0] && a[1..] == before[1..] + x + after && b[1..] == before[1..] + y + after;
      RewrittenAlike(before[1..], x, y, after, IsSeparator(before[0]));
    }
  }

  lemma {:induction false} PathAlike(path: seq<string>)
    requires IsPath(path)
    ensures Canonical(path[0]) == Canonical(path[|path| - 1])
    decreases |path|
  {
    hide CanonicalFrom;
    if |path| == 1 {
      assert path[0] == path[|path| - 1];
    } else {
      var a, b := path[0], path[1];
      assert Linked(a, b);
      if Rewritten(a, b) {
        var before: string, x: string, y: string, after: string :|
          Interchangeable(x, y) && a == before + x + after && b == before + y + after;
        RewrittenAlike(before, x, y, after, false);
      } else {
        var before: string, x: string, y: string, after: string :|
          Interchangeable(x, y) && b == before + x + after && a == before + y + after;
        RewrittenAlike(before, x, y, after, false);
      }
      forall i | 0 <= i < |path[1..]| - 1
        ensures Linked(path[1..][i], path[1..][i + 1])
      {
        assert Linked(path[i + 1], path[i + 2]);
      }
      PathAlike(path[1..]);
    }
  }

  /** One part interchanged after `before`. */
  lemma SameAfter(before: string, x: string, y: string, after: string)
    requires Interchangeable(x, y)
    ensures SameName(before + (x + after), before + (y + after))
  {
    assert before + (x + after) == before + x + after && before + (y + after) == before + y + after;
    assert Rewritten(before + (x + after), before + (y + after));
    SameStep(before + (x + after), before + (y + after));
  }

  /** What stands after `before` can be made canonical step by step. */
  lemma {:induction false} CanonicalSame(before: string, name: string, inRun: bool)
    requires inRun ==> before != "" && IsSeparator(before[|before| - 1])
    ensures SameName(before + name, before + CanonicalFrom(name, inRun))
    decreases name
  {
    hide SameName;
    var result := before + CanonicalFrom(name, inRun);
    if name == "" {
      SameSelf(before + name);
    } else {
      var first, rest := name[..1], name[1..];
      assert name == first + rest;
      if inRun && IsSeparator(name[0]) {
        var front, last := before[..|before| - 1], before[|before| - 1..];
        assert before + name == front + ((last + first) + rest) && before + rest == front + (last + rest);
        SameAfter(front, last + first, last, rest);
        CanonicalSame(before, rest, true);
        assert CanonicalFrom(name, true) == "" + CanonicalFrom(rest, true) == CanonicalFrom(rest, true);
        SameThen(before + name, before + rest, result);
      } else {
        var separates := IsSeparator(name[0]);
        var next: string := if separates then "-" else [Lower(name[0])];
        assert (before + next) + CanonicalFrom(rest, separates) == result;
        assert before + (next + rest) == (before + next) + rest;
        if separates || first != next {
          SameAfter(before, first, next, rest);
        } else {
          SameSelf(before + name);
        }
        CanonicalSame(before + next, rest, separates);
        SameThen(before + name, (before + next) + rest, result);
      }
    }
  }

  /** Names are canonically equal exactly when they differ in letter case, separators and their runs only. */
  lemma CanonicalEqualIff(a: string, b: string)
    ensures Canonical(a) == Canonical(b) <==> SameName(a, b)
  {
    if SameName(a, b) {
      var path :| IsPath(path) && path[0] == a && path[|path| - 1] == b;
      PathAlike(path);
    }
    if Canonical(a) == Canonical(b) {
      hide SameName;
      CanonicalSame("", a, false);
      CanonicalSame("", b, false);
      assert "" + a == a && "" + b == b && "" + Canonical(a) == Canonical(a) && "" + Canonical(b) == Canonical(b);
      SameBack(b, Canonical(b));
      SameThen(a, Canonical(a), b);
    }
  }

  /** No capital letters, no separators but "-", and never two of them in a row. */
  predicate IsCanonical(name: string) {
    && (forall i | 0 <= i < |name| :: !('A' <= name[i] <= 'Z') && name[i] != '_' && name[i] != '.')
    && (forall i | 0 <= i < |name| - 1 :: name[i] != '-' || name[i + 1] != '-')
  }

  lemma {:induction false} CanonicalForm(name: string, inRun: bool)
    ensures IsCanonical(CanonicalFrom(name, inRun))
    ensures inRun && CanonicalFrom(name, inRun) != "" ==> CanonicalFrom(name, inRun)[0] != '-'
  {
    if name == "" {
      assert CanonicalFrom(name, inRun) == "";
    } else {
      CanonicalForm(name[1..], IsSeparator(name[0]));
    }
  }

  lemma {:induction false} CanonicalStays(name: string, inRun: bool)
    requires IsCanonical(name) && (inRun && name != "" ==> name[0] != '-')
    ensures CanonicalFrom(name, inRun) == name
  {
    if name == "" {
      assert CanonicalFrom(name, inRun) == "";
    } else {
      assert IsCanonical(name[1..]) by {
        assert forall i | 0 <= i < |name[1..]| :: name[1..][i] == name[i + 1];
      }
      CanonicalStays(name[1..], IsSeparator(name[0]));
    }
  }

  /** The canonical name is in canonical form, and the names in that form are those that stay as they are. */
  lemma CanonicalFixed(name: string)
    ensures IsCanonical(Canonical(name)) && Canonical(Canonical(name)) == Canonical(name)
    ensures Canonical(name) == name <==> IsCanonical(name)
  {
    CanonicalForm(name, false);
    CanonicalStays(Canonical(name), false);
    if IsCanonical(name) {
      CanonicalStays(name, false);
    }
  }
}
