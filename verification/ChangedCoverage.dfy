/** Statement attribution and the coverage floor of scripts/changed_coverage_gate.py. */
module ChangedCoverage {

  // ----- attributing changed lines to statements -----

  /** The lines of a statement node, `lineno` to `end_lineno`. */
  datatype Lines = Lines(first: nat, last: nat) {
    predicate Covers(line: nat) {
      first <= line <= last
    }

    function Span(): int {
      last - first
    }
  }

  /** A candidate `(span, statement_line)` for a changed line. */
  datatype Candidate = Candidate(span: int, statement: nat)

  /** The measured nodes that cover `line`, as candidates. */
  function Candidates(nodes: seq<Lines>, statements: set<nat>, line: nat): seq<Candidate> {
    if nodes == [] then []
    else
      var n := nodes[|nodes| - 1];
      Candidates(nodes[..|nodes| - 1], statements, line)
      + if n.first in statements && n.Covers(line) then [Candidate(n.Span(), n.first)] else []
  }

  /** The statement lines of the candidates with the smallest span. */
  function Smallest(candidates: seq<Candidate>): set<nat> {
    set c | c in candidates && (forall d | d in candidates :: c.span <= d.span) :: c.statement
  }

  function Attributed(nodes: seq<Lines>, statements: set<nat>, changed: set<nat>): set<nat> {
    set line, s | line in changed && s in Smallest(Candidates(nodes, statements, line)) :: s
  }

  method SmallestSpan(candidates: seq<Candidate>) returns (span: int)
    requires candidates != []
    ensures forall c | c in candidates :: span <= c.span
    ensures exists c :: c in candidates && c.span == span
  {
    span := candidates[0].span;
    for i := 1 to |candidates|
      invariant forall j | 0 <= j < i :: span <= candidates[j].span
      invariant exists c :: c in candidates && c.span == span
    {
      if candidates[i].span < span {
        span := candidates[i].span;
      }
    }
  }

  type CandidateLists = map<nat, seq<Candidate>>

  /** Every changed line has the candidates that `nodes` give it. */
  predicate Collected(candidates: CandidateLists, nodes: seq<Lines>, statements: set<nat>, lines: set<nat>) {
    lines <= candidates.Keys
    && forall line | line in lines :: candidates[line] == Candidates(nodes, statements, line)
  }

  /** The inner loop: one node becomes a candidate of each changed line it covers. */
  method CollectNode(before: CandidateLists, nodes: seq<Lines>, node: Lines, statements: set<nat>, changed: set<nat>)
    returns (candidates: CandidateLists)
    requires before.Keys == changed && Collected(before, nodes, statements, changed)
    ensures candidates.Keys == changed && Collected(candidates, nodes + [node], statements, changed)
  {
    candidates := before;
    assert (nodes + [node])[..|nodes|] == nodes;
    if node.first !in statements {
      return;
    }
    var todo := changed;
    while todo != {}
      invariant todo <= changed == candidates.Keys
      invariant Collected(candidates, nodes, statements, todo)
      invariant Collected(candidates, nodes + [node], statements, changed - todo)
    {
      var line :| line in todo;
      if node.Covers(line) {
        candidates := candidates[line := candidates[line] + [Candidate(node.Span(), node.first)]];
      }
      todo := todo - {line};
    }
  }

  /** `_changed_executable_statements`, from the statement nodes of `ast.walk` in any order. */
  method ChangedExecutableStatements(nodes: seq<Lines>, statements: set<nat>, changed: set<nat>)
    returns (r: set<nat>)
    ensures r == Attributed(nodes, statements, changed)
  {
    var candidates: CandidateLists := map line | line in changed :: [];
    for i := 0 to |nodes|
      invariant candidates.Keys == changed && Collected(candidates, nodes[..i], statements, changed)
    {
      candidates := CollectNode(candidates, nodes[..i], nodes[i], statements, changed);
      assert nodes[..i] + [nodes[i]] == nodes[..i + 1];
    }
    assert nodes[..|nodes|] == nodes;
    r := {};
    var lines := changed;
    while lines != {}
      invariant lines <= changed
      invariant r == Attributed(nodes, statements, changed - lines)
    {
      var line :| line in lines;
      ghost var before := r;
      if candidates[line] != [] {
        var span := SmallestSpan(candidates[line]);
        r := r + set c | c in candidates[line] && c.span == span :: c.statement;
      }
      assert r == before + Smallest(candidates[line]);
      assert changed - (lines - {line}) == (changed - lines) + {line};
      AttributedOne(nodes, statements, line);
      AttributedUnion(nodes, statements, changed - lines, {line});
      lines := lines - {line};
    }
    assert changed - {} == changed;
  }

  lemma AttributedOne(nodes: seq<Lines>, statements: set<nat>, line: nat)
    ensures Attributed(nodes, statements, {line}) == Smallest(Candidates(nodes, statements, line))
  {
  }

  /** Attribution distributes over unions of changed lines. */
  lemma AttributedUnion(nodes: seq<Lines>, statements: set<nat>, a: set<nat>, b: set<nat>)
    ensures Attributed(nodes, statements, a + b)
         == Attributed(nodes, statements, a) + Attributed(nodes, statements, b)
  {
  }

  lemma {:induction false} CandidatesExact(nodes: seq<Lines>, statements: set<nat>, line: nat, c: Candidate)
    ensures c in Candidates(nodes, statements, line) <==>
            exists n :: n in nodes && n.first in statements && n.Covers(line) && c == Candidate(n.Span(), n.first)
  {
    if nodes == [] {
    } else {
      var init, last := nodes[..|nodes| - 1], nodes[|nodes| - 1];
      CandidatesExact(init, statements, line, c);
      assert nodes == init + [last];
    }
  }

  /** Only measured statements are reported. */
  lemma AttributedMeasured(nodes: seq<Lines>, statements: set<nat>, changed: set<nat>)
    ensures Attributed(nodes, statements, changed) <= statements
  {
    forall s | s in Attributed(nodes, statements, changed)
      ensures s in statements
    {
      var line, c :| c in Candidates(nodes, statements, line) && c.statement == s;
      CandidatesExact(nodes, statements, line, c);
    }
  }

  // ----- on a statement tree, the smallest span is the deepest statement -----

  datatype Stmt = Stmt(lines: Lines, children: seq<Stmt>)

  function Flatten(forest: seq<Stmt>): seq<Lines> {
    if forest == [] then []
    else [forest[0].lines] + Flatten(forest[0].children) + Flatten(forest[1..])
  }

  predicate Within(forest: seq<Stmt>, lo: int, hi: int) {
    forall i | 0 <= i < |forest| :: lo <= forest[i].lines.first && forest[i].lines.last <= hi
  }

  /** Statements nest, and siblings share no lines. */
  predicate WellNested(forest: seq<Stmt>) {
    if forest == [] then true
    else
      var s := forest[0];
      && s.lines.first <= s.lines.last
      && Within(s.children, s.lines.first, s.lines.last) && WellNested(s.children)
      && (forall i | 1 <= i < |forest| ::
            s.lines.last < forest[i].lines.first || forest[i].lines.last < s.lines.first)
      && WellNested(forest[1..])
  }

  datatype Found = Nothing | Innermost(lines: Lines)

  /** Descends to `line` and returns the last measured statement on the way. */
  function Deepest(forest: seq<Stmt>, statements: set<nat>, line: nat): Found {
    if forest == [] then Nothing
    else if forest[0].lines.Covers(line) then
      match Deepest(forest[0].children, statements, line)
      case Innermost(lines) => Innermost(lines)
      case Nothing => if forest[0].lines.first in statements then Innermost(forest[0].lines) else Nothing
    else Deepest(forest[1..], statements, line)
  }

  lemma {:induction false} FlattenWithin(forest: seq<Stmt>, lo: int, hi: int, n: Lines)
    requires WellNested(forest) && Within(forest, lo, hi) && n in Flatten(forest)
    ensures lo <= n.first <= n.last <= hi
  {
    if n in Flatten(forest[0].children) {
      FlattenWithin(forest[0].children, forest[0].lines.first, forest[0].lines.last, n);
    } else if n in Flatten(forest[1..]) {
      assert Within(forest[1..], lo, hi);
      FlattenWithin(forest[1..], lo, hi, n);
    }
  }

  /** The covering statements after the first tree do not meet its lines. */
  lemma {:induction false} FlattenApart(forest: seq<Stmt>, apart: Lines, n: Lines)
    requires WellNested(forest) && n in Flatten(forest)
    requires forall i | 0 <= i < |forest| ::
               apart.last < forest[i].lines.first || forest[i].lines.last < apart.first
    ensures apart.last < n.first || n.last < apart.first
  {
    if n in Flatten(forest[0].children) {
      FlattenWithin(forest[0].children, forest[0].lines.first, forest[0].lines.last, n);
    } else if n in Flatten(forest[1..]) {
      FlattenApart(forest[1..], apart, n);
    }
  }

  predicate Qualifies(n: Lines, statements: set<nat>, line: nat) {
    n.first in statements && n.Covers(line)
  }

  /** The deepest statement qualifies and lies within every statement that does. */
  lemma {:induction false} DeepestInside(forest: seq<Stmt>, statements: set<nat>, line: nat)
    requires WellNested(forest)
    ensures Deepest(forest, statements, line).Innermost? ==>
              var d := Deepest(forest, statements, line).lines;
              d in Flatten(forest) && Qualifies(d, statements, line)
    ensures forall n | n in Flatten(forest) && Qualifies(n, statements, line) ::
              && Deepest(forest, statements, line).Innermost?
              && n.first <= Deepest(forest, statements, line).lines.first
              && Deepest(forest, statements, line).lines.last <= n.last
  {
    if forest == [] {
    } else {
      var s := forest[0];
      var found := Deepest(forest, statements, line);
      DeepestInside(s.children, statements, line);
      DeepestInside(forest[1..], statements, line);
      forall n | n in Flatten(forest) && Qualifies(n, statements, line)
        ensures found.Innermost? && n.first <= found.lines.first && found.lines.last <= n.last
      {
        if n in Flatten(s.children) {
          FlattenWithin(s.children, s.lines.first, s.lines.last, n);
        } else if n == s.lines {
          if Deepest(s.children, statements, line).Innermost? {
            FlattenWithin(s.children, s.lines.first, s.lines.last, found.lines);
          }
        } else if s.lines.Covers(line) {
          FlattenApart(forest[1..], s.lines, n);
        }
      }
    }
  }

  /**
   The smallest-span rule attributes each line to exactly the deepest measured statement covering it,
   in whatever order the walk lists the nodes.
   */
  lemma SmallestIsDeepest(forest: seq<Stmt>, nodes: seq<Lines>, statements: set<nat>, line: nat)
    requires WellNested(forest)
    requires forall n :: n in nodes <==> n in Flatten(forest)
    ensures Smallest(Candidates(nodes, statements, line))
         == match Deepest(forest, statements, line)
            case Nothing => {}
            case Innermost(d) => {d.first}
  {
    var candidates := Candidates(nodes, statements, line);
    DeepestInside(forest, statements, line);
    forall c | c in candidates
      ensures Deepest(forest, statements, line).Innermost?
      ensures var d := Deepest(forest, statements, line).lines;
              d.Span() <= c.span && (d.Span() == c.span ==> d.first == c.statement)
    {
      CandidatesExact(nodes, statements, line, c);
      var n :| n in nodes && Qualifies(n, statements, line) && c == Candidate(n.Span(), n.first);
      assert n in Flatten(forest);
    }
    match Deepest(forest, statements, line) {
      case Nothing =>
      case Innermost(d) =>
        var c := Candidate(d.Span(), d.first);
        CandidatesExact(nodes, statements, line, c);
        assert c in candidates;
        assert c.statement in Smallest(candidates);
    }
  }

  /** A measured statement that reaches over the line. */
  predicate Reaches(node: Lines, statements: set<nat>, line: nat) {
    node.first in statements && node.first <= line && line <= node.last
  }

  /** No measured statement that reaches over the line is shorter, from its first line to its last. */
  predicate IsShortest(nodes: seq<Lines>, statements: set<nat>, line: nat, node: Lines) {
    && node in nodes && Reaches(node, statements, line)
    && forall other | other in nodes && Reaches(other, statements, line) :: node.last - node.first <= other.last - other.first
  }

  lemma CandidateExact(nodes: seq<Lines>, statements: set<nat>, line: nat, c: Candidate)
    ensures c in Candidates(nodes, statements, line)
       <==> exists node :: node in nodes && Reaches(node, statements, line) && c == Candidate(node.last - node.first, node.first)
  {
    CandidatesExact(nodes, statements, line, c);
    hide Candidates;
    assert forall node: Lines :: (node.first in statements && node.Covers(line)) <==> Reaches(node, statements, line);
  }

  lemma SmallestExact(nodes: seq<Lines>, statements: set<nat>, line: nat, s: nat)
    ensures s in Smallest(Candidates(nodes, statements, line)) <==> exists node :: IsShortest(nodes, statements, line, node) && node.first == s
  {
    hide Candidates, Reaches;
    var candidates := Candidates(nodes, statements, line);
    forall c
      ensures c in candidates <==> exists node :: node in nodes && Reaches(node, statements, line) && c == Candidate(node.last - node.first, node.first)
    {
      CandidateExact(nodes, statements, line, c);
    }
    if s in Smallest(candidates) {
      var c :| c in candidates && (forall d | d in candidates :: c.span <= d.span) && c.statement == s;
      var node :| node in nodes && Reaches(node, statements, line) && c == Candidate(node.last - node.first, node.first);
      forall other | other in nodes && Reaches(other, statements, line)
        ensures node.last - node.first <= other.last - other.first
      {
        assert Candidate(other.last - other.first, other.first) in candidates;
      }
      assert IsShortest(nodes, statements, line, node);
    }
    if node :| IsShortest(nodes, statements, line, node) && node.first == s {
      assert Candidate(node.last - node.first, node.first) in candidates;
    }
  }

  /** A statement is attributed exactly when it is the shortest that reaches over some changed line. */
  lemma AttributedExact(nodes: seq<Lines>, statements: set<nat>, changed: set<nat>, s: nat)
    ensures s in Attributed(nodes, statements, changed)
       <==> exists line, node :: line in changed && IsShortest(nodes, statements, line, node) && node.first == s
  {
    forall line
      ensures s in Smallest(Candidates(nodes, statements, line)) <==> exists node :: IsShortest(nodes, statements, line, node) && node.first == s
    {
      SmallestExact(nodes, statements, line, s);
    }
    hide Candidates, Smallest, IsShortest;
    if line, node :| line in changed && IsShortest(nodes, statements, line, node) && node.first == s {
      assert s in Smallest(Candidates(nodes, statements, line));
    }
  }

  // ----- the coverage floor -----

  datatype Measurement = Measurement(file: string, measured: set<nat>, missing: set<nat>)

  /** `_coverage_percent`: measured statements, and the missing ones among them. */
  function Measure(file: string, measured: set<nat>, missing: set<nat>): (m: Measurement)
    ensures m.missing <= m.measured && m.missing <= missing
  {
    Measurement(file, measured, missing * measured)
  }

  /** The unrounded percentage; reals stand for the floats of the script. */
  function Percent(m: Measurement): real {
    if |m.measured| == 0 then 100.0
    else 100.0 * (|m.measured| - |m.missing|) as real / |m.measured| as real
  }

  /** The percentage falls with the missing share; a file without measured statements counts as covered. */
  lemma PercentExact(m: Measurement)
    requires m.missing <= m.measured
    ensures 0.0 <= Percent(m) <= 100.0 && (Percent(m) == 100.0 <==> m.missing == {})
    ensures (100.0 - Percent(m)) * |m.measured| as real == 100.0 * |m.missing| as real
  {
    SubsetSize(m.missing, m.measured);
    if m.measured != {} {
      var n, k, percent := |m.measured| as real, |m.missing| as real, Percent(m);
      PercentOfCounts(m);
      assert percent * n == 100.0 * n - 100.0 * k;
      Scaled(percent, 0.0, n);
      Scaled(percent, 100.0, n);
      assert (100.0 - percent) * n == 100.0 * n - percent * n;
    }
  }

  lemma PercentOfCounts(m: Measurement)
    requires m.measured != {}
    ensures Percent(m) * |m.measured| as real == 100.0 * (|m.measured| - |m.missing|) as real
  {
    var n, covered := |m.measured| as real, (|m.measured| - |m.missing|) as real;
    var quotient := 100.0 * covered / n;
    assert quotient * n == 100.0 * covered;
  }

  lemma Scaled(x: real, y: real, size: real)
    requires size > 0.0
    ensures (x > y <==> x * size > y * size) && (x == y <==> x * size == y * size)
  {
    assert (x - y) * size == x * size - y * size;
    if x > y {
      PositiveProduct(x - y, size);
    } else if x < y {
      PositiveProduct(y - x, size);
      assert (y - x) * size == y * size - x * size;
    }
  }

  lemma PositiveProduct(x: real, y: real)
    requires x > 0.0 && y > 0.0
    ensures x * y > 0.0
  {
  }

  lemma {:induction false} RealProduct(m: nat, n: nat)
    ensures (m * n) as real == m as real * n as real
  {
    if m == 0 {
      assert m * n == 0;
    } else {
      RealProduct(m - 1, n);
      assert m * n == (m - 1) * n + n;
    }
  }

  lemma SubsetSize(a: set<nat>, b: set<nat>)
    requires a <= b
    ensures |a| <= |b|
  {
    assert |b - a| == |b| - |a|;
  }

  /** `round(x)` on reals: ties go to the even neighbour. */
  function RoundHalfEven(x: real): int {
    var below := x.Floor;
    var part := x - below as real;
    if part < 0.5 || (part == 0.5 && below % 2 == 0) then below else below + 1
  }

  /** `round(percent, 2)` */
  function Rounded(percent: real): real {
    RoundHalfEven(percent * 100.0) as real / 100.0
  }

  predicate Passes(m: Measurement, minimum: real) {
    Rounded(Percent(m)) >= minimum
  }

  /** A changed file: its changed lines, its statement nodes, and what coverage measured and missed in it. */
  datatype ChangedFile = ChangedFile(file: string, changed: set<nat>, nodes: seq<Lines>, statements: set<nat>, missing: set<nat>)

  function MeasurementOf(f: ChangedFile): Measurement {
    Measure(f.file, Attributed(f.nodes, f.statements, f.changed), f.missing)
  }

  /** `_coverage_percent` on the changed lines of a file. */
  method MeasureChanged(f: ChangedFile) returns (m: Measurement)
    ensures m == MeasurementOf(f)
  {
    var measured := ChangedExecutableStatements(f.nodes, f.statements, f.changed);
    m := Measure(f.file, measured, f.missing);
  }

  /** `evaluate_changed_files`: what each file measures, and the files below the floor. */
  method EvaluateChangedFiles(files: seq<ChangedFile>, minimum: real)
    returns (measurements: seq<Measurement>, failures: seq<string>)
    ensures |measurements| == |files| && forall i | 0 <= i < |files| :: measurements[i] == MeasurementOf(files[i])
    ensures failures == [] <==> forall f | f in files :: Passes(MeasurementOf(f), minimum)
    ensures forall x :: x in failures <==> exists f :: f in files && f.file == x && !Passes(MeasurementOf(f), minimum)
  {
    hide MeasurementOf, Percent, Rounded;
    measurements, failures := [], [];
    for i := 0 to |files|
      invariant |measurements| == i && forall k | 0 <= k < i :: measurements[k] == MeasurementOf(files[k])
      invariant forall x :: x in failures <==>
                  exists k | 0 <= k < i :: files[k].file == x && !Passes(MeasurementOf(files[k]), minimum)
      invariant failures == [] <==> forall k | 0 <= k < i :: Passes(MeasurementOf(files[k]), minimum)
    {
      var m := MeasureChanged(files[i]);
      measurements := measurements + [m];
      if Rounded(Percent(m)) < minimum {
        failures := failures + [files[i].file];
      }
    }
  }

  /**
   When a changed file passes a floor of `k` hundredths of a percent, in whole numbers: of the `n` statements that
   its changed lines are attributed to, few enough are missing.
   */
  lemma FilePassesExactly(f: ChangedFile, k: nat)
    ensures var attributed := Attributed(f.nodes, f.statements, f.changed);
            var n, covered := |attributed|, |attributed| - |f.missing * attributed|;
            Passes(MeasurementOf(f), k as real / 100.0) <==>
            if n == 0 then k <= 10000
            else 20000 * covered > (2 * k - 1) * n || (20000 * covered == (2 * k - 1) * n && k % 2 == 0)
  {
    hide Attributed, Passes;
    var m := MeasurementOf(f);
    PassingExactly(m, k);
    if m.measured != {} {
      SubsetSize(m.missing, m.measured);
      PercentOfCounts(m);
      CountedPercent(Percent(m), |m.measured|, |m.measured| - |m.missing|, k);
    }
  }

  lemma CountedPercent(percent: real, n: nat, covered: nat, k: nat)
    requires n > 0 && percent * n as real == 100.0 * covered as real
    ensures percent * 100.0 > k as real - 0.5 <==> 20000 * covered > (2 * k - 1) * n
    ensures percent * 100.0 == k as real - 0.5 <==> 20000 * covered == (2 * k - 1) * n
  {
    var x, y, size := percent * 100.0, k as real - 0.5, n as real;
    RealProduct(k, n);
    assert x * size == 100.0 * (percent * size);
    assert y * size == k as real * size - 0.5 * size;
    Scaled(x, y, size);
    assert (2 * k - 1) * n == 2 * (k * n) - n;
  }

  /** A passing file is at most half a hundredth of a percent below the floor, and one that far above passes. */
  lemma PassingFloor(m: Measurement, minimum: real)
    ensures Passes(m, minimum) ==> Percent(m) >= minimum - 0.005
    ensures Percent(m) >= minimum + 0.005 ==> Passes(m, minimum)
  {
  }

  /** For a floor of `k` hundredths the exact boundary is k - 1/2, which itself passes only for even `k`. */
  lemma PassingExactly(m: Measurement, k: nat)
    ensures Passes(m, k as real / 100.0) <==>
            Percent(m) * 100.0 > k as real - 0.5 || (Percent(m) * 100.0 == k as real - 0.5 && k % 2 == 0)
  {
  }
}
