/** The scope-stack visitor and the ratchet of scripts/oversized_code_gate.py. */
module OversizedCode {
  import opened Wrappers
  import opened Text
  import opened Sorting

  datatype Kind = Module | Function

  datatype Finding = Finding(
    kind: Kind, path: string, symbol: string, startLine: int, endLine: int, lines: int, threshold: int) {
    /** `fingerprint` */
    function Fingerprint(): string {
      match kind
      case Function => "oversized-code.v1|function|" + path + "|" + symbol
      case Module => "oversized-code.v1|module|" + path
    }
  }

  // ----- syntax trees -----

  /** Python syntax: classes, functions (`async` or not) and everything else, with children in field order. */
  datatype Node =
    | ClassDef(name: string, children: seq<Node>)
    | FunctionDef(name: string, lineno: int, endLineno: Option<int>, isAsync: bool, children: seq<Node>)
    | Other(children: seq<Node>)

  /** `node.end_lineno or node.lineno` */
  function EndLine(node: Node): int
    requires node.FunctionDef?
  {
    if node.endLineno.Some? && node.endLineno.value != 0 then node.endLineno.value else node.lineno
  }

  function LineCount(node: Node): int
    requires node.FunctionDef?
  {
    EndLine(node) - node.lineno + 1
  }

  /** `".".join(names)` */
  function Dotted(names: seq<string>): string
    requires |names| > 0
  {
    Join(names, '.')
  }

  function FindingFor(node: Node, scope: seq<string>, path: string, threshold: int): Finding
    requires node.FunctionDef?
  {
    Finding(Function, path, Dotted(scope + [node.name]), node.lineno, EndLine(node), LineCount(node), threshold)
  }

  // ----- what the visitor collects, as a recursive function -----

  function Collect(node: Node, scope: seq<string>, path: string, threshold: int): seq<Finding>
    decreases node, 1
  {
    match node
    case ClassDef(name, children) => CollectAll(node, children, scope + [name], path, threshold)
    case FunctionDef(name, _, _, _, children) =>
      (if LineCount(node) > threshold then [FindingFor(node, scope, path, threshold)] else [])
      + CollectAll(node, children, scope + [name], path, threshold)
    case Other(children) => CollectAll(node, children, scope, path, threshold)
  }

  function CollectAll(parent: Node, nodes: seq<Node>, scope: seq<string>, path: string, threshold: int): seq<Finding>
    requires forall i | 0 <= i < |nodes| :: nodes[i] < parent
    decreases parent, 0, |nodes|
  {
    if nodes == [] then []
    else Collect(nodes[0], scope, path, threshold) + CollectAll(parent, nodes[1..], scope, path, threshold)
  }

  /** `_FunctionCollector` */
  class FunctionCollector {
    const path: string
    const threshold: int
    var scope: seq<string>
    var findings: seq<Finding>

    constructor (path: string, threshold: int)
      ensures this.path == path && this.threshold == threshold && scope == [] && findings == []
    {
      this.path, this.threshold := path, threshold;
      scope, findings := [], [];
    }

    method Visit(node: Node)
      modifies this
      ensures scope == old(scope)
      ensures findings == old(findings) + Collect(node, old(scope), path, threshold)
      decreases node, 2
    {
      match node {
        case ClassDef(_, _) => VisitClassDef(node);
        case FunctionDef(_, _, _, _, _) => VisitFunctionDef(node);
        case Other(_) => GenericVisit(node);
      }
    }

    /** Visits the children in the current scope. */
    method GenericVisit(node: Node)
      modifies this
      ensures scope == old(scope)
      ensures findings == old(findings) + CollectAll(node, node.children, old(scope), path, threshold)
      decreases node, 0
    {
      ghost var start := findings;
      for i := 0 to |node.children|
        invariant scope == old(scope)
        invariant findings + CollectAll(node, node.children[i..], scope, path, threshold)
               == start + CollectAll(node, node.children, scope, path, threshold)
      {
        ghost var rest := CollectAll(node, node.children[i + 1..], scope, path, threshold);
        assert node.children[i..][0] == node.children[i] && node.children[i..][1..] == node.children[i + 1..];
        ghost var here := Collect(node.children[i], scope, path, threshold);
        assert findings + (here + rest) == (findings + here) + rest;
        Visit(node.children[i]);
      }
      assert node.children[|node.children|..] == [] && findings + [] == findings;
    }

    method VisitClassDef(node: Node)
      requires node.ClassDef?
      modifies this
      ensures scope == old(scope)
      ensures findings == old(findings) + Collect(node, old(scope), path, threshold)
      decreases node, 1
    {
      scope := scope + [node.name];
      GenericVisit(node);
      scope := scope[..|scope| - 1];
    }

    /** `visit_FunctionDef` and `visit_AsyncFunctionDef` */
    method VisitFunctionDef(node: Node)
      requires node.FunctionDef?
      modifies this
      ensures scope == old(scope)
      ensures findings == old(findings) + Collect(node, old(scope), path, threshold)
      decreases node, 1
    {
      Record(node);
      ghost var recorded := findings;
      scope := scope + [node.name];
      GenericVisit(node);
      scope := scope[..|scope| - 1];
      assert findings == recorded + CollectAll(node, node.children, scope + [node.name], path, threshold);
    }

    method Record(node: Node)
      requires node.FunctionDef?
      modifies this`findings
      ensures findings == old(findings) + if LineCount(node) > threshold
                                          then [FindingFor(node, scope, path, threshold)] else []
    {
      var endLine := if node.endLineno.Some? && node.endLineno.value != 0 then node.endLineno.value else node.lineno;
      var lines := endLine - node.lineno + 1;
      if lines > threshold {
        findings := findings
          + [Finding(Function, path, Dotted(scope + [node.name]), node.lineno, endLine, lines, threshold)];
      }
    }
  }

  // ----- a reference definition by tree positions -----

  /** A node of a tree, by child indices from the root. */
  type Position = seq<nat>

  function At(node: Node, p: Position): Option<Node>
    decreases |p|
  {
    if p == [] then Some(node)
    else if p[0] < |node.children| then At(node.children[p[0]], p[1..])
    else None
  }

  /** The names of the classes and functions that strictly enclose a position. */
  function Enclosing(node: Node, p: Position): seq<string>
    decreases |p|
  {
    if p == [] then []
    else
      (if node.Other? then [] else [node.name])
      + if p[0] < |node.children| then Enclosing(node.children[p[0]], p[1..]) else []
  }

  predicate IsOversized(node: Node, p: Position, threshold: int) {
    At(node, p).Some? && At(node, p).value.FunctionDef? && LineCount(At(node, p).value) > threshold
  }

  function FindingAt(node: Node, p: Position, scope: seq<string>, path: string, threshold: int): Finding
    requires IsOversized(node, p, threshold)
  {
    FindingFor(At(node, p).value, scope + Enclosing(node, p), path, threshold)
  }

  /** Preorder: ancestors first, then by child index. */
  predicate Before(p: Position, q: Position) {
    if q == [] then false
    else if p == [] then true
    else p[0] < q[0] || (p[0] == q[0] && Before(p[1..], q[1..]))
  }

  /** Of two different positions exactly one comes before the other. */
  lemma {:induction false} BeforeIsStrict(p: Position, q: Position)
    ensures p == q ==> !Before(p, q)
    ensures p != q ==> (Before(p, q) <==> !Before(q, p))
  {
    if p != [] && q != [] {
      BeforeIsStrict(p[1..], q[1..]);
      assert p == [p[0]] + p[1..] && q == [q[0]] + q[1..];
    }
  }

  ghost predicate InPreorder(ps: seq<Position>) {
    forall i, j | 0 <= i < j < |ps| :: Before(ps[i], ps[j])
  }

  /** The findings `fs` are those at the positions `ps`, one for one. */
  ghost predicate FindingsAt(fs: seq<Finding>, ps: seq<Position>, node: Node, scope: seq<string>, path: string, threshold: int) {
    |fs| == |ps|
    && forall i | 0 <= i < |ps| ::
         IsOversized(node, ps[i], threshold) && fs[i] == FindingAt(node, ps[i], scope, path, threshold)
  }

  /** `ps` lists exactly the oversized positions in the subtrees `from`, `from + 1`, ... of `node`. */
  ghost predicate ListsFrom(ps: seq<Position>, node: Node, from: nat, threshold: int) {
    && InPreorder(ps)
    && (forall i | 0 <= i < |ps| :: ps[i] != [] && ps[i][0] >= from)
    && (forall p: Position | p != [] && p[0] >= from && IsOversized(node, p, threshold) :: p in ps)
  }

  function Below(k: nat, ps: seq<Position>): seq<Position> {
    seq(|ps|, i requires 0 <= i < |ps| => [k] + ps[i])
  }

  /**
   The collector's findings are exactly the functions longer than the threshold, in preorder, each with
   the dotted names of its enclosing classes and functions.
   */
  lemma {:induction false} CollectIsPreorder(node: Node, scope: seq<string>, path: string, threshold: int)
    returns (ps: seq<Position>)
    ensures FindingsAt(Collect(node, scope, path, threshold), ps, node, scope, path, threshold)
    ensures InPreorder(ps) && forall p :: IsOversized(node, p, threshold) <==> p in ps
    decreases node, 1
  {
    hide *;
    var inner := if node.Other? then scope else scope + [node.name];
    assert node.children[0..] == node.children;
    CollectParts(node, scope, path, threshold);
    var rest := CollectAllIsPreorder(node, 0, scope, path, threshold);
    ps := RootPosition(node, threshold) + rest;
    AllOversized(CollectAll(node, node.children, inner, path, threshold), rest, node, scope, path, threshold);
    RootPositions(node, rest, threshold);
    RootFindings(node, rest, CollectAll(node, node.children, inner, path, threshold), scope, path, threshold);
  }

  lemma CollectParts(node: Node, scope: seq<string>, path: string, threshold: int)
    ensures var inner := if node.Other? then scope else scope + [node.name];
            Collect(node, scope, path, threshold)
            == (if node.FunctionDef? && LineCount(node) > threshold then [FindingFor(node, scope, path, threshold)] else [])
               + CollectAll(node, node.children, inner, path, threshold)
  {
    hide CollectAll, LineCount, FindingFor;
  }

  lemma AllOversized(fs: seq<Finding>, ps: seq<Position>, node: Node, scope: seq<string>, path: string, threshold: int)
    requires FindingsAt(fs, ps, node, scope, path, threshold)
    ensures forall i | 0 <= i < |ps| :: IsOversized(node, ps[i], threshold)
  {
    hide IsOversized, FindingAt;
  }

  function RootPosition(node: Node, threshold: int): seq<Position> {
    if IsOversized(node, [], threshold) then [[]] else []
  }

  lemma RootPositions(node: Node, rest: seq<Position>, threshold: int)
    requires ListsFrom(rest, node, 0, threshold)
    requires forall i | 0 <= i < |rest| :: IsOversized(node, rest[i], threshold)
    ensures var ps := RootPosition(node, threshold) + rest;
            InPreorder(ps) && forall p :: IsOversized(node, p, threshold) <==> p in ps
  {
  }

  lemma RootFindings(node: Node, rest: seq<Position>, fs: seq<Finding>, scope: seq<string>, path: string, threshold: int)
    requires FindingsAt(fs, rest, node, scope, path, threshold)
    ensures var own := if node.FunctionDef? && LineCount(node) > threshold
                       then [FindingFor(node, scope, path, threshold)] else [];
            FindingsAt(own + fs, RootPosition(node, threshold) + rest, node, scope, path, threshold)
  {
    assert scope + Enclosing(node, []) == scope;
  }

  lemma {:induction false} CollectAllIsPreorder(
    node: Node, from: nat, scope: seq<string>, path: string, threshold: int) returns (ps: seq<Position>)
    requires from <= |node.children|
    ensures var inner := if node.Other? then scope else scope + [node.name];
            FindingsAt(CollectAll(node, node.children[from..], inner, path, threshold), ps, node, scope, path, threshold)
    ensures ListsFrom(ps, node, from, threshold)
    decreases node, 0, |node.children| - from
  {
    hide FindingsAt, ListsFrom, InPreorder, IsOversized, FindingAt, Below, LineCount, FindingFor;
    var inner := if node.Other? then scope else scope + [node.name];
    if from == |node.children| {
      ps := [];
      NothingBeyond(node, scope, path, threshold);
    } else {
      var child := node.children[from];
      assert node.children[from..][0] == child && node.children[from..][1..] == node.children[from + 1..];
      var here := CollectIsPreorder(child, inner, path, threshold);
      var rest := CollectAllIsPreorder(node, from + 1, scope, path, threshold);
      ps := Below(from, here) + rest;
      BelowFindings(node, from, here, Collect(child, inner, path, threshold),
                    rest, CollectAll(node, node.children[from + 1..], inner, path, threshold), scope, path, threshold);
      BelowLists(node, from, here, rest, threshold);
    }
  }

  lemma NothingBeyond(node: Node, scope: seq<string>, path: string, threshold: int)
    ensures ListsFrom([], node, |node.children|, threshold)
    ensures FindingsAt([], [], node, scope, path, threshold)
  {
  }

  lemma BelowPosition(node: Node, k: nat, p: Position, scope: seq<string>, threshold: int)
    requires k < |node.children|
    ensures IsOversized(node, [k] + p, threshold) == IsOversized(node.children[k], p, threshold)
    ensures At(node, [k] + p) == At(node.children[k], p)
    ensures var inner := if node.Other? then scope else scope + [node.name];
            scope + Enclosing(node, [k] + p) == inner + Enclosing(node.children[k], p)
  {
    assert ([k] + p)[1..] == p;
    var inner := if node.Other? then scope else scope + [node.name];
    var name := if node.Other? then [] else [node.name];
    assert scope + (name + Enclosing(node.children[k], p)) == (scope + name) + Enclosing(node.children[k], p);
    assert scope + name == inner;
  }

  lemma BelowFindings(node: Node, k: nat, ps: seq<Position>, fs: seq<Finding>, rest: seq<Position>, more: seq<Finding>,
                      scope: seq<string>, path: string, threshold: int)
    requires k < |node.children|
    requires FindingsAt(fs, ps, node.children[k], if node.Other? then scope else scope + [node.name], path, threshold)
    requires FindingsAt(more, rest, node, scope, path, threshold)
    ensures FindingsAt(fs + more, Below(k, ps) + rest, node, scope, path, threshold)
  {
    forall i | 0 <= i < |ps|
      ensures IsOversized(node, Below(k, ps)[i], threshold)
      ensures fs[i] == FindingAt(node, Below(k, ps)[i], scope, path, threshold)
    {
      BelowPosition(node, k, ps[i], scope, threshold);
    }
  }

  lemma BelowLists(node: Node, k: nat, ps: seq<Position>, rest: seq<Position>, threshold: int)
    requires k < |node.children|
    requires InPreorder(ps) && forall p :: IsOversized(node.children[k], p, threshold) <==> p in ps
    requires ListsFrom(rest, node, k + 1, threshold)
    ensures ListsFrom(Below(k, ps) + rest, node, k, threshold)
  {
    var all := Below(k, ps) + rest;
    forall i, j | 0 <= i < j < |all|
      ensures Before(all[i], all[j])
    {
      if j < |ps| {
        assert Before(ps[i], ps[j]);
        assert ([k] + ps[i])[1..] == ps[i] && ([k] + ps[j])[1..] == ps[j];
      }
    }
    forall p: Position | p != [] && p[0] >= k && IsOversized(node, p, threshold)
      ensures p in all
    {
      if p[0] == k {
        assert p == [k] + p[1..];
        BelowPosition(node, k, p[1..], [], threshold);
        var i :| 0 <= i < |ps| && ps[i] == p[1..];
        assert all[i] == p;
      } else {
        assert p in rest;
      }
    }
  }

  // ----- what a finding says -----

  /** The last line of a function: the one on record, unless there is none or it is zero; then the first. */
  predicate EndsAt(node: Node, last: int)
    requires node.FunctionDef?
  {
    || (node.endLineno == Some(last) && last != 0)
    || ((node.endLineno == None || node.endLineno == Some(0)) && last == node.lineno)
  }

  /** The finding tells of the function at `p`: its first and last line, their number, and the names that lead to it. */
  predicate Tells(f: Finding, node: Node, p: Position, scope: seq<string>, path: string, threshold: int) {
    && At(node, p).Some? && At(node, p).value.FunctionDef?
    && var n := At(node, p).value;
       && f.kind == Function && f.path == path && f.threshold == threshold
       && f.startLine == n.lineno && EndsAt(n, f.endLine) && f.lines == f.endLine - f.startLine + 1
       && f.symbol == Join(scope + Enclosing(node, p) + [n.name], '.')
  }

  /** The findings are exactly those that tell of a function with more than `threshold` lines, from first to last. */
  lemma FindingsExact(node: Node, scope: seq<string>, path: string, threshold: int, f: Finding)
    ensures f in Collect(node, scope, path, threshold)
       <==> exists p :: Tells(f, node, p, scope, path, threshold) && f.endLine - f.startLine >= threshold
  {
    hide Collect, InPreorder, Tells;
    var ps := CollectIsPreorder(node, scope, path, threshold);
    var fs := Collect(node, scope, path, threshold);
    if f in fs {
      var i :| 0 <= i < |fs| && fs[i] == f;
      TellsExact(f, node, ps[i], scope, path, threshold);
    }
    if p :| Tells(f, node, p, scope, path, threshold) && f.endLine - f.startLine >= threshold {
      TellsExact(f, node, p, scope, path, threshold);
      var i :| 0 <= i < |ps| && ps[i] == p;
      assert fs[i] == f;
    }
  }

  lemma TellsExact(f: Finding, node: Node, p: Position, scope: seq<string>, path: string, threshold: int)
    ensures Tells(f, node, p, scope, path, threshold) && f.endLine - f.startLine >= threshold
       <==> IsOversized(node, p, threshold) && f == FindingAt(node, p, scope, path, threshold)
  {
    hide At, Enclosing, Join;
  }

  /** For names without dots, the symbol splits into the enclosing classes and functions and the function itself. */
  lemma SymbolNames(f: Finding, node: Node, p: Position, scope: seq<string>, path: string, threshold: int, names: seq<string>)
    requires Tells(f, node, p, scope, path, threshold)
    requires names == scope + Enclosing(node, p) + [At(node, p).value.name] && forall i | 0 <= i < |names| :: '.' !in names[i]
    ensures Split(f.symbol, '.') == names
  {
    hide At, Enclosing, Split, Join;
    SplitJoin(names, '.');
  }

  // ----- raising the threshold only removes findings -----

  /** The findings with more than `threshold` lines, reported against it. */
  function Keep(fs: seq<Finding>, threshold: int): seq<Finding> {
    if fs == [] then []
    else (if fs[0].lines > threshold then [fs[0].(threshold := threshold)] else []) + Keep(fs[1..], threshold)
  }

  lemma {:induction false} KeepAppend(a: seq<Finding>, b: seq<Finding>, threshold: int)
    ensures Keep(a + b, threshold) == Keep(a, threshold) + Keep(b, threshold)
  {
    if a == [] {
      assert a + b == b;
    } else {
      var all := a + b;
      assert all[0] == a[0] && all[1..] == a[1..] + b;
      KeepAppend(a[1..], b, threshold);
    }
  }

  lemma {:induction false} RaisingKeeps(node: Node, scope: seq<string>, path: string, low: int, high: int)
    requires low <= high
    ensures Collect(node, scope, path, high) == Keep(Collect(node, scope, path, low), high)
    decreases node, 1
  {
    var inner := if node.Other? then scope else scope + [node.name];
    RaisingKeepsAll(node, node.children, inner, path, low, high);
    if node.FunctionDef? {
      var first := if LineCount(node) > low then [FindingFor(node, scope, path, low)] else [];
      KeepAppend(first, CollectAll(node, node.children, inner, path, low), high);
      assert Keep(first, high) == if LineCount(node) > high then [FindingFor(node, scope, path, high)] else [] by {
        if LineCount(node) > low {
          assert first[1..] == [];
        }
      }
    }
  }

  lemma {:induction false} RaisingKeepsAll(
    parent: Node, nodes: seq<Node>, scope: seq<string>, path: string, low: int, high: int)
    requires low <= high && forall i | 0 <= i < |nodes| :: nodes[i] < parent
    ensures CollectAll(parent, nodes, scope, path, high) == Keep(CollectAll(parent, nodes, scope, path, low), high)
    decreases parent, 0, |nodes|
  {
    if nodes == [] {
    } else {
      RaisingKeeps(nodes[0], scope, path, low, high);
      RaisingKeepsAll(parent, nodes[1..], scope, path, low, high);
      KeepAppend(Collect(nodes[0], scope, path, low), CollectAll(parent, nodes[1..], scope, path, low), high);
    }
  }

  // ----- fingerprints identify findings up to their name path -----

  /** Dot-free names are recovered from the dotted symbol. */
  lemma DottedInjective(a: seq<string>, b: seq<string>)
    requires |a| > 0 && |b| > 0 && Dotted(a) == Dotted(b)
    requires forall i | 0 <= i < |a| :: '.' !in a[i]
    requires forall i | 0 <= i < |b| :: '.' !in b[i]
    ensures a == b
  {
    SplitJoin(a, '.');
    SplitJoin(b, '.');
  }

  /** Fingerprints agree exactly when kind, path and (for functions) symbol do. */
  lemma FingerprintExact(f: Finding, g: Finding)
    requires '|' !in f.symbol && '|' !in g.symbol
    ensures f.Fingerprint() == g.Fingerprint() <==>
            f.kind == g.kind && f.path == g.path && (f.kind == Function ==> f.symbol == g.symbol)
  {
    var s, t := f.Fingerprint(), g.Fingerprint();
    if s == t {
      assert "oversized-code.v1|function|"[18] != "oversized-code.v1|module|"[18];
      assert s[18] == if f.kind == Function then 'f' else 'm';
      assert t[18] == if g.kind == Function then 'f' else 'm';
      if f.kind == Function {
        var p, q := f.path + "|" + f.symbol, g.path + "|" + g.symbol;
        assert s[27..] == p && t[27..] == q;
        LastBar(f.path, f.symbol, g.path, g.symbol);
      } else {
        assert s[25..] == f.path && t[25..] == g.path;
      }
    }
  }

  lemma BarTail(a: string, x: string)
    requires '|' !in x
    ensures var s := a + "|" + x; s[|a|] == '|' && forall i | |a| < i < |s| :: s[i] != '|'
  {
  }

  lemma LastBar(a: string, x: string, b: string, y: string)
    requires a + "|" + x == b + "|" + y && '|' !in x && '|' !in y
    ensures a == b && x == y
  {
    var s := a + "|" + x;
    BarTail(a, x);
    BarTail(b, y);
    assert |a| == |b|;
    assert s[..|a|] == a && s[..|b|] == b && s[|a| + 1..] == x && s[|b| + 1..] == y;
  }

  // ----- scanning a repository -----

  datatype SourceFile = SourceFile(path: string, lineCount: int, tree: Node)

  function ModuleFindings(file: SourceFile, moduleMax: int): seq<Finding> {
    if file.lineCount > moduleMax
    then [Finding(Module, file.path, "__module__", 1, file.lineCount, file.lineCount, moduleMax)]
    else []
  }

  function FileFindings(file: SourceFile, moduleMax: int, functionMax: int): seq<Finding> {
    ModuleFindings(file, moduleMax) + Collect(file.tree, [], file.path, functionMax)
  }

  function AllFindings(files: seq<SourceFile>, moduleMax: int, functionMax: int): seq<Finding> {
    if files == [] then []
    else AllFindings(files[..|files| - 1], moduleMax, functionMax) + FileFindings(files[|files| - 1], moduleMax, functionMax)
  }

  /** A module is reported, as one block from its first line to its last, exactly when it has more lines than allowed. */
  lemma ModuleExact(file: SourceFile, moduleMax: int, f: Finding)
    ensures f in ModuleFindings(file, moduleMax)
       <==> && file.lineCount > moduleMax && f.kind == Module && f.path == file.path && f.symbol == "__module__"
            && f.startLine == 1 && f.endLine == f.lines == file.lineCount && f.threshold == moduleMax
  {
  }

  /** The finding is about this file: its module is too long, or one of its functions is. */
  ghost predicate IsOfFile(f: Finding, file: SourceFile, moduleMax: int, functionMax: int) {
    || f in ModuleFindings(file, moduleMax)
    || exists p :: Tells(f, file.tree, p, [], file.path, functionMax) && f.endLine - f.startLine >= functionMax
  }

  lemma FileExact(f: Finding, file: SourceFile, moduleMax: int, functionMax: int)
    ensures f in FileFindings(file, moduleMax, functionMax) <==> IsOfFile(f, file, moduleMax, functionMax)
  {
    hide Collect, Tells, ModuleFindings;
    FindingsExact(file.tree, [], file.path, functionMax, f);
  }

  /** What a scan finds: the long modules, and the long functions of every file. */
  lemma {:induction false} ScanExact(files: seq<SourceFile>, moduleMax: int, functionMax: int, f: Finding)
    ensures f in AllFindings(files, moduleMax, functionMax)
       <==> exists i | 0 <= i < |files| :: IsOfFile(f, files[i], moduleMax, functionMax)
  {
    hide FileFindings, IsOfFile;
    if files == [] {
      assert AllFindings(files, moduleMax, functionMax) == [];
    } else {
      var init, last := files[..|files| - 1], files[|files| - 1];
      ScanExact(init, moduleMax, functionMax, f);
      FileExact(f, last, moduleMax, functionMax);
      assert forall i | 0 <= i < |init| :: files[i] == init[i];
    }
  }

  lemma NoFiles(moduleMax: int, functionMax: int)
    ensures AllFindings([], moduleMax, functionMax) == []
  {
  }

  lemma AllFindingsAppend(files: seq<SourceFile>, file: SourceFile, moduleMax: int, functionMax: int)
    ensures AllFindings(files + [file], moduleMax, functionMax)
         == AllFindings(files, moduleMax, functionMax) + FileFindings(file, moduleMax, functionMax)
  {
    assert (files + [file])[..|files|] == files;
  }

  predicate FingerprintLe(f: Finding, g: Finding) {
    LexLe(f.Fingerprint(), g.Fingerprint())
  }

  /** `scan_repository`, over the files in the order it finds them. */
  method ScanRepository(files: seq<SourceFile>, moduleMax: int, functionMax: int) returns (r: seq<Finding>)
    ensures r == Sort(FingerprintLe, AllFindings(files, moduleMax, functionMax))
  {
    hide Collect, Sort, AllFindings;
    var findings: seq<Finding> := [];
    NoFiles(moduleMax, functionMax);
    assert files[..0] == [];
    for i := 0 to |files|
      invariant findings == AllFindings(files[..i], moduleMax, functionMax)
    {
      assert files[..i + 1] == files[..i] + [files[i]];
      AllFindingsAppend(files[..i], files[i], moduleMax, functionMax);
      var file := files[i];
      ghost var before := findings;
      if file.lineCount > moduleMax {
        findings := findings
          + [Finding(Module, file.path, "__module__", 1, file.lineCount, file.lineCount, moduleMax)];
      }
      var collector := new FunctionCollector(file.path, functionMax);
      collector.Visit(file.tree);
      assert [] + Collect(file.tree, [], file.path, functionMax) == Collect(file.tree, [], file.path, functionMax);
      assert before + (ModuleFindings(file, moduleMax) + Collect(file.tree, [], file.path, functionMax))
          == (before + ModuleFindings(file, moduleMax)) + Collect(file.tree, [], file.path, functionMax);
      assert before + ModuleFindings(file, moduleMax) == findings;
      findings := findings + collector.findings;
    }
    assert files[..|files|] == files;
    r := Sort(FingerprintLe, findings);
  }

  /** The order of a scan is that of the fingerprints' characters, and it loses and repeats nothing. */
  lemma ScanOrdered(files: seq<SourceFile>, moduleMax: int, functionMax: int)
    ensures var r := Sort(FingerprintLe, AllFindings(files, moduleMax, functionMax));
            && multiset(r) == multiset(AllFindings(files, moduleMax, functionMax))
            && forall i, j | 0 <= i < j < |r| :: LexLe(r[i].Fingerprint(), r[j].Fingerprint())
  {
    hide LexLe, AllFindings, Finding.Fingerprint;
    LexIsTotalPreorder();
    assert TotalPreorder(FingerprintLe) by {
      forall f: Finding, g: Finding
        ensures FingerprintLe(f, g) || FingerprintLe(g, f)
      {
        LexTotal(f.Fingerprint(), g.Fingerprint());
      }
      forall f: Finding, g: Finding, h: Finding | FingerprintLe(f, g) && FingerprintLe(g, h)
        ensures FingerprintLe(f, h)
      {
        LexTransitive(f.Fingerprint(), g.Fingerprint(), h.Fingerprint());
      }
    }
    SortPermutes(FingerprintLe, AllFindings(files, moduleMax, functionMax));
    SortSorted(FingerprintLe, AllFindings(files, moduleMax, functionMax));
  }
}
