/**
 The recursive requirements-file readers of scripts/dependency_lock_evidence.py (which insists on one
 exact pin per requirement) and scripts/license_ip_evidence.py (which does not).
 */
module RequirementFiles {
  import opened Wrappers
  import opened Text
  import opened TextLines
  import opened Packaging
  import opened Search

  /** A requirement as parsed by `packaging`, with the versions of its "==" specifiers. */
  datatype Parsed = Parsed(name: string, extras: seq<string>, pins: seq<string>)

  datatype DirectRequirement = DirectRequirement(
    name: string, declaredName: string, version: Option<string>, extras: seq<string>, source: string)

  datatype ReadError = FileMissing(path: string) | NotPinned(path: string, line: string)

  /** The texts of the files, `(path.parent / target).resolve()`, and `Requirement(line)`. */
  datatype Tree = Tree(
    files: map<string, string>,
    resolve: (string, string) -> string,
    parse: string -> Option<Parsed>,
    pinRequired: bool)

  /** `path.read_text().splitlines()` */
  function LinesOf(tree: Tree, path: string): seq<string>
    requires path in tree.files
  {
    SplitLines(tree.files[path])
  }

  // ----- one line -----

  datatype Entry =
    | Ignored
    | Include(path: string)
    | Unpinned(line: string)
    | Item(requirement: DirectRequirement)

  /** `raw.split("#", 1)[0].strip()` */
  function Content(raw: string): string {
    Strip(raw[..IndexOf(raw, '#')])
  }

  /** The second part of `line.split(maxsplit=1)`, stripped. */
  function IncludeTarget(line: string): string {
    if line == "" then "" else if IsSpace(line[0]) then Strip(line) else IncludeTarget(line[1..])
  }

  function EntryOf(tree: Tree, path: string, raw: string): (entry: Entry)
    ensures entry.Item? ==> entry.requirement.source == path
  {
    var line := Content(raw);
    if line == "" then Ignored
    else if StartsWith(line, "-r ") || StartsWith(line, "--requirement ") then
      Include(tree.resolve(path, IncludeTarget(line)))
    else if StartsWith(line, "-") then Ignored
    else
      match tree.parse(line)
      case None => Ignored
      case Some(p) =>
        if |p.pins| == 1 then
          Item(DirectRequirement(Canonical(p.name), p.name, Some(p.pins[0]), p.extras, path))
        else if tree.pinRequired then Unpinned(line)
        else Item(DirectRequirement(Canonical(p.name), p.name, None, p.extras, path))
  }

  // ----- a file and everything it includes -----

  datatype Outcome =
    | Done(items: seq<DirectRequirement>, order: seq<string>)
    | Failed(error: ReadError)

  function Paths(order: seq<string>): set<string> {
    set p | p in order
  }

  function Expand(tree: Tree, path: string, order: seq<string>): (r: Outcome)
    ensures r.Done? ==> order <= r.order && path in r.order
    decreases tree.files.Keys - Paths(order), 0
  {
    if path in order then Done([], order)
    else if path !in tree.files then Failed(FileMissing(path))
    else
      assert path in Paths(order + [path]);
      ExpandLines(tree, path, LinesOf(tree, path), order + [path])
  }

  function ExpandLines(tree: Tree, path: string, lines: seq<string>, order: seq<string>): (r: Outcome)
    ensures r.Done? ==> order <= r.order
    decreases tree.files.Keys - Paths(order), |lines|
  {
    if lines == [] then Done([], order)
    else
      match EntryOf(tree, path, lines[0])
      case Ignored => ExpandLines(tree, path, lines[1..], order)
      case Unpinned(line) => Failed(NotPinned(path, line))
      case Item(item) => Prepend([item], ExpandLines(tree, path, lines[1..], order))
      case Include(target) =>
        match Expand(tree, target, order)
        case Failed(e) => Failed(e)
        case Done(items, next) => Prepend(items, ExpandLines(tree, path, lines[1..], next))
  }

  function Prepend(items: seq<DirectRequirement>, r: Outcome): Outcome {
    match r
    case Failed(e) => Failed(e)
    case Done(more, order) => Done(items + more, order)
  }

  /** `_parse_requirement_file`, with its shared visited set. */
  class RequirementReader {
    const tree: Tree
    var visited: set<string>
    ghost var order: seq<string>

    constructor (tree: Tree)
      ensures this.tree == tree && Valid() && order == []
    {
      this.tree := tree;
      visited, order := {}, [];
    }

    ghost predicate Valid()
      reads this
    {
      visited == Paths(order)
    }

    method ParseRequirementFile(path: string) returns (r: Result<seq<DirectRequirement>, ReadError>)
      requires Valid()
      modifies this
      ensures match Expand(tree, path, old(order))
              case Failed(e) => r == Err(e)
              case Done(items, next) => r == Ok(items) && Valid() && order == next
      decreases tree.files.Keys - visited
    {
      hide EntryOf;
      if path in visited {
        return Ok([]);
      }
      if path !in tree.files {
        return Err(FileMissing(path));
      }
      visited, order := visited + {path}, order + [path];
      var lines := LinesOf(tree, path);
      var requirements: seq<DirectRequirement> := [];
      ghost var start := order;
      for i := 0 to |lines|
        invariant Valid() && old(visited) + {path} <= visited
        invariant Prepend(requirements, ExpandLines(tree, path, lines[i..], order))
               == ExpandLines(tree, path, lines, start)
      {
        assert lines[i..][0] == lines[i] && lines[i..][1..] == lines[i + 1..];
        ghost var rest := ExpandLines(tree, path, lines[i + 1..], order);
        match EntryOf(tree, path, lines[i]) {
          case Ignored =>
          case Unpinned(line) =>
            return Err(NotPinned(path, line));
          case Item(item) =>
            PrependTwice(requirements, [item], rest);
            requirements := requirements + [item];
          case Include(target) =>
            ghost var before := order;
            var included := ParseRequirementFile(target);
            if included.Err? {
              return Err(included.error);
            }
            assert Paths(before) <= Paths(order);
            PrependTwice(requirements, included.value, ExpandLines(tree, path, lines[i + 1..], order));
            requirements := requirements + included.value;
        }
      }
      assert lines[|lines|..] == [] && requirements + [] == requirements;
      return Ok(requirements);
    }
  }

  lemma PrependTwice(a: seq<DirectRequirement>, b: seq<DirectRequirement>, r: Outcome)
    ensures Prepend(a, Prepend(b, r)) == Prepend(a + b, r)
  {
  }

  // ----- the include graph -----

  function Includes(tree: Tree, path: string, lines: seq<string>): seq<string> {
    if lines == [] then []
    else
      var rest := Includes(tree, path, lines[1..]);
      if EntryOf(tree, path, lines[0]).Include? then [EntryOf(tree, path, lines[0]).path] + rest else rest
  }

  function IncludesOf(tree: Tree, path: string): seq<string> {
    if path in tree.files then Includes(tree, path, LinesOf(tree, path)) else []
  }

  ghost function IncludeGraph(tree: Tree): (g: Graph<string, string>)
    ensures g.Valid()
  {
    Graph((p: string) => IncludesOf(tree, p), (p: string) => p, tree.files.Keys)
  }

  ghost predicate Reachable(tree: Tree, root: string, path: string) {
    Reaches(IncludeGraph(tree), root, path)
  }

  lemma KeysArePaths(tree: Tree, order: seq<string>)
    ensures Keys(IncludeGraph(tree), order) == Paths(order)
  {
  }

  /** A successful expansion visits files as the depth-first search of the include graph does. */
  lemma {:induction false} ExpandIsVisit(tree: Tree, path: string, order: seq<string>)
    requires Expand(tree, path, order).Done?
    ensures Expand(tree, path, order).order == Visit(IncludeGraph(tree), path, order)
    decreases tree.files.Keys - Paths(order), 0
  {
    KeysArePaths(tree, order);
    if path !in order {
      assert path in Paths(order + [path]);
      ExpandLinesIsVisit(tree, path, LinesOf(tree, path), order + [path]);
    }
  }

  lemma {:induction false} ExpandLinesIsVisit(tree: Tree, path: string, lines: seq<string>, order: seq<string>)
    requires ExpandLines(tree, path, lines, order).Done?
    ensures ExpandLines(tree, path, lines, order).order
         == VisitAll(IncludeGraph(tree), Includes(tree, path, lines), order)
    decreases tree.files.Keys - Paths(order), |lines|
  {
    if lines == [] {
    } else {
      var entry := EntryOf(tree, path, lines[0]);
      if entry.Include? {
        ExpandIsVisit(tree, entry.path, order);
        ExpandLinesIsVisit(tree, path, lines[1..], Expand(tree, entry.path, order).order);
        var todo := Includes(tree, path, lines);
        assert todo[0] == entry.path && todo[1..] == Includes(tree, path, lines[1..]);
      } else {
        ExpandLinesIsVisit(tree, path, lines[1..], order);
      }
    }
  }

  // ----- when expansion fails -----

  /** A file that the readers accept on its own. */
  predicate Clean(tree: Tree, path: string) {
    path in tree.files
    && forall i | 0 <= i < |LinesOf(tree, path)| :: !EntryOf(tree, path, LinesOf(tree, path)[i]).Unpinned?
  }

  lemma {:induction false} FailureReachable(tree: Tree, path: string, order: seq<string>) returns (bad: string)
    requires Expand(tree, path, order).Failed?
    ensures Reachable(tree, path, bad) && !Clean(tree, bad)
    decreases tree.files.Keys - Paths(order), 0
  {
    ReachesSelf(IncludeGraph(tree), path);
    bad := path;
    if path in tree.files && Clean(tree, path) {
      assert path in Paths(order + [path]);
      assert LinesOf(tree, path) == LinesOf(tree, path)[0..];
      bad := FailureReachableLines(tree, path, 0, order + [path]);
    }
  }

  lemma {:induction false} FailureReachableLines(tree: Tree, path: string, from: nat, order: seq<string>)
    returns (bad: string)
    requires path in tree.files && Clean(tree, path) && from <= |LinesOf(tree, path)|
    requires ExpandLines(tree, path, LinesOf(tree, path)[from..], order).Failed?
    ensures Reachable(tree, path, bad) && !Clean(tree, bad)
    decreases tree.files.Keys - Paths(order), |LinesOf(tree, path)| - from
  {
    hide EntryOf, SplitLines, LinesOf;
    var lines := LinesOf(tree, path);
    assert lines[from..][0] == lines[from] && lines[from..][1..] == lines[from + 1..];
    var entry := EntryOf(tree, path, lines[from]);
    if !entry.Include? {
      bad := FailureReachableLines(tree, path, from + 1, order);
    } else if Expand(tree, entry.path, order).Failed? {
      bad := FailureReachable(tree, entry.path, order);
      IncludedInFile(tree, path, lines, from);
      ReachesVia(IncludeGraph(tree), path, entry.path, bad);
    } else {
      bad := FailureReachableLines(tree, path, from + 1, Expand(tree, entry.path, order).order);
    }
  }

  lemma {:induction false} IncludedInFile(tree: Tree, path: string, lines: seq<string>, i: nat)
    requires i < |lines| && EntryOf(tree, path, lines[i]).Include?
    ensures EntryOf(tree, path, lines[i]).path in Includes(tree, path, lines)
  {
    hide EntryOf;
    if i > 0 {
      assert lines[1..][i - 1] == lines[i];
      IncludedInFile(tree, path, lines[1..], i - 1);
    }
  }

  lemma {:induction false} ExpandedClean(tree: Tree, path: string, order: seq<string>, p: string)
    requires Expand(tree, path, order).Done? && p in Expand(tree, path, order).order && p !in order
    ensures Clean(tree, p)
    decreases tree.files.Keys - Paths(order), 0
  {
    assert path in Paths(order + [path]);
    ExpandedLinesClean(tree, path, LinesOf(tree, path), order + [path], p);
  }

  lemma {:induction false} ExpandedLinesClean(tree: Tree, path: string, lines: seq<string>, order: seq<string>, p: string)
    requires ExpandLines(tree, path, lines, order).Done?
    ensures forall i | 0 <= i < |lines| :: !EntryOf(tree, path, lines[i]).Unpinned?
    ensures p in ExpandLines(tree, path, lines, order).order && p !in order ==> Clean(tree, p)
    decreases tree.files.Keys - Paths(order), |lines|
  {
    if lines == [] {
    } else {
      var entry := EntryOf(tree, path, lines[0]);
      if entry.Include? {
        var next := Expand(tree, entry.path, order).order;
        if p in next && p !in order {
          ExpandedClean(tree, entry.path, order, p);
        }
        ExpandedLinesClean(tree, path, lines[1..], next, p);
      } else {
        ExpandedLinesClean(tree, path, lines[1..], order, p);
      }
    }
  }

  /** Expansion succeeds exactly when every include-reachable file exists and has only pinned requirements. */
  lemma ExpandSucceedsIff(tree: Tree, root: string)
    ensures Expand(tree, root, []).Done? <==> forall p | Reachable(tree, root, p) :: Clean(tree, p)
  {
    if Expand(tree, root, []).Done? {
      forall p | Reachable(tree, root, p)
        ensures Clean(tree, p)
      {
        ExpandVisitsReachable(tree, root, p);
        ExpandedClean(tree, root, [], p);
      }
    } else {
      var bad := FailureReachable(tree, root, []);
    }
  }

  /** The files visited are exactly the include-reachable ones. */
  lemma ExpandVisitsReachable(tree: Tree, root: string, path: string)
    requires Expand(tree, root, []).Done?
    ensures path in Expand(tree, root, []).order <==> Reachable(tree, root, path)
  {
    var g := IncludeGraph(tree);
    ExpandIsVisit(tree, root, []);
    KeysArePaths(tree, Visit(g, root, []));
    VisitIsDepthFirst(g, root);
    if Reachable(tree, root, path) {
      assert forall s, t | g.key(s) == g.key(t) :: s == t;
      VisitComplete(g, root, path);
    }
  }

  // ----- what expansion yields -----

  function Own(tree: Tree, path: string, lines: seq<string>): seq<DirectRequirement> {
    if lines == [] then []
    else
      var rest := Own(tree, path, lines[1..]);
      if EntryOf(tree, path, lines[0]).Item? then [EntryOf(tree, path, lines[0]).requirement] + rest else rest
  }

  function OwnOf(tree: Tree, path: string): seq<DirectRequirement> {
    if path in tree.files then Own(tree, path, LinesOf(tree, path)) else []
  }

  /** The requirements that come from one file. */
  function From(items: seq<DirectRequirement>, path: string): seq<DirectRequirement> {
    if items == [] then []
    else (if items[0].source == path then [items[0]] else []) + From(items[1..], path)
  }

  lemma {:induction false} FromAppend(a: seq<DirectRequirement>, b: seq<DirectRequirement>, path: string)
    ensures From(a + b, path) == From(a, path) + From(b, path)
  {
    if a == [] {
      assert a + b == b;
    } else {
      var all := a + b;
      assert all[0] == a[0] && all[1..] == a[1..] + b;
      FromAppend(a[1..], b, path);
      var head := if a[0].source == path then [a[0]] else [];
      assert From(all, path) == head + From(a[1..] + b, path);
      assert head + (From(a[1..], path) + From(b, path)) == (head + From(a[1..], path)) + From(b, path);
    }
  }

  /** What the expansion contributes for `p`: its own requirements when it is met, nothing otherwise. */
  function Contribution(tree: Tree, p: string, order: seq<string>, next: seq<string>): seq<DirectRequirement> {
    if p in next && p !in order then OwnOf(tree, p) else []
  }

  lemma {:induction false} ExpandContributes(tree: Tree, path: string, order: seq<string>, p: string)
    requires Expand(tree, path, order).Done?
    ensures var r := Expand(tree, path, order);
            From(r.items, p) == Contribution(tree, p, order, r.order)
    decreases tree.files.Keys - Paths(order), 0
  {
    if path !in order {
      assert path in Paths(order + [path]);
      ExpandLinesContributes(tree, path, LinesOf(tree, path), order + [path], p);
    }
  }

  lemma ContributionTwice(tree: Tree, p: string, order: seq<string>, mid: seq<string>, next: seq<string>)
    requires order <= mid <= next
    ensures Contribution(tree, p, order, mid) + Contribution(tree, p, mid, next) == Contribution(tree, p, order, next)
  {
  }

  lemma {:induction false} ExpandLinesContributes(tree: Tree, path: string, lines: seq<string>, order: seq<string>, p: string)
    requires path in order && ExpandLines(tree, path, lines, order).Done?
    ensures var r := ExpandLines(tree, path, lines, order);
            From(r.items, p) == if p == path then Own(tree, path, lines) else Contribution(tree, p, order, r.order)
    decreases tree.files.Keys - Paths(order), |lines|
  {
    hide EntryOf;
    if lines == [] {
    } else {
      var entry := EntryOf(tree, path, lines[0]);
      if entry.Include? {
        var first := Expand(tree, entry.path, order);
        var rest := ExpandLines(tree, path, lines[1..], first.order);
        ExpandContributes(tree, entry.path, order, p);
        ExpandLinesContributes(tree, path, lines[1..], first.order, p);
        FromAppend(first.items, rest.items, p);
        ContributionTwice(tree, p, order, first.order, rest.order);
      } else {
        var rest := ExpandLines(tree, path, lines[1..], order);
        ExpandLinesContributes(tree, path, lines[1..], order, p);
        if entry.Item? {
          FromAppend([entry.requirement], rest.items, p);
          assert [entry.requirement][1..] == [];
        }
      }
    }
  }

  /**
   A successful expansion opens the include-reachable files once each, in depth-first preorder of first
   inclusion, and yields exactly their own requirements, each file's in its own order.
   */
  lemma ExpandExact(tree: Tree, root: string)
    requires Expand(tree, root, []).Done?
    ensures var r := Expand(tree, root, []);
            && IsDepthFirst(IncludeGraph(tree), root, r.order)
            && (forall i, j | 0 <= i < j < |r.order| :: r.order[i] != r.order[j])
            && (forall p :: p in r.order <==> Reachable(tree, root, p))
            && (forall p :: From(r.items, p) == if Reachable(tree, root, p) then OwnOf(tree, p) else [])
  {
    var r := Expand(tree, root, []);
    var g := IncludeGraph(tree);
    ExpandIsVisit(tree, root, []);
    VisitIsDepthFirst(g, root);
    ExpandSucceedsIff(tree, root);
    forall i, j | 0 <= i < j < |r.order|
      ensures r.order[i] != r.order[j]
    {
      assert g.key(r.order[i]) != g.key(r.order[j]);
    }
    forall p
      ensures p in r.order <==> Reachable(tree, root, p)
      ensures From(r.items, p) == if Reachable(tree, root, p) then OwnOf(tree, p) else []
    {
      ExpandVisitsReachable(tree, root, p);
      ExpandContributes(tree, root, [], p);
    }
  }
}
