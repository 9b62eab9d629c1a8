/**
 * The graph store the SCIP linker writes to, as the effect of the Cypher
 * statements it issues: nodes carry a label and properties, `MERGE` creates
 * a node only when none with that label and those properties exists, `SET`
 * overwrites properties, and relationships form a set, so merging one twice
 * adds nothing.
 */
module ScipGraph {
  import opened Strings

  /** A property value: a string, an integer, a flag, or a filesystem path,
      which is kept as its list of components. */
  datatype Value = Str(s: string) | Num(n: int) | Flag(b: bool) | PathOf(parts: seq<string>)

  type Props = map<string, Value>

  /** A node: its label and its properties. */
  datatype Node = Node(nodeLabel: string, props: Props)

  /** A relationship from node `src` to node `dst`. */
  datatype Edge = Edge(src: nat, rel: string, dst: nat)

  /** The store: nodes by internal id, relationships, the relationships
      marked `scip_verified`, and the next unused id. */
  datatype Graph = Graph(nodes: map<nat, Node>, edges: set<Edge>, verified: set<Edge>, next: nat)

  const Contains := "CONTAINS"
  const Calls := "CALLS"

  /** The two labels a caller may carry. */
  const CallerLabels: set<string> := {"Function", "Method"}

  /** Every id in use is below `next`, so a new node never replaces one. */
  predicate Valid(g: Graph) {
    forall id | id in g.nodes :: id < g.next
  }

  /** `props` includes every property of the pattern with the same value. */
  predicate Has(props: Props, pat: Props) {
    forall k | k in pat :: k in props && props[k] == pat[k]
  }

  /** The nodes a `MATCH` finds: one of the labels, and the pattern's
      properties. */
  function Matching(g: Graph, labels: set<string>, pat: Props): set<nat> {
    set id | id in g.nodes && g.nodes[id].nodeLabel in labels && Has(g.nodes[id].props, pat)
  }

  /** `MERGE (n:label pat)`: nothing happens when some node matches, else a
      node with exactly the pattern's properties is created. */
  function Merge(g: Graph, nodeLabel: string, pat: Props): Graph {
    if Matching(g, {nodeLabel}, pat) != {} then g
    else g.(nodes := g.nodes[g.next := Node(nodeLabel, pat)], next := g.next + 1)
  }

  /** After a `MERGE` some node matches its pattern. */
  lemma MergeFinds(g: Graph, nodeLabel: string, pat: Props)
    ensures Matching(Merge(g, nodeLabel, pat), {nodeLabel}, pat) != {}
  {
    if Matching(g, {nodeLabel}, pat) == {} {
      var g1 := Merge(g, nodeLabel, pat);
      assert g1.nodes[g.next] == Node(nodeLabel, pat);
      assert g.next in Matching(g1, {nodeLabel}, pat);
    }
  }

  /** `SET n.k = v, ...` on every node in `ids`. */
  function SetProps(g: Graph, ids: set<nat>, upd: Props): Graph {
    g.(nodes := map id | id in g.nodes :: if id in ids then g.nodes[id].(props := g.nodes[id].props + upd) else g.nodes[id])
  }

  /** A relationship from each of `srcs` to each of `dsts`. */
  function Pairs(srcs: set<nat>, rel: string, dsts: set<nat>): set<Edge> {
    set s, d | s in srcs && d in dsts :: Edge(s, rel, d)
  }

  /** `MERGE (s)-[:rel]->(d)` for every pair. */
  function Link(g: Graph, srcs: set<nat>, rel: string, dsts: set<nat>): Graph {
    g.(edges := g.edges + Pairs(srcs, rel, dsts))
  }

  /** The pattern `{path: p}`. */
  function PathIs(p: seq<string>): Props {
    map["path" := PathOf(p)]
  }

  /** The pattern `{scip_symbol: s}`. */
  function SymbolIs(s: string): Props {
    map["scip_symbol" := Str(s)]
  }

  /** The statement shape `MATCH (p:parentLabel {path: parentPath})
      MERGE (c:childLabel childPat) SET c += upd MERGE (p)-[:CONTAINS]->(c)`:
      when no parent matches the statement has no rows and writes nothing. */
  function Attach(g: Graph, parentLabel: string, parentPath: seq<string>, childLabel: string, childPat: Props, upd: Props): Graph {
    var parents := Matching(g, {parentLabel}, PathIs(parentPath));
    if parents == {} then g
    else
      var g1 := Merge(g, childLabel, childPat);
      var children := Matching(g1, {childLabel}, childPat);
      Link(SetProps(g1, children, upd), parents, Contains, children)
  }

  /** The rows of a call statement: every caller with every target. */
  function CallRows(callers: set<nat>, targets: set<nat>): nat {
    |callers| * |targets|
  }

  /** `MATCH (caller callerPat) WHERE caller:Function OR caller:Method
      MERGE (target:targetLabel {scip_symbol: symbol})
      ON CREATE SET target.name = targetName
      MERGE (caller)-[r:CALLS]->(target) SET r.scip_verified = true`. */
  function Call(g: Graph, callerPat: Props, targetLabel: string, symbol: string, targetName: string): Graph {
    var callers := Matching(g, CallerLabels, callerPat);
    if callers == {} then g
    else
      var pat := SymbolIs(symbol);
      var g1 := Merge(g, targetLabel, pat);
      var targets := Matching(g1, {targetLabel}, pat);
      var g2 := if Matching(g, {targetLabel}, pat) == {} then SetProps(g1, targets, map["name" := Str(targetName)]) else g1;
      var calls := Pairs(callers, Calls, targets);
      g2.(edges := g2.edges + calls, verified := g2.verified + calls)
  }

  /** A node whose `scip_symbol` is a string starting with "local". */
  predicate IsLocalNode(n: Node) {
    "scip_symbol" in n.props && n.props["scip_symbol"].Str? && StartsWith(n.props["scip_symbol"].s, "local")
  }

  /** The ids of the local nodes. */
  function LocalIds(g: Graph): set<nat> {
    set id | id in g.nodes && IsLocalNode(g.nodes[id])
  }

  /** `MATCH (n) WHERE n.scip_symbol STARTS WITH 'local' DETACH DELETE n`. */
  function DeleteLocal(g: Graph): Graph {
    var gone := LocalIds(g);
    var nodes := map id | id in g.nodes && id !in gone :: g.nodes[id];
    var edges := set e | e in g.edges && e.src !in gone && e.dst !in gone;
    var verified := set e | e in g.verified && e.src !in gone && e.dst !in gone;
    Graph(nodes, edges, verified, g.next)
  }

  /** The cleanup removes exactly the local nodes and the relationships
      touching them, leaves every other node as it was, and a second cleanup
      finds nothing to remove. */
  lemma DeleteLocalSpec(g: Graph)
    ensures var r := DeleteLocal(g);
      && (forall id :: id in r.nodes <==> id in g.nodes && !IsLocalNode(g.nodes[id]))
      && (forall id | id in r.nodes :: r.nodes[id] == g.nodes[id])
      && (forall e :: e in r.edges <==> e in g.edges && e.src !in LocalIds(g) && e.dst !in LocalIds(g))
      && LocalIds(r) == {}
    ensures DeleteLocal(DeleteLocal(g)) == DeleteLocal(g)
  {
    var r := DeleteLocal(g);
    assert LocalIds(r) == {};
    assert DeleteLocal(r).nodes == r.nodes;
  }

  /** The statements the linker issues. Paths are lists of components. */
  datatype Query =
    | MergeFile(filePath: seq<string>, relativePath: string, name: string)
    | LinkDirectory(parentLabel: string, parentPath: seq<string>, dirPath: seq<string>, part: string)
    | LinkFile(parentLabel: string, parentPath: seq<string>, filePath: seq<string>)
    | MergeDefinition(filePath: seq<string>, nodeLabel: string, symbol: string, name: string, lineNumber: int)
    | CallByName(filePath: seq<string>, callerName: string, targetLabel: string, symbol: string, targetName: string)
    | CallByLine(filePath: seq<string>, callerLine: int, targetLabel: string, symbol: string, targetName: string)
    | CleanupLocal

  /** The properties a call statement matches its caller by. */
  function CallerPattern(q: Query): Props
    requires q.CallByName? || q.CallByLine?
  {
    if q.CallByName? then map["path" := PathOf(q.filePath), "name" := Str(q.callerName)]
    else map["path" := PathOf(q.filePath), "line_number" := Num(q.callerLine)]
  }

  /** The effect of running a statement. */
  function Exec(g: Graph, q: Query): Graph {
    match q
    case MergeFile(fp, rel, name) =>
      var g1 := Merge(g, "File", PathIs(fp));
      SetProps(g1, Matching(g1, {"File"}, PathIs(fp)), map["relative_path" := Str(rel), "name" := Str(name)])
    case LinkDirectory(pl, pp, dp, part) =>
      Attach(g, pl, pp, "Directory", PathIs(dp), map["name" := Str(part)])
    case LinkFile(pl, pp, fp) =>
      Link(g, Matching(g, {pl}, PathIs(pp)), Contains, Matching(g, {"File"}, PathIs(fp)))
    case MergeDefinition(fp, l, sym, name, line) =>
      Attach(g, "File", fp, l, SymbolIs(sym), map["name" := Str(name), "path" := PathOf(fp), "line_number" := Num(line)])
    case CallByName(_, _, tl, sym, tname) => Call(g, CallerPattern(q), tl, sym, tname)
    case CallByLine(_, _, tl, sym, tname) => Call(g, CallerPattern(q), tl, sym, tname)
    case CleanupLocal => DeleteLocal(g)
  }

  /** `count(r)` returned by a call statement: 0 exactly when no caller
      matched; every other statement returns nothing and counts 0. */
  function Rows(g: Graph, q: Query): nat {
    if q.CallByName? || q.CallByLine? then
      var callers := Matching(g, CallerLabels, CallerPattern(q));
      if callers == {} then 0
      else CallRows(callers, Matching(Merge(g, q.targetLabel, SymbolIs(q.symbol)), {q.targetLabel}, SymbolIs(q.symbol)))
    else 0
  }

  /** A call statement reports rows exactly when some caller matched, and
      then the store holds a verified CALLS relationship from every matching
      caller to a node carrying the target symbol. */
  lemma CallRowsSpec(g: Graph, q: Query)
    requires q.CallByName? || q.CallByLine?
    ensures Rows(g, q) > 0 <==> Matching(g, CallerLabels, CallerPattern(q)) != {}
    ensures Rows(g, q) == 0 ==> Exec(g, q) == g
    ensures forall c | c in Matching(g, CallerLabels, CallerPattern(q)) ::
      exists t | t in Exec(g, q).nodes && Has(Exec(g, q).nodes[t].props, SymbolIs(q.symbol)) ::
        Edge(c, Calls, t) in Exec(g, q).edges && Edge(c, Calls, t) in Exec(g, q).verified
  {
    var callers := Matching(g, CallerLabels, CallerPattern(q));
    if callers != {} {
      var pat := SymbolIs(q.symbol);
      var g1 := Merge(g, q.targetLabel, pat);
      var targets := Matching(g1, {q.targetLabel}, pat);
      MergeFinds(g, q.targetLabel, pat);
      var t :| t in targets;
      assert |callers| >= 1 && |targets| >= 1;
      assert CallRows(callers, targets) >= 1 by {
        assert |callers| * |targets| >= |targets|;
      }
      forall c | c in callers
        ensures exists t | t in Exec(g, q).nodes && Has(Exec(g, q).nodes[t].props, pat) ::
          Edge(c, Calls, t) in Exec(g, q).edges && Edge(c, Calls, t) in Exec(g, q).verified
      {
        assert Edge(c, Calls, t) in Pairs(callers, Calls, targets);
        SetPropsKeeps(g1, targets, map["name" := Str(q.targetName)], pat);
      }
    }
  }

  /** Setting properties that are not in `pat` on nodes that match it keeps
      them matching. */
  lemma SetPropsKeeps(g: Graph, ids: set<nat>, upd: Props, pat: Props)
    requires forall k | k in upd :: k !in pat
    ensures forall id | id in g.nodes && Has(g.nodes[id].props, pat) ::
      id in SetProps(g, ids, upd).nodes && Has(SetProps(g, ids, upd).nodes[id].props, pat)
  {
  }

  // ---------------------------------------------------------------------
  // Re-running a statement
  // ---------------------------------------------------------------------

  /** `upd` does not contradict the child pattern it is set next to. */
  predicate Compatible(pat: Props, upd: Props) {
    forall k | k in upd && k in pat :: upd[k] == pat[k]
  }

  /** No node can match both the parent and the child side of an `Attach`,
      before or after the `SET`. */
  predicate Separate(parentLabel: string, parentPath: seq<string>, childLabel: string, childPat: Props, upd: Props) {
    childLabel != parentLabel ||
      ("path" !in upd && "path" in childPat && childPat["path"] != PathOf(parentPath))
  }

  /** The state in which an `Attach` statement has nothing left to do: no
      parent matches, or the child exists, carries the set properties and is
      linked from every parent. */
  predicate AttachSettled(g: Graph, parentLabel: string, parentPath: seq<string>, childLabel: string, childPat: Props, upd: Props) {
    var parents := Matching(g, {parentLabel}, PathIs(parentPath));
    var children := Matching(g, {childLabel}, childPat);
    parents == {} ||
      (&& children != {}
       && (forall id | id in children :: Has(g.nodes[id].props, upd))
       && Pairs(parents, Contains, children) <= g.edges)
  }

  /** A settled `Attach` changes nothing. */
  lemma SettledAttachIdle(g: Graph, parentLabel: string, parentPath: seq<string>, childLabel: string, childPat: Props, upd: Props)
    requires AttachSettled(g, parentLabel, parentPath, childLabel, childPat, upd)
    ensures Attach(g, parentLabel, parentPath, childLabel, childPat, upd) == g
  {
    var parents := Matching(g, {parentLabel}, PathIs(parentPath));
    if parents != {} {
      var children := Matching(g, {childLabel}, childPat);
      var g2 := SetProps(g, children, upd);
      forall id | id in children ensures g.nodes[id].props + upd == g.nodes[id].props {
        var props := g.nodes[id].props;
        assert Has(props, upd);
        assert (props + upd).Keys == props.Keys;
      }
      assert g2.nodes == g.nodes;
    }
  }

  /** A node created by `Merge` of a valid store gets the fresh id, and the
      other nodes stay as they were. */
  lemma MergeShape(g: Graph, nodeLabel: string, pat: Props)
    requires Valid(g)
    ensures var g1 := Merge(g, nodeLabel, pat);
      && Valid(g1)
      && g1.edges == g.edges && g1.verified == g.verified
      && (g1.nodes == g.nodes || (g.next !in g.nodes && g1.nodes == g.nodes[g.next := Node(nodeLabel, pat)]))
  {
  }

  /** Setting properties none of which is in `pat`, or only on nodes outside
      `labels`, leaves what `MATCH (labels pat)` finds unchanged. */
  lemma SetKeepsMatching(g: Graph, ids: set<nat>, upd: Props, labels: set<string>, pat: Props)
    requires (forall k | k in pat :: k !in upd) || (forall id | id in ids && id in g.nodes :: g.nodes[id].nodeLabel !in labels)
    ensures Matching(SetProps(g, ids, upd), labels, pat) == Matching(g, labels, pat)
  {
  }

  /** Setting compatible properties on exactly the nodes `MATCH` finds keeps
      that match the same. */
  lemma SetKeepsOwnMatching(g: Graph, upd: Props, nodeLabel: string, pat: Props)
    requires Compatible(pat, upd)
    ensures var ids := Matching(g, {nodeLabel}, pat);
      Matching(SetProps(g, ids, upd), {nodeLabel}, pat) == ids
  {
    var ids := Matching(g, {nodeLabel}, pat);
    var g2 := SetProps(g, ids, upd);
    forall id | id in ids ensures id in Matching(g2, {nodeLabel}, pat) {
      assert Has(g.nodes[id].props + upd, pat);
    }
  }

  /** After an `Attach` nothing is left for it to do, as long as the parent
      and child sides cannot be confused and the `SET` keeps the child
      matching. */
  lemma AttachSettles(g: Graph, parentLabel: string, parentPath: seq<string>, childLabel: string, childPat: Props, upd: Props)
    requires Valid(g)
    requires Compatible(childPat, upd)
    requires Separate(parentLabel, parentPath, childLabel, childPat, upd)
    ensures Valid(Attach(g, parentLabel, parentPath, childLabel, childPat, upd))
    ensures AttachSettled(Attach(g, parentLabel, parentPath, childLabel, childPat, upd), parentLabel, parentPath, childLabel, childPat, upd)
    ensures Matching(Attach(g, parentLabel, parentPath, childLabel, childPat, upd), {parentLabel}, PathIs(parentPath))
         == Matching(g, {parentLabel}, PathIs(parentPath))
  {
    var parents := Matching(g, {parentLabel}, PathIs(parentPath));
    if parents != {} {
      var g1 := Merge(g, childLabel, childPat);
      MergeShape(g, childLabel, childPat);
      var children := Matching(g1, {childLabel}, childPat);
      var g2 := SetProps(g1, children, upd);
      assert Matching(g1, {parentLabel}, PathIs(parentPath)) == parents by {
        MergeKeepsParents(g, parentLabel, parentPath, childLabel, childPat, upd);
      }
      SetKeepsMatching(g1, children, upd, {parentLabel}, PathIs(parentPath));
      SetKeepsOwnMatching(g1, upd, childLabel, childPat);
      MergeFinds(g, childLabel, childPat);
      var g3 := Link(g2, parents, Contains, children);
      assert Matching(g3, {parentLabel}, PathIs(parentPath)) == parents;
      assert Matching(g3, {childLabel}, childPat) == children;
      forall id | id in children ensures Has(g3.nodes[id].props, upd) {
        assert g3.nodes[id].props == g1.nodes[id].props + upd;
      }
    }
  }

  /** The node a `Merge` may create does not match the parent side. */
  lemma MergeKeepsParents(g: Graph, parentLabel: string, parentPath: seq<string>, childLabel: string, childPat: Props, upd: Props)
    requires Valid(g)
    requires Separate(parentLabel, parentPath, childLabel, childPat, upd)
    ensures Matching(Merge(g, childLabel, childPat), {parentLabel}, PathIs(parentPath)) == Matching(g, {parentLabel}, PathIs(parentPath))
  {
    MergeShape(g, childLabel, childPat);
    var g1 := Merge(g, childLabel, childPat);
    if g1.nodes != g.nodes {
      assert !Has(childPat, PathIs(parentPath)) || childLabel != parentLabel;
    }
  }

  /** An `Attach` whose child pattern is `{path: p}`, which sets no path,
      changes neither what a `MATCH` on any other path finds nor any node it
      finds. */
  lemma AttachKeepsOtherPaths(g: Graph, parentLabel: string, parentPath: seq<string>, childLabel: string, p: seq<string>, upd: Props,
                              nodeLabel: string, x: seq<string>)
    requires Valid(g)
    requires "path" !in upd && x != p
    ensures var r := Attach(g, parentLabel, parentPath, childLabel, PathIs(p), upd);
      && Matching(r, {nodeLabel}, PathIs(x)) == Matching(g, {nodeLabel}, PathIs(x))
      && (forall id | id in Matching(g, {nodeLabel}, PathIs(x)) :: r.nodes[id] == g.nodes[id])
      && g.edges <= r.edges
  {
    var parents := Matching(g, {parentLabel}, PathIs(parentPath));
    if parents != {} {
      var g1 := Merge(g, childLabel, PathIs(p));
      MergeShape(g, childLabel, PathIs(p));
      assert Matching(g1, {nodeLabel}, PathIs(x)) == Matching(g, {nodeLabel}, PathIs(x));
      var children := Matching(g1, {childLabel}, PathIs(p));
      SetKeepsMatching(g1, children, upd, {nodeLabel}, PathIs(x));
      forall id | id in Matching(g, {nodeLabel}, PathIs(x)) ensures id !in children {
        assert g1.nodes[id] == g.nodes[id];
      }
    }
  }

  /** An `Attach` on the child path `p` keeps another `Attach`, whose paths
      both differ from `p`, settled. */
  lemma AttachKeepsSettled(g: Graph, pl: string, pp: seq<string>, cl: string, p: seq<string>, upd: Props,
                           pl2: string, pp2: seq<string>, cl2: string, p2: seq<string>, upd2: Props)
    requires Valid(g)
    requires "path" !in upd && pp2 != p && p2 != p
    requires AttachSettled(g, pl2, pp2, cl2, PathIs(p2), upd2)
    ensures AttachSettled(Attach(g, pl, pp, cl, PathIs(p), upd), pl2, pp2, cl2, PathIs(p2), upd2)
  {
    AttachKeepsOtherPaths(g, pl, pp, cl, p, upd, pl2, pp2);
    AttachKeepsOtherPaths(g, pl, pp, cl, p, upd, cl2, p2);
  }

  /** A `LinkFile` statement has nothing left to do. */
  predicate LinkSettled(g: Graph, parentLabel: string, parentPath: seq<string>, filePath: seq<string>) {
    Pairs(Matching(g, {parentLabel}, PathIs(parentPath)), Contains, Matching(g, {"File"}, PathIs(filePath))) <= g.edges
  }

  /** Whether a hierarchy statement has nothing left to do. */
  predicate Settled(g: Graph, q: Query)
    requires q.LinkDirectory? || q.LinkFile?
  {
    if q.LinkDirectory? then AttachSettled(g, q.parentLabel, q.parentPath, "Directory", PathIs(q.dirPath), map["name" := Str(q.part)])
    else LinkSettled(g, q.parentLabel, q.parentPath, q.filePath)
  }

  /** A settled hierarchy statement changes nothing. */
  lemma SettledIdle(g: Graph, q: Query)
    requires q.LinkDirectory? || q.LinkFile?
    requires Settled(g, q)
    ensures Exec(g, q) == g
  {
    if q.LinkDirectory? {
      SettledAttachIdle(g, q.parentLabel, q.parentPath, "Directory", PathIs(q.dirPath), map["name" := Str(q.part)]);
    }
  }

  /** Running a hierarchy statement settles it. */
  lemma ExecSettles(g: Graph, q: Query)
    requires Valid(g)
    requires q.LinkDirectory? || q.LinkFile?
    requires q.LinkDirectory? ==> q.parentPath != q.dirPath
    ensures Valid(Exec(g, q))
    ensures Settled(Exec(g, q), q)
  {
    if q.LinkDirectory? {
      AttachSettles(g, q.parentLabel, q.parentPath, "Directory", PathIs(q.dirPath), map["name" := Str(q.part)]);
    }
  }

  /** Running hierarchy statement `q` keeps hierarchy statement `s` settled
      when `q` creates no directory at a path `s` mentions. */
  lemma ExecKeepsSettled(g: Graph, q: Query, s: Query)
    requires Valid(g)
    requires q.LinkDirectory? || q.LinkFile?
    requires s.LinkDirectory? || s.LinkFile?
    requires q.LinkDirectory? ==> q.dirPath != s.parentPath && (s.LinkDirectory? ==> q.dirPath != s.dirPath)
    requires q.LinkDirectory? && s.LinkFile? ==> q.dirPath != s.filePath
    requires Settled(g, s)
    ensures Settled(Exec(g, q), s)
  {
    if q.LinkDirectory? && s.LinkDirectory? {
      var upd := map["name" := Str(q.part)];
      AttachKeepsSettled(g, q.parentLabel, q.parentPath, "Directory", q.dirPath, upd,
                         s.parentLabel, s.parentPath, "Directory", s.dirPath, map["name" := Str(s.part)]);
    } else if q.LinkDirectory? {
      var upd := map["name" := Str(q.part)];
      AttachKeepsOtherPaths(g, q.parentLabel, q.parentPath, "Directory", q.dirPath, upd, s.parentLabel, s.parentPath);
      AttachKeepsOtherPaths(g, q.parentLabel, q.parentPath, "Directory", q.dirPath, upd, "File", s.filePath);
    }
  }

  /** The effect of running the first `n` statements of `qs` in turn. */
  function RunUpTo(g: Graph, qs: seq<Query>, n: nat): Graph
    requires n <= |qs|
  {
    if n == 0 then g else Exec(RunUpTo(g, qs, n - 1), qs[n - 1])
  }

  /** The effect of running every statement of `qs` in turn. */
  function RunAll(g: Graph, qs: seq<Query>): Graph {
    RunUpTo(g, qs, |qs|)
  }

  // ---------------------------------------------------------------------
  // The directory hierarchy block
  // ---------------------------------------------------------------------

  /** `Path(relative_path).parts[:-1]`: every component but the file's. */
  function DirectoryParts(parts: seq<string>): seq<string> {
    if parts == [] then [] else parts[..|parts| - 1]
  }

  /** The statement the hierarchy block issues at step `i`: for each
      directory component, link it under its parent (the repository first);
      then link the innermost one, or the repository, to the file. */
  function HierarchyStep(root: seq<string>, parts: seq<string>, i: nat): Query
    requires i <= |DirectoryParts(parts)|
  {
    var dirs := DirectoryParts(parts);
    var parentLabel := if i == 0 then "Repository" else "Directory";
    if i < |dirs| then LinkDirectory(parentLabel, root + dirs[..i], root + dirs[..i + 1], dirs[i])
    else LinkFile(parentLabel, root + dirs, root + parts)
  }

  /** The label of the parent at step `i`: the repository, then directories. */
  function ParentLabel(i: nat): string {
    if i == 0 then "Repository" else "Directory"
  }

  /** The statements of the hierarchy block for a file with path components
      `parts` in the repository at `root`. */
  function Hierarchy(root: seq<string>, parts: seq<string>): (r: seq<Query>)
    ensures |r| == |DirectoryParts(parts)| + 1
    ensures forall i | 0 <= i < |r| :: r[i] == HierarchyStep(root, parts, i)
  {
    seq(|DirectoryParts(parts)| + 1, i requires 0 <= i <= |DirectoryParts(parts)| => HierarchyStep(root, parts, i))
  }

  /** The shape of a hierarchy block under a repository path of `depth`
      components: directory statements, each one level deeper than the one
      before, then a single file statement. */
  predicate Chain(qs: seq<Query>, depth: nat) {
    forall i | 0 <= i < |qs| ::
      && (qs[i].LinkDirectory? || qs[i].LinkFile?)
      && (qs[i].LinkDirectory? <==> i < |qs| - 1)
      && |qs[i].parentPath| == depth + i
      && (qs[i].LinkDirectory? ==> |qs[i].dirPath| == depth + i + 1)
  }

  /** The hierarchy block has that shape. */
  lemma HierarchyChain(root: seq<string>, parts: seq<string>)
    ensures Chain(Hierarchy(root, parts), |root|)
  {
    var h := Hierarchy(root, parts);
    var dirs := DirectoryParts(parts);
    forall i | 0 <= i < |h|
      ensures |h[i].parentPath| == |root| + i
      ensures h[i].LinkDirectory? ==> |h[i].dirPath| == |root| + i + 1
    {
      assert |root + dirs[..i]| == |root| + i;
      if i < |dirs| {
        assert |root + dirs[..i + 1]| == |root| + i + 1;
      }
    }
  }

  /** Running a prefix of a chain keeps the graph valid. */
  lemma {:induction false} ChainValid(g: Graph, qs: seq<Query>, depth: nat, m: nat)
    requires Valid(g) && Chain(qs, depth)
    requires m <= |qs|
    ensures Valid(RunUpTo(g, qs, m))
  {
    if m > 0 {
      ChainValid(g, qs, depth, m - 1);
      var q := qs[m - 1];
      assert q.LinkDirectory? ==> |q.parentPath| != |q.dirPath|;
      ExecSettles(RunUpTo(g, qs, m - 1), q);
    }
  }

  /** Running statement `m - 1` of a chain after the ones before it leaves
      all of them settled. */
  lemma ChainStep(before: Graph, qs: seq<Query>, depth: nat, m: nat)
    requires Valid(before) && Chain(qs, depth)
    requires 0 < m <= |qs|
    requires forall i | 0 <= i < m - 1 :: Settled(before, qs[i])
    ensures Valid(Exec(before, qs[m - 1]))
    ensures forall i | 0 <= i < m :: Settled(Exec(before, qs[m - 1]), qs[i])
  {
    var q := qs[m - 1];
    assert q.LinkDirectory? ==> |q.parentPath| != |q.dirPath|;
    ExecSettles(before, q);
    ChainStepKeeps(before, qs, depth, m);
  }

  /** Running statement `m - 1` of a chain keeps every earlier statement
      settled: it works on a longer path than any of them mentions. */
  lemma ChainStepKeeps(before: Graph, qs: seq<Query>, depth: nat, m: nat)
    requires Valid(before) && Chain(qs, depth)
    requires 0 < m <= |qs|
    requires forall i | 0 <= i < m - 1 :: Settled(before, qs[i])
    ensures forall i | 0 <= i < m - 1 :: Settled(Exec(before, qs[m - 1]), qs[i])
  {
    var q := qs[m - 1];
    forall i | 0 <= i < m - 1 ensures Settled(Exec(before, q), qs[i]) {
      var s := qs[i];
      assert s.LinkDirectory? && |s.parentPath| == depth + i && |s.dirPath| == depth + i + 1;
      assert q.LinkDirectory? ==> |q.dirPath| == depth + m;
      ExecKeepsSettled(before, q, s);
    }
  }

  /** After the first `m` statements of a chain each of them has nothing
      left to do: a statement settles itself, and the later ones work on
      longer paths, so they leave it settled. */
  lemma {:induction false} ChainSettles(g: Graph, qs: seq<Query>, depth: nat, m: nat)
    requires Valid(g) && Chain(qs, depth)
    requires m <= |qs|
    ensures Valid(RunUpTo(g, qs, m))
    ensures forall i | 0 <= i < m :: Settled(RunUpTo(g, qs, m), qs[i])
  {
    if m > 0 {
      ChainSettles(g, qs, depth, m - 1);
      ChainStep(RunUpTo(g, qs, m - 1), qs, depth, m);
    }
  }

  /** Running one more statement of the hierarchy block runs its step. */
  lemma HierarchyRunStep(g: Graph, root: seq<string>, parts: seq<string>, i: nat)
    requires i <= |DirectoryParts(parts)|
    ensures RunUpTo(g, Hierarchy(root, parts), i + 1)
         == Exec(RunUpTo(g, Hierarchy(root, parts), i), HierarchyStep(root, parts, i))
  {
  }

  /** After the first `m` statements of the hierarchy block each of them has
      nothing left to do. */
  lemma HierarchySettles(g: Graph, root: seq<string>, parts: seq<string>, m: nat)
    requires Valid(g)
    requires m <= |Hierarchy(root, parts)|
    ensures Valid(RunUpTo(g, Hierarchy(root, parts), m))
    ensures forall i | 0 <= i < m :: Settled(RunUpTo(g, Hierarchy(root, parts), m), Hierarchy(root, parts)[i])
  {
    HierarchyChain(root, parts);
    ChainSettles(g, Hierarchy(root, parts), |root|, m);
  }

  /** Statements with nothing left to do change nothing when run. */
  lemma {:induction false} RunSettledIdle(g: Graph, qs: seq<Query>, n: nat)
    requires n <= |qs|
    requires forall i | 0 <= i < |qs| :: qs[i].LinkDirectory? || qs[i].LinkFile?
    requires forall i | 0 <= i < |qs| :: Settled(g, qs[i])
    ensures RunUpTo(g, qs, n) == g
  {
    if n > 0 {
      RunSettledIdle(g, qs, n - 1);
      SettledIdle(g, qs[n - 1]);
    }
  }

  /** The hierarchy block is written twice; running it again right after
      itself changes nothing, so the second copy adds no node, property or
      relationship. */
  lemma HierarchyIdempotent(g: Graph, root: seq<string>, parts: seq<string>)
    requires Valid(g)
    ensures Valid(RunAll(g, Hierarchy(root, parts)))
    ensures RunAll(RunAll(g, Hierarchy(root, parts)), Hierarchy(root, parts)) == RunAll(g, Hierarchy(root, parts))
  {
    var h := Hierarchy(root, parts);
    HierarchySettles(g, root, parts, |h|);
    RunSettledIdle(RunAll(g, h), h, |h|);
  }

  /** Some node matches each side, and every parent is linked to every
      child. */
  predicate Linked(g: Graph, parentLabel: string, parentPath: seq<string>, childLabel: string, childPath: seq<string>) {
    var parents := Matching(g, {parentLabel}, PathIs(parentPath));
    var children := Matching(g, {childLabel}, PathIs(childPath));
    parents != {} && children != {} && Pairs(parents, Contains, children) <= g.edges
  }

  /** A chain leaves what a `MATCH` finds at the repository's own path or
      at a path longer than any directory's unchanged. */
  lemma {:induction false} ChainKeepsEnds(g: Graph, qs: seq<Query>, depth: nat, m: nat, nodeLabel: string, x: seq<string>)
    requires Valid(g) && Chain(qs, depth)
    requires m <= |qs|
    requires |x| == depth || |x| >= depth + |qs|
    ensures Matching(RunUpTo(g, qs, m), {nodeLabel}, PathIs(x)) == Matching(g, {nodeLabel}, PathIs(x))
  {
    if m > 0 {
      ChainKeepsEnds(g, qs, depth, m - 1, nodeLabel, x);
      ChainValid(g, qs, depth, m - 1);
      var q := qs[m - 1];
      if q.LinkDirectory? {
        assert |q.dirPath| == depth + m;
        AttachKeepsOtherPaths(RunUpTo(g, qs, m - 1), q.parentLabel, q.parentPath, "Directory", q.dirPath,
                              map["name" := Str(q.part)], nodeLabel, x);
      }
    }
  }

  /** The hierarchy block leaves what a `MATCH` finds at the repository's
      own path or at a path longer than any directory's unchanged. */
  lemma HierarchyKeepsEnds(g: Graph, root: seq<string>, parts: seq<string>, m: nat, nodeLabel: string, x: seq<string>)
    requires Valid(g)
    requires m <= |Hierarchy(root, parts)|
    requires |x| == |root| || |x| > |root| + |DirectoryParts(parts)|
    ensures Matching(RunUpTo(g, Hierarchy(root, parts), m), {nodeLabel}, PathIs(x)) == Matching(g, {nodeLabel}, PathIs(x))
  {
    HierarchyChain(root, parts);
    ChainKeepsEnds(g, Hierarchy(root, parts), |root|, m, nodeLabel, x);
  }

  /** With the repository node present, after the block every step's parent
      exists: the repository, then each directory it created. */
  lemma {:induction false} HierarchyParents(g: Graph, root: seq<string>, parts: seq<string>, i: nat)
    requires Valid(g)
    requires Matching(g, {"Repository"}, PathIs(root)) != {}
    requires i <= |DirectoryParts(parts)|
    ensures Matching(RunAll(g, Hierarchy(root, parts)), {ParentLabel(i)}, PathIs(root + DirectoryParts(parts)[..i])) != {}
  {
    var h := Hierarchy(root, parts);
    var dirs := DirectoryParts(parts);
    HierarchySettles(g, root, parts, |h|);
    if i == 0 {
      HierarchyKeepsEnds(g, root, parts, |h|, "Repository", root);
      assert root + dirs[..0] == root;
    } else {
      HierarchyParents(g, root, parts, i - 1);
      assert Settled(RunAll(g, h), h[i - 1]);
      assert dirs[..i - 1 + 1] == dirs[..i];
    }
  }

  /** Directory step `i` is done in `r`: its parent is linked to its
      directory, which carries its component as its name. */
  predicate DirectoryDone(r: Graph, root: seq<string>, dirs: seq<string>, i: nat)
    requires i < |dirs|
  {
    && Linked(r, ParentLabel(i), root + dirs[..i], "Directory", root + dirs[..i + 1])
    && forall id | id in Matching(r, {"Directory"}, PathIs(root + dirs[..i + 1])) ::
         "name" in r.nodes[id].props && r.nodes[id].props["name"] == Str(dirs[i])
  }

  /** After the block, directory step `i` is done. */
  lemma DirectoryLinked(g: Graph, root: seq<string>, parts: seq<string>, i: nat)
    requires Valid(g)
    requires Matching(g, {"Repository"}, PathIs(root)) != {}
    requires i < |DirectoryParts(parts)|
    ensures DirectoryDone(RunAll(g, Hierarchy(root, parts)), root, DirectoryParts(parts), i)
  {
    var h := Hierarchy(root, parts);
    HierarchySettles(g, root, parts, |h|);
    HierarchyParents(g, root, parts, i);
    assert Settled(RunAll(g, h), h[i]);
  }

  /** After the block, the last step has linked the innermost directory, or
      the repository, to the file. */
  lemma FileLinked(g: Graph, root: seq<string>, parts: seq<string>)
    requires Valid(g)
    requires Matching(g, {"Repository"}, PathIs(root)) != {}
    requires Matching(g, {"File"}, PathIs(root + parts)) != {}
    ensures Linked(RunAll(g, Hierarchy(root, parts)), ParentLabel(|DirectoryParts(parts)|),
                   root + DirectoryParts(parts), "File", root + parts)
  {
    var h := Hierarchy(root, parts);
    var dirs := DirectoryParts(parts);
    HierarchySettles(g, root, parts, |h|);
    HierarchyParents(g, root, parts, |dirs|);
    assert dirs[..|dirs|] == dirs;
    HierarchyKeepsEnds(g, root, parts, |h|, "File", root + parts);
    assert Settled(RunAll(g, h), h[|dirs|]);
  }

  /** With the repository node and the file node present, the block leaves a
      chain of CONTAINS relationships from the repository through one
      directory per component, each carrying its component as its name, down
      to the file. */
  lemma HierarchyLinks(g: Graph, root: seq<string>, parts: seq<string>)
    requires Valid(g)
    requires Matching(g, {"Repository"}, PathIs(root)) != {}
    requires Matching(g, {"File"}, PathIs(root + parts)) != {}
    ensures forall i | 0 <= i < |DirectoryParts(parts)| ::
      DirectoryDone(RunAll(g, Hierarchy(root, parts)), root, DirectoryParts(parts), i)
    ensures Linked(RunAll(g, Hierarchy(root, parts)), ParentLabel(|DirectoryParts(parts)|),
                   root + DirectoryParts(parts), "File", root + parts)
  {
    forall i | 0 <= i < |DirectoryParts(parts)| {
      DirectoryLinked(g, root, parts, i);
    }
    FileLinked(g, root, parts);
  }
}
