// The linker's statements run one after another against a database session
// (src/codegraphcontext/tools/scip_indexer.py:101-124, 138-464).

module ScipSession {
  import opened Wrappers
  import opened Strings
  import opened ScipLabels
  import opened ScipOccurrences
  import opened ScipGraph
  import opened ScipLinker

  /** A database session: the store its statements run against. */
  class Session {
    var graph: Graph

    constructor (g: Graph)
      ensures graph == g
    {
      graph := g;
    }

    /** `session.run`: runs one statement and reports its `count(r)`. */
    method Run(q: Query) returns (created: nat)
      modifies this
      ensures graph == Exec(old(graph), q)
      ensures created == Rows(old(graph), q)
    {
      created := Rows(graph, q);
      graph := Exec(graph, q);
    }
  }

  /** The hierarchy block: one statement per directory component, moving
      the parent down each time, then the one linking the file. */
  method LinkHierarchy(session: Session, root: seq<string>, parts: seq<string>)
    modifies session
    ensures session.graph == RunAll(old(session.graph), Hierarchy(root, parts))
  {
    ghost var g0 := session.graph;
    var dirs := DirectoryParts(parts);
    var parentPath := root;
    var parentLabel := "Repository";
    for i := 0 to |dirs|
      invariant parentPath == root + dirs[..i]
      invariant parentLabel == ParentLabel(i)
      invariant session.graph == RunUpTo(g0, Hierarchy(root, parts), i)
    {
      var currentPath := parentPath + [dirs[i]];
      assert currentPath == root + dirs[..i + 1] by {
        assert dirs[..i + 1] == dirs[..i] + [dirs[i]];
      }
      var q := LinkDirectory(parentLabel, parentPath, currentPath, dirs[i]);
      assert q == HierarchyStep(root, parts, i);
      HierarchyRunStep(g0, root, parts, i);
      var created := session.Run(q);
      parentPath := currentPath;
      parentLabel := "Directory";
    }
    assert dirs[..|dirs|] == dirs;
    var q := LinkFile(parentLabel, parentPath, root + parts);
    assert q == HierarchyStep(root, parts, |dirs|);
    HierarchyRunStep(g0, root, parts, |dirs|);
    var created := session.Run(q);
  }

  /** `_process_document`: the statements for one document, in order. */
  method ProcessDocument(session: Session, doc: Document, root: seq<string>, symbols: map<string, SymbolInformation>,
                         spansOf: seq<string> -> Option<seq<Span>>)
    modifies session
    ensures session.graph == ApplyAll(old(session.graph), Plan(doc, root, symbols, spansOf))
  {
    if StartsWith(doc.relativePath, "..") {
      return;
    }
    ghost var g0 := session.graph;
    PlanSplit(g0, doc, root, symbols, spansOf);
    var filePath := FilePath(root, doc.relativePath);
    var created := session.Run(MergeFile(filePath, doc.relativePath, BaseName(filePath)));
    var parts := PathParts(doc.relativePath);
    LinkHierarchy(session, root, parts);
    LinkHierarchy(session, root, parts);

    var definitions, references := Partition(doc.occurrences);
    definitions := SortBy(definitions, StartKey);
    WriteDefinitions(session, definitions, filePath, symbols);

    var spans := spansOf(filePath);
    if spans.None? {
      return;
    }
    var functions := spans.value;
    if functions == [] {
      NoFunctionsNoCalls(references, filePath, symbols);
      return;
    }
    if references == [] {
      return;
    }
    WriteCalls(session, references, functions, filePath, symbols);
  }

  /** The definition loop: a node per definition in sorted order, local
      symbols skipped. */
  method WriteDefinitions(session: Session, definitions: seq<Occurrence>, filePath: seq<string>,
                          symbols: map<string, SymbolInformation>)
    modifies session
    ensures session.graph == ApplyAll(old(session.graph), DefinitionWrites(definitions, filePath, symbols))
  {
    ghost var g0 := session.graph;
    for i := 0 to |definitions|
      invariant session.graph == ApplyAll(g0, DefinitionWrites(definitions[..i], filePath, symbols))
    {
      var d := definitions[i];
      DefinitionStep(g0, definitions, i, d, filePath, symbols);
      if !IsLocal(d.symbol) {
        var created := session.Run(DefinitionWrite(d, filePath, symbols).q);
      }
    }
    assert definitions[..|definitions|] == definitions;
  }

  /** The reference loop: local symbols and references outside every
      function skipped; the caller matched by name, and by line when that
      reports no rows. */
  method WriteCalls(session: Session, references: seq<Occurrence>, functions: seq<Span>, filePath: seq<string>,
                    symbols: map<string, SymbolInformation>)
    modifies session
    ensures session.graph == ApplyAll(old(session.graph), CallWrites(references, functions, filePath, symbols))
  {
    ghost var g0 := session.graph;
    for i := 0 to |references|
      invariant session.graph == ApplyAll(g0, CallWrites(references[..i], functions, filePath, symbols))
    {
      var r := references[i];
      CallStep(g0, references, i, r, functions, filePath, symbols);
      if !IsLocal(r.symbol) {
        var caller := CallerOf(functions, r);
        if caller.Some? {
          WriteCall(session, r, caller.value, filePath, symbols);
        }
      }
    }
    assert references[..|references|] == references;
  }

  /** One CALLS edge: by the caller's name first, by its line when no edge came of that. */
  method WriteCall(session: Session, r: Occurrence, caller: Span, filePath: seq<string>,
                   symbols: map<string, SymbolInformation>)
    modifies session
    ensures session.graph == Apply(old(session.graph), CallWrite(r, caller, filePath, symbols))
  {
    var info := Lookup(symbols, r.symbol);
    var targetLabel := TargetLabel(info, r.symbol);
    var targetName := ExtractName(r.symbol, info);
    var byName := CallByName(filePath, caller.name, targetLabel, r.symbol, targetName);
    var byLine := CallByLine(filePath, caller.lineNumber, targetLabel, r.symbol, targetName);
    assert CallWrite(r, caller, filePath, symbols) == WithFallback(byName, byLine);
    var created := session.Run(byName);
    if created == 0 {
      created := session.Run(byLine);
    }
  }
}
