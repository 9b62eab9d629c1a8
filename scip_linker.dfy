// The SCIP linker: turns one SCIP index into graph writes, document by
// document (src/codegraphcontext/tools/scip_indexer.py:101-476).

module ScipLinker {
  import opened Wrappers
  import opened Strings
  import opened ScipLabels
  import opened ScipOccurrences
  import opened ScipGraph

  /** One source file of the index. */
  datatype Document = Document(relativePath: string, occurrences: seq<Occurrence>, symbols: seq<SymbolInformation>)

  /** A decoded SCIP index. */
  datatype Index = Index(documents: seq<Document>, externalSymbols: seq<SymbolInformation>)

  // ---------------------------------------------------------------------
  // The symbol table
  // ---------------------------------------------------------------------

  /** The table after entering `infos` in order, each under its symbol. */
  function AddSymbols(m: map<string, SymbolInformation>, infos: seq<SymbolInformation>): map<string, SymbolInformation> {
    if infos == [] then m
    else
      var s := infos[|infos| - 1];
      AddSymbols(m, infos[..|infos| - 1])[s.symbol := s]
  }

  /** The symbols of every document, document after document. */
  function DocumentSymbols(documents: seq<Document>): seq<SymbolInformation> {
    if documents == [] then []
    else DocumentSymbols(documents[..|documents| - 1]) + documents[|documents| - 1].symbols
  }

  /** `symbol_info_map`: the external symbols, then every document's own
      symbols on top of them. */
  function SymbolMap(index: Index): map<string, SymbolInformation> {
    AddSymbols(AddSymbols(map[], index.externalSymbols), DocumentSymbols(index.documents))
  }

  /** A reference reading of the table: the last entry for `k`, searching
      from the end. */
  function LastEntry(infos: seq<SymbolInformation>, k: string): Option<SymbolInformation> {
    if infos == [] then None
    else if infos[|infos| - 1].symbol == k then Some(infos[|infos| - 1])
    else LastEntry(infos[..|infos| - 1], k)
  }

  /** Entry `i` is for `k` and no later entry is. */
  predicate LastFor(infos: seq<SymbolInformation>, k: string, i: int) {
    0 <= i < |infos| && infos[i].symbol == k && forall j | i < j < |infos| :: infos[j].symbol != k
  }

  /** `LastEntry` finds nothing exactly when no entry is for `k`, and
      otherwise the entry for `k` that comes last. */
  lemma {:induction false} LastEntrySpec(infos: seq<SymbolInformation>, k: string)
    ensures LastEntry(infos, k).None? <==> forall i | 0 <= i < |infos| :: infos[i].symbol != k
    ensures LastEntry(infos, k).Some? ==> exists i :: LastFor(infos, k, i) && infos[i] == LastEntry(infos, k).value
  {
    if infos != [] {
      var n := |infos| - 1;
      var front := infos[..n];
      LastEntrySpec(front, k);
      if infos[n].symbol == k {
        assert LastFor(infos, k, n);
      } else {
        assert forall i | 0 <= i < n :: front[i] == infos[i];
        if LastEntry(infos, k).Some? {
          var i :| LastFor(front, k, i) && front[i] == LastEntry(front, k).value;
          assert LastFor(infos, k, i);
        }
      }
    }
  }

  /** Entering `infos` into `m` agrees with the reference reading: a key is
      present when `m` had it or some entry is for it, and maps to the last
      entry for it, else to what `m` held. */
  lemma {:induction false} AddSymbolsSpec(m: map<string, SymbolInformation>, infos: seq<SymbolInformation>)
    ensures forall k :: k in AddSymbols(m, infos) <==> k in m || LastEntry(infos, k).Some?
    ensures forall k | k in AddSymbols(m, infos) ::
      AddSymbols(m, infos)[k] == if LastEntry(infos, k).Some? then LastEntry(infos, k).value else m[k]
  {
    if infos != [] {
      AddSymbolsSpec(m, infos[..|infos| - 1]);
    }
  }

  /** The table holds the symbols the external list or some document
      describes; a symbol some document describes maps to the last document
      description of it, whatever the external symbols say, and any other to
      its last external description. */
  lemma SymbolMapSpec(index: Index)
    ensures forall k :: k in SymbolMap(index) <==>
      LastEntry(index.externalSymbols, k).Some? || LastEntry(DocumentSymbols(index.documents), k).Some?
    ensures forall k | LastEntry(DocumentSymbols(index.documents), k).Some? ::
      SymbolMap(index)[k] == LastEntry(DocumentSymbols(index.documents), k).value
    ensures forall k | LastEntry(DocumentSymbols(index.documents), k).None? && LastEntry(index.externalSymbols, k).Some? ::
      SymbolMap(index)[k] == LastEntry(index.externalSymbols, k).value
  {
    AddSymbolsSpec(map[], index.externalSymbols);
    AddSymbolsSpec(AddSymbols(map[], index.externalSymbols), DocumentSymbols(index.documents));
  }

  /** `DocumentSymbols` over one more document. */
  lemma DocumentSymbolsSnoc(documents: seq<Document>, d: Document)
    ensures DocumentSymbols(documents + [d]) == DocumentSymbols(documents) + d.symbols
  {
    assert (documents + [d])[..|documents|] == documents;
  }

  /** `symbol_map.get(symbol)`. */
  function Lookup(symbols: map<string, SymbolInformation>, symbol: string): Option<SymbolInformation> {
    if symbol in symbols then Some(symbols[symbol]) else None
  }

  /** `symbol.startswith("local")`: document-local symbols. */
  predicate IsLocal(symbol: string) {
    StartsWith(symbol, "local")
  }

  // ---------------------------------------------------------------------
  // Paths
  // ---------------------------------------------------------------------

  /** The pieces kept as path components: neither empty nor ".". */
  function KeepParts(pieces: seq<string>): (r: seq<string>)
    ensures forall i | 0 <= i < |r| :: r[i] in pieces && r[i] != "" && r[i] != "."
  {
    if pieces == [] then []
    else
      var front := KeepParts(pieces[..|pieces| - 1]);
      var p := pieces[|pieces| - 1];
      if p == "" || p == "." then front else front + [p]
  }

  /** `Path(relative_path).parts` for a relative path: the pieces between
      slashes, without the empty and "." ones. */
  function PathParts(rel: string): (r: seq<string>)
    ensures forall i | 0 <= i < |r| :: r[i] != "" && r[i] != "." && '/' !in r[i]
  {
    KeepParts(Split(rel, '/'))
  }

  /** The file's path: the repository root joined with the relative path. */
  function FilePath(root: seq<string>, rel: string): seq<string> {
    root + PathParts(rel)
  }

  /** `os.path.basename`: the last component, "" for the file system root. */
  function BaseName(path: seq<string>): string {
    if path == [] then "" else path[|path| - 1]
  }

  // ---------------------------------------------------------------------
  // Writes
  // ---------------------------------------------------------------------

  /** One graph write of the linker: a statement, or a call statement
      followed by another one when the first reports no rows. */
  datatype Write = Once(q: Query) | WithFallback(primary: Query, fallback: Query)

  /** The effect of one write. */
  function Apply(g: Graph, w: Write): Graph {
    match w
    case Once(q) => Exec(g, q)
    case WithFallback(primary, fallback) =>
      if Rows(g, primary) == 0 then Exec(Exec(g, primary), fallback) else Exec(g, primary)
  }

  /** The effect of the writes in turn. */
  function ApplyAll(g: Graph, ws: seq<Write>): Graph {
    if ws == [] then g else Apply(ApplyAll(g, ws[..|ws| - 1]), ws[|ws| - 1])
  }

  /** Running two lists of writes one after the other is running their
      concatenation. */
  lemma {:induction false} ApplyAllAppend(g: Graph, a: seq<Write>, b: seq<Write>)
    ensures ApplyAll(g, a + b) == ApplyAll(ApplyAll(g, a), b)
  {
    if b == [] {
      assert a + b == a;
    } else {
      var n := |b| - 1;
      ApplyAllAppend(g, a, b[..n]);
      assert (a + b)[..|a + b| - 1] == a + b[..n];
    }
  }

  /** Each statement as a write of its own. */
  function Onces(qs: seq<Query>): (r: seq<Write>)
    ensures |r| == |qs| && forall i | 0 <= i < |qs| :: r[i] == Once(qs[i])
  {
    seq(|qs|, i requires 0 <= i < |qs| => Once(qs[i]))
  }

  /** Writing statements one at a time is running them in turn. */
  lemma {:induction false} ApplyOnces(g: Graph, qs: seq<Query>, n: nat)
    requires n <= |qs|
    ensures ApplyAll(g, Onces(qs)[..n]) == RunUpTo(g, qs, n)
  {
    if n > 0 {
      ApplyOnces(g, qs, n - 1);
      assert Onces(qs)[..n][..n - 1] == Onces(qs)[..n - 1];
    }
  }

  /** The fallback rule: the statement matching the caller by line runs
      exactly when the one matching it by name finds no caller, and then the
      by-name statement has left the store untouched. */
  lemma FallbackRule(g: Graph, w: Write)
    requires w.WithFallback?
    requires w.primary.CallByName? || w.primary.CallByLine?
    ensures Matching(g, CallerLabels, CallerPattern(w.primary)) != {} ==> Apply(g, w) == Exec(g, w.primary)
    ensures Matching(g, CallerLabels, CallerPattern(w.primary)) == {} ==> Apply(g, w) == Exec(g, w.fallback)
  {
    CallRowsSpec(g, w.primary);
  }

  // ---------------------------------------------------------------------
  // The writes for one document
  // ---------------------------------------------------------------------

  /** The node for a definition: labelled by the label rule, named by the
      name rule, on the one-based line the definition starts on. */
  function DefinitionWrite(d: Occurrence, filePath: seq<string>, symbols: map<string, SymbolInformation>): (w: Write)
    ensures w.Once? && w.q.MergeDefinition? && w.q.symbol == d.symbol && w.q.filePath == filePath
    ensures w.q.lineNumber == StartLine(d) + 1
  {
    Once(MergeDefinition(filePath, DefinitionLabel(Lookup(symbols, d.symbol), d.symbol), d.symbol,
                         ExtractName(d.symbol, Lookup(symbols, d.symbol)), StartLine(d) + 1))
  }

  /** The definition writes, in order, skipping local symbols. */
  function DefinitionWrites(definitions: seq<Occurrence>, filePath: seq<string>, symbols: map<string, SymbolInformation>): seq<Write> {
    if definitions == [] then []
    else
      var d := definitions[|definitions| - 1];
      DefinitionWrites(definitions[..|definitions| - 1], filePath, symbols)
        + if IsLocal(d.symbol) then [] else [DefinitionWrite(d, filePath, symbols)]
  }

  /** The CALLS write for a reference attributed to `caller`: first by the
      caller's name, then by its first line. */
  function CallWrite(r: Occurrence, caller: Span, filePath: seq<string>, symbols: map<string, SymbolInformation>): Write {
    var info := Lookup(symbols, r.symbol);
    var targetLabel := TargetLabel(info, r.symbol);
    var targetName := ExtractName(r.symbol, info);
    WithFallback(CallByName(filePath, caller.name, targetLabel, r.symbol, targetName),
                 CallByLine(filePath, caller.lineNumber, targetLabel, r.symbol, targetName))
  }

  /** The caller of a reference: the narrowest function around its one-based
      line. */
  function CallerOf(functions: seq<Span>, r: Occurrence): Option<Span> {
    NarrowestCaller(functions, StartLine(r) + 1)
  }

  /** The call writes, in order, skipping local symbols and references no
      function encloses. */
  function CallWrites(references: seq<Occurrence>, functions: seq<Span>, filePath: seq<string>,
                      symbols: map<string, SymbolInformation>): seq<Write> {
    if references == [] then []
    else
      var r := references[|references| - 1];
      var front := CallWrites(references[..|references| - 1], functions, filePath, symbols);
      if IsLocal(r.symbol) then front
      else match CallerOf(functions, r)
        case None => front
        case Some(caller) => front + [CallWrite(r, caller, filePath, symbols)]
  }

  /** One more write at the end. */
  lemma ApplyAllSnoc(g: Graph, ws: seq<Write>, w: Write)
    ensures ApplyAll(g, ws + [w]) == Apply(ApplyAll(g, ws), w)
  {
    assert (ws + [w])[..|ws|] == ws;
  }

  /** One more definition: its write, unless its symbol is local. */
  lemma DefinitionWritesStep(definitions: seq<Occurrence>, i: nat, filePath: seq<string>, symbols: map<string, SymbolInformation>)
    requires i < |definitions|
    ensures DefinitionWrites(definitions[..i + 1], filePath, symbols)
         == DefinitionWrites(definitions[..i], filePath, symbols)
            + if IsLocal(definitions[i].symbol) then [] else [DefinitionWrite(definitions[i], filePath, symbols)]
  {
    assert definitions[..i + 1][..i] == definitions[..i];
  }

  /** One more reference: its write, unless its symbol is local or no
      function encloses it. */
  lemma CallWritesStep(references: seq<Occurrence>, i: nat, functions: seq<Span>, filePath: seq<string>,
                       symbols: map<string, SymbolInformation>)
    requires i < |references|
    ensures CallWrites(references[..i + 1], functions, filePath, symbols)
         == CallWrites(references[..i], functions, filePath, symbols)
            + if IsLocal(references[i].symbol) || CallerOf(functions, references[i]).None? then []
              else [CallWrite(references[i], CallerOf(functions, references[i]).value, filePath, symbols)]
  {
    assert references[..i + 1][..i] == references[..i];
  }

  /** The store after one more definition: unchanged for a local symbol,
      else the store after its statement. */
  lemma DefinitionStep(g: Graph, definitions: seq<Occurrence>, i: nat, d: Occurrence, filePath: seq<string>,
                       symbols: map<string, SymbolInformation>)
    requires i < |definitions| && d == definitions[i]
    ensures ApplyAll(g, DefinitionWrites(definitions[..i + 1], filePath, symbols))
         == if IsLocal(d.symbol) then ApplyAll(g, DefinitionWrites(definitions[..i], filePath, symbols))
            else Apply(ApplyAll(g, DefinitionWrites(definitions[..i], filePath, symbols)), DefinitionWrite(d, filePath, symbols))
  {
    var done := DefinitionWrites(definitions[..i], filePath, symbols);
    DefinitionWritesStep(definitions, i, filePath, symbols);
    if IsLocal(d.symbol) {
      assert done + [] == done;
    } else {
      ApplyAllSnoc(g, done, DefinitionWrite(d, filePath, symbols));
    }
  }

  /** The store after one more reference: unchanged for a local symbol or a
      reference no function encloses, else the store after its call write. */
  lemma CallStep(g: Graph, references: seq<Occurrence>, i: nat, r: Occurrence, functions: seq<Span>, filePath: seq<string>,
                 symbols: map<string, SymbolInformation>)
    requires i < |references| && r == references[i]
    ensures ApplyAll(g, CallWrites(references[..i + 1], functions, filePath, symbols))
         == if IsLocal(r.symbol) || CallerOf(functions, r).None? then ApplyAll(g, CallWrites(references[..i], functions, filePath, symbols))
            else Apply(ApplyAll(g, CallWrites(references[..i], functions, filePath, symbols)),
                       CallWrite(r, CallerOf(functions, r).value, filePath, symbols))
  {
    var done := CallWrites(references[..i], functions, filePath, symbols);
    CallWritesStep(references, i, functions, filePath, symbols);
    if IsLocal(r.symbol) || CallerOf(functions, r).None? {
      assert done + [] == done;
    } else {
      ApplyAllSnoc(g, done, CallWrite(r, CallerOf(functions, r).value, filePath, symbols));
    }
  }

  /** Every definition write is for a non-local definition of the list, and
      every non-local definition gets its write. */
  lemma {:induction false} DefinitionWritesSpec(definitions: seq<Occurrence>, filePath: seq<string>, symbols: map<string, SymbolInformation>)
    ensures forall w | w in DefinitionWrites(definitions, filePath, symbols) ::
      exists d | d in definitions :: !IsLocal(d.symbol) && w == DefinitionWrite(d, filePath, symbols)
    ensures forall d | d in definitions && !IsLocal(d.symbol) :: DefinitionWrite(d, filePath, symbols) in DefinitionWrites(definitions, filePath, symbols)
  {
    if definitions != [] {
      var front := definitions[..|definitions| - 1];
      DefinitionWritesSpec(front, filePath, symbols);
      assert definitions == front + [definitions[|definitions| - 1]];
    }
  }

  /** Every call write is for a non-local reference of the list and its
      caller, and every non-local reference that has a caller gets its
      write. */
  lemma {:induction false} CallWritesSpec(references: seq<Occurrence>, functions: seq<Span>, filePath: seq<string>,
                                          symbols: map<string, SymbolInformation>)
    ensures forall w | w in CallWrites(references, functions, filePath, symbols) ::
      exists r | r in references :: !IsLocal(r.symbol) && CallerOf(functions, r).Some? &&
        w == CallWrite(r, CallerOf(functions, r).value, filePath, symbols)
    ensures forall r | r in references && !IsLocal(r.symbol) && CallerOf(functions, r).Some? ::
      CallWrite(r, CallerOf(functions, r).value, filePath, symbols) in CallWrites(references, functions, filePath, symbols)
  {
    if references != [] {
      var front := references[..|references| - 1];
      CallWritesSpec(front, functions, filePath, symbols);
      assert references == front + [references[|references| - 1]];
    }
  }

  /** Every write for one document, in the order they are issued: the file
      node, the hierarchy block twice over, the definitions in (line,
      character) order, then the calls, which need the function spans the
      structural parser reports for the file (None when the file is not on
      disk). A document outside the repository gets none. */
  function Plan(doc: Document, root: seq<string>, symbols: map<string, SymbolInformation>,
                spansOf: seq<string> -> Option<seq<Span>>): seq<Write> {
    if StartsWith(doc.relativePath, "..") then []
    else
      var hierarchy := Onces(Hierarchy(root, PathParts(doc.relativePath)));
      [Once(FileStatement(doc, root))] + hierarchy + hierarchy + LinkWrites(doc, root, symbols, spansOf)
  }

  /** The statement for the file node: its absolute path, relative path and
      base name. */
  function FileStatement(doc: Document, root: seq<string>): Query {
    var filePath := FilePath(root, doc.relativePath);
    MergeFile(filePath, doc.relativePath, BaseName(filePath))
  }

  // ---------------------------------------------------------------------
  // Local symbols
  // ---------------------------------------------------------------------

  /** A statement that mentions no local symbol. */
  predicate NonLocalQuery(q: Query) {
    match q
    case MergeDefinition(_, _, symbol, _, _) => !IsLocal(symbol)
    case CallByName(_, _, _, symbol, _) => !IsLocal(symbol)
    case CallByLine(_, _, _, symbol, _) => !IsLocal(symbol)
    case _ => true
  }

  /** A write that mentions no local symbol. */
  predicate NonLocalWrite(w: Write) {
    match w
    case Once(q) => NonLocalQuery(q)
    case WithFallback(primary, fallback) => NonLocalQuery(primary) && NonLocalQuery(fallback)
  }

  /** No write for a document mentions a local symbol. */
  lemma PlanNonLocal(doc: Document, root: seq<string>, symbols: map<string, SymbolInformation>,
                     spansOf: seq<string> -> Option<seq<Span>>)
    ensures forall w | w in Plan(doc, root, symbols, spansOf) :: NonLocalWrite(w)
  {
    if !StartsWith(doc.relativePath, "..") {
      var filePath := FilePath(root, doc.relativePath);
      var definitions := DefinitionWrites(SortedDefinitions(doc.occurrences), filePath, symbols);
      var calls := DocumentCalls(doc, root, symbols, spansOf);
      assert LinkWrites(doc, root, symbols, spansOf) == definitions + calls;
      DefinitionWritesNonLocal(SortedDefinitions(doc.occurrences), filePath, symbols);
      if spansOf(filePath).Some? {
        CallWritesNonLocal(References(doc.occurrences), spansOf(filePath).value, filePath, symbols);
      }
      HierarchyChain(root, PathParts(doc.relativePath));
      OncesNonLocal(FileStatement(doc, root), Hierarchy(root, PathParts(doc.relativePath)), definitions, calls);
    }
  }

  /** A file statement and a hierarchy block written twice mention no
      symbol, so what follows them decides whether the writes do. */
  lemma OncesNonLocal(q: Query, h: seq<Query>, defs: seq<Write>, calls: seq<Write>)
    requires q.MergeFile?
    requires forall i | 0 <= i < |h| :: h[i].LinkDirectory? || h[i].LinkFile?
    requires forall w | w in defs :: NonLocalWrite(w)
    requires forall w | w in calls :: NonLocalWrite(w)
    ensures forall w | w in [Once(q)] + Onces(h) + Onces(h) + (defs + calls) :: NonLocalWrite(w)
  {
    forall w | w in Onces(h) ensures NonLocalWrite(w) {
      var i :| 0 <= i < |h| && w == Onces(h)[i];
    }
  }

  /** Definition writes never mention a local symbol. */
  lemma {:induction false} DefinitionWritesNonLocal(definitions: seq<Occurrence>, filePath: seq<string>, symbols: map<string, SymbolInformation>)
    ensures forall w | w in DefinitionWrites(definitions, filePath, symbols) :: NonLocalWrite(w)
  {
    if definitions != [] {
      DefinitionWritesNonLocal(definitions[..|definitions| - 1], filePath, symbols);
    }
  }

  /** Call writes never mention a local symbol. */
  lemma {:induction false} CallWritesNonLocal(references: seq<Occurrence>, functions: seq<Span>, filePath: seq<string>,
                                              symbols: map<string, SymbolInformation>)
    ensures forall w | w in CallWrites(references, functions, filePath, symbols) :: NonLocalWrite(w)
  {
    if references != [] {
      CallWritesNonLocal(references[..|references| - 1], functions, filePath, symbols);
    }
  }

  /** A `MERGE` whose pattern is not local creates no local node. */
  lemma MergeNoLocal(g: Graph, nodeLabel: string, pat: Props)
    requires LocalIds(g) == {}
    requires !IsLocalNode(Node(nodeLabel, pat))
    ensures LocalIds(Merge(g, nodeLabel, pat)) == {}
  {
  }

  /** Setting properties other than `scip_symbol` makes no node local. */
  lemma SetNoLocal(g: Graph, ids: set<nat>, upd: Props)
    requires LocalIds(g) == {}
    requires "scip_symbol" !in upd
    ensures LocalIds(SetProps(g, ids, upd)) == {}
  {
    var r := SetProps(g, ids, upd);
    forall id | id in r.nodes ensures !IsLocalNode(r.nodes[id]) {
      assert id in g.nodes && id !in LocalIds(g);
    }
  }

  /** A statement that mentions no local symbol leaves a store without local
      nodes without them. */
  lemma ExecNoLocal(g: Graph, q: Query)
    requires LocalIds(g) == {}
    requires NonLocalQuery(q)
    ensures LocalIds(Exec(g, q)) == {}
  {
    match q
    case MergeFile(fp, rel, name) =>
      MergeNoLocal(g, "File", PathIs(fp));
      var g1 := Merge(g, "File", PathIs(fp));
      SetNoLocal(g1, Matching(g1, {"File"}, PathIs(fp)), map["relative_path" := Str(rel), "name" := Str(name)]);
    case LinkDirectory(pl, pp, dp, part) =>
      if Matching(g, {pl}, PathIs(pp)) != {} {
        MergeNoLocal(g, "Directory", PathIs(dp));
        var g1 := Merge(g, "Directory", PathIs(dp));
        SetNoLocal(g1, Matching(g1, {"Directory"}, PathIs(dp)), map["name" := Str(part)]);
      }
    case LinkFile(_, _, _) =>
    case MergeDefinition(fp, l, sym, name, line) =>
      if Matching(g, {"File"}, PathIs(fp)) != {} {
        MergeNoLocal(g, l, SymbolIs(sym));
        var g1 := Merge(g, l, SymbolIs(sym));
        SetNoLocal(g1, Matching(g1, {l}, SymbolIs(sym)), map["name" := Str(name), "path" := PathOf(fp), "line_number" := Num(line)]);
      }
    case CallByName(_, _, tl, sym, tname) => CallNoLocal(g, CallerPattern(q), tl, sym, tname);
    case CallByLine(_, _, tl, sym, tname) => CallNoLocal(g, CallerPattern(q), tl, sym, tname);
    case CleanupLocal => DeleteLocalSpec(g);
  }

  /** A call statement for a symbol that is not local creates no local
      node. */
  lemma CallNoLocal(g: Graph, callerPat: Props, targetLabel: string, symbol: string, targetName: string)
    requires LocalIds(g) == {}
    requires !IsLocal(symbol)
    ensures LocalIds(Call(g, callerPat, targetLabel, symbol, targetName)) == {}
  {
    MergeNoLocal(g, targetLabel, SymbolIs(symbol));
    var g1 := Merge(g, targetLabel, SymbolIs(symbol));
    SetNoLocal(g1, Matching(g1, {targetLabel}, SymbolIs(symbol)), map["name" := Str(targetName)]);
  }

  /** Writes that mention no local symbol leave a store without local nodes
      without them. */
  lemma {:induction false} ApplyAllNoLocal(g: Graph, ws: seq<Write>)
    requires LocalIds(g) == {}
    requires forall w | w in ws :: NonLocalWrite(w)
    ensures LocalIds(ApplyAll(g, ws)) == {}
  {
    if ws != [] {
      var front := ws[..|ws| - 1];
      var w := ws[|ws| - 1];
      assert forall v | v in front :: v in ws;
      assert w in ws;
      ApplyAllNoLocal(g, front);
      var g1 := ApplyAll(g, front);
      match w
      case Once(q) => ExecNoLocal(g1, q);
      case WithFallback(primary, fallback) =>
        ExecNoLocal(g1, primary);
        ExecNoLocal(Exec(g1, primary), fallback);
    }
  }

  /** Processing a document adds no local node to a store that has none. */
  lemma PlanAddsNoLocal(g: Graph, doc: Document, root: seq<string>, symbols: map<string, SymbolInformation>,
                        spansOf: seq<string> -> Option<seq<Span>>)
    requires LocalIds(g) == {}
    ensures LocalIds(ApplyAll(g, Plan(doc, root, symbols, spansOf))) == {}
  {
    PlanNonLocal(doc, root, symbols, spansOf);
    ApplyAllNoLocal(g, Plan(doc, root, symbols, spansOf));
  }

  // ---------------------------------------------------------------------
  // What the writes leave in the store
  // ---------------------------------------------------------------------

  /** The file statement leaves a valid store with the file node in it and
      the repository nodes as they were found. */
  lemma MergeFileEffect(g: Graph, filePath: seq<string>, rel: string, name: string, root: seq<string>)
    requires Valid(g)
    ensures Valid(Exec(g, MergeFile(filePath, rel, name)))
    ensures Matching(Exec(g, MergeFile(filePath, rel, name)), {"File"}, PathIs(filePath)) != {}
    ensures Matching(Exec(g, MergeFile(filePath, rel, name)), {"Repository"}, PathIs(root)) == Matching(g, {"Repository"}, PathIs(root))
  {
    var g1 := Merge(g, "File", PathIs(filePath));
    MergeShape(g, "File", PathIs(filePath));
    MergeFinds(g, "File", PathIs(filePath));
    var upd := map["relative_path" := Str(rel), "name" := Str(name)];
    var files := Matching(g1, {"File"}, PathIs(filePath));
    SetKeepsMatching(g1, files, upd, {"File"}, PathIs(filePath));
    SetKeepsMatching(g1, files, upd, {"Repository"}, PathIs(root));
    assert Matching(g1, {"Repository"}, PathIs(root)) == Matching(g, {"Repository"}, PathIs(root));
  }

  /** The store after the file statement and the first hierarchy block. */
  function AfterHierarchy(g: Graph, doc: Document, root: seq<string>): Graph {
    RunAll(Exec(g, FileStatement(doc, root)), Hierarchy(root, PathParts(doc.relativePath)))
  }

  /** A statement followed by a block written twice: the first `1 + |h|`
      writes run the statement and then the block, and the next `|h|` run the
      block again. */
  lemma {:induction false} BlockTwice(g: Graph, q: Query, h: seq<Query>, tail: seq<Write>)
    ensures 1 + 2 * |h| <= |[Once(q)] + Onces(h) + Onces(h) + tail|
    ensures ApplyAll(g, ([Once(q)] + Onces(h) + Onces(h) + tail)[..1 + |h|]) == RunAll(Exec(g, q), h)
    ensures ApplyAll(g, ([Once(q)] + Onces(h) + Onces(h) + tail)[..1 + 2 * |h|]) == RunAll(RunAll(Exec(g, q), h), h)
  {
    var first := [Once(q)];
    var hs := Onces(h);
    var ws := first + hs + hs + tail;
    var k := |h|;
    assert ws[..1 + k] == first + hs;
    assert ws[..1 + 2 * k] == (first + hs) + hs;
    assert ApplyAll(g, first) == Exec(g, q) by {
      assert first[..0] == [];
    }
    assert hs[..k] == hs;
    var g0 := Exec(g, q);
    var g1 := RunAll(g0, h);
    calc {
      ApplyAll(g, ws[..1 + k]);
      { ApplyAllAppend(g, first, hs); }
      ApplyAll(g0, hs);
      { ApplyOnces(g0, h, k); }
      g1;
    }
    calc {
      ApplyAll(g, ws[..1 + 2 * k]);
      { ApplyAllAppend(g, first + hs, hs); }
      ApplyAll(g1, hs);
      { ApplyOnces(g1, h, k); }
      RunAll(g1, h);
    }
  }

  /** The writes after the two hierarchy blocks: the definitions, then the
      calls. */
  function LinkWrites(doc: Document, root: seq<string>, symbols: map<string, SymbolInformation>,
                      spansOf: seq<string> -> Option<seq<Span>>): seq<Write> {
    var filePath := FilePath(root, doc.relativePath);
    DefinitionWrites(SortedDefinitions(doc.occurrences), filePath, symbols) + DocumentCalls(doc, root, symbols, spansOf)
  }

  /** The call writes of a document: none when its file is not on disk. */
  function DocumentCalls(doc: Document, root: seq<string>, symbols: map<string, SymbolInformation>,
                         spansOf: seq<string> -> Option<seq<Span>>): seq<Write> {
    var filePath := FilePath(root, doc.relativePath);
    match spansOf(filePath)
    case None => []
    case Some(functions) => CallWrites(References(doc.occurrences), functions, filePath, symbols)
  }

  /** Without function spans no reference has a caller, so there are no
      call writes. */
  lemma {:induction false} NoFunctionsNoCalls(references: seq<Occurrence>, filePath: seq<string>, symbols: map<string, SymbolInformation>)
    ensures CallWrites(references, [], filePath, symbols) == []
  {
    if references != [] {
      NoFunctionsNoCalls(references[..|references| - 1], filePath, symbols);
      NarrowestCallerSpec([], StartLine(references[|references| - 1]) + 1);
    }
  }

  /** The effect of a document's writes taken in three steps: the file
      statement and both hierarchy blocks, then the definitions, then the
      calls. */
  lemma PlanSplit(g: Graph, doc: Document, root: seq<string>, symbols: map<string, SymbolInformation>,
                  spansOf: seq<string> -> Option<seq<Span>>)
    requires !StartsWith(doc.relativePath, "..")
    ensures ApplyAll(g, Plan(doc, root, symbols, spansOf))
         == ApplyAll(ApplyAll(RunAll(AfterHierarchy(g, doc, root), Hierarchy(root, PathParts(doc.relativePath))),
                              DefinitionWrites(SortedDefinitions(doc.occurrences), FilePath(root, doc.relativePath), symbols)),
                     DocumentCalls(doc, root, symbols, spansOf))
  {
    var h := Hierarchy(root, PathParts(doc.relativePath));
    var defs := DefinitionWrites(SortedDefinitions(doc.occurrences), FilePath(root, doc.relativePath), symbols);
    var calls := DocumentCalls(doc, root, symbols, spansOf);
    assert LinkWrites(doc, root, symbols, spansOf) == defs + calls;
    BlockTwiceThen(g, FileStatement(doc, root), h, defs, calls);
  }

  /** A statement, a block written twice, and two runs of writes after it:
      the writes apply in those three steps. */
  lemma BlockTwiceThen(g: Graph, q: Query, h: seq<Query>, defs: seq<Write>, calls: seq<Write>)
    ensures ApplyAll(g, [Once(q)] + Onces(h) + Onces(h) + (defs + calls))
         == ApplyAll(ApplyAll(RunAll(RunAll(Exec(g, q), h), h), defs), calls)
  {
    var head := [Once(q)] + Onces(h) + Onces(h);
    BlockTwice(g, q, h, []);
    assert (head + [])[..1 + 2 * |h|] == head;
    assert [Once(q)] + Onces(h) + Onces(h) + (defs + calls) == (head + defs) + calls;
    ApplyAllAppend(g, head + defs, calls);
    ApplyAllAppend(g, head, defs);
  }

  /** The plan starts with the file statement and the hierarchy block twice,
      and the second block leaves the store as the first one did. */
  lemma PlanPrefix(g: Graph, doc: Document, root: seq<string>, symbols: map<string, SymbolInformation>,
                   spansOf: seq<string> -> Option<seq<Span>>)
    requires Valid(g)
    requires !StartsWith(doc.relativePath, "..")
    ensures 1 + 2 * |Hierarchy(root, PathParts(doc.relativePath))| <= |Plan(doc, root, symbols, spansOf)|
    ensures ApplyAll(g, Plan(doc, root, symbols, spansOf)[..1 + |Hierarchy(root, PathParts(doc.relativePath))|])
         == AfterHierarchy(g, doc, root)
    ensures ApplyAll(g, Plan(doc, root, symbols, spansOf)[..1 + 2 * |Hierarchy(root, PathParts(doc.relativePath))|])
         == AfterHierarchy(g, doc, root)
  {
    var parts := PathParts(doc.relativePath);
    var h := Hierarchy(root, parts);
    var q := FileStatement(doc, root);
    assert Plan(doc, root, symbols, spansOf) == [Once(q)] + Onces(h) + Onces(h) + LinkWrites(doc, root, symbols, spansOf);
    BlockTwice(g, q, h, LinkWrites(doc, root, symbols, spansOf));
    MergeFileEffect(g, FilePath(root, doc.relativePath), doc.relativePath, BaseName(FilePath(root, doc.relativePath)), root);
    HierarchyIdempotent(Exec(g, q), root, parts);
  }

  /** With the repository node in the store, the file statement and the
      hierarchy block leave the chain of CONTAINS relationships from the
      repository through one named directory per component to the file. */
  lemma PlanHierarchy(g: Graph, doc: Document, root: seq<string>)
    requires Valid(g)
    requires Matching(g, {"Repository"}, PathIs(root)) != {}
    ensures forall i | 0 <= i < |DirectoryParts(PathParts(doc.relativePath))| ::
      DirectoryDone(AfterHierarchy(g, doc, root), root, DirectoryParts(PathParts(doc.relativePath)), i)
    ensures Linked(AfterHierarchy(g, doc, root), ParentLabel(|DirectoryParts(PathParts(doc.relativePath))|),
                   root + DirectoryParts(PathParts(doc.relativePath)), "File", FilePath(root, doc.relativePath))
  {
    var filePath := FilePath(root, doc.relativePath);
    MergeFileEffect(g, filePath, doc.relativePath, BaseName(filePath), root);
    HierarchyLinks(Exec(g, FileStatement(doc, root)), root, PathParts(doc.relativePath));
  }

  /** The properties a definition statement sets on its node. */
  function DefinitionProps(filePath: seq<string>, name: string, line: int): Props {
    map["name" := Str(name), "path" := PathOf(filePath), "line_number" := Num(line)]
  }

  /** With the file node in the store, a definition statement leaves a node
      with its label and symbol, carrying the name, file path and line it
      sets, contained in every matching file node; the file nodes stay as
      they were. The label is one of the SCIP labels, so the definition node
      is never taken for a file node. */
  lemma DefinitionPlaced(g: Graph, filePath: seq<string>, nodeLabel: string, symbol: string, name: string, line: int)
    requires Valid(g)
    requires nodeLabel in AllLabels
    ensures Valid(Exec(g, MergeDefinition(filePath, nodeLabel, symbol, name, line)))
    ensures Matching(Exec(g, MergeDefinition(filePath, nodeLabel, symbol, name, line)), {"File"}, PathIs(filePath))
         == Matching(g, {"File"}, PathIs(filePath))
    ensures AttachSettled(Exec(g, MergeDefinition(filePath, nodeLabel, symbol, name, line)), "File", filePath,
                          nodeLabel, SymbolIs(symbol), DefinitionProps(filePath, name, line))
  {
    NotFileLabel(nodeLabel);
    AttachSettles(g, "File", filePath, nodeLabel, SymbolIs(symbol), DefinitionProps(filePath, name, line));
  }
}
