// Ingesting a whole index: the symbol table, every document, the clean-up
// (src/codegraphcontext/tools/scip_indexer.py:101-124).

module ScipIngest {
  import opened Wrappers
  import opened ScipLabels
  import opened ScipOccurrences
  import opened ScipGraph
  import opened ScipLinker
  import opened ScipSession

  /** The store after processing `documents` in order. */
  function ProcessAll(g: Graph, documents: seq<Document>, root: seq<string>, symbols: map<string, SymbolInformation>,
                      spansOf: seq<string> -> Option<seq<Span>>): Graph
  {
    if documents == [] then g
    else ApplyAll(ProcessAll(g, documents[..|documents| - 1], root, symbols, spansOf),
                  Plan(documents[|documents| - 1], root, symbols, spansOf))
  }

  /** `ingest_index`: every document against one symbol table, then the
      clean-up of local symbols. */
  function Ingest(g: Graph, index: Index, root: seq<string>, spansOf: seq<string> -> Option<seq<Span>>): Graph {
    DeleteLocal(ProcessAll(g, index.documents, root, SymbolMap(index), spansOf))
  }

  /** Documents add no local node to a store that has none. */
  lemma {:induction false} ProcessAllNoLocal(g: Graph, documents: seq<Document>, root: seq<string>,
                                              symbols: map<string, SymbolInformation>,
                                              spansOf: seq<string> -> Option<seq<Span>>)
    requires LocalIds(g) == {}
    ensures LocalIds(ProcessAll(g, documents, root, symbols, spansOf)) == {}
  {
    if documents != [] {
      ProcessAllNoLocal(g, documents[..|documents| - 1], root, symbols, spansOf);
      PlanAddsNoLocal(ProcessAll(g, documents[..|documents| - 1], root, symbols, spansOf),
                      documents[|documents| - 1], root, symbols, spansOf);
    }
  }

  /** The ingested store holds no local node, whatever the documents wrote. */
  lemma IngestLeavesNoLocal(g: Graph, index: Index, root: seq<string>, spansOf: seq<string> -> Option<seq<Span>>)
    ensures LocalIds(Ingest(g, index, root, spansOf)) == {}
  {
    DeleteLocalSpec(ProcessAll(g, index.documents, root, SymbolMap(index), spansOf));
  }

  /** `ProcessAll` over one more document. */
  lemma ProcessAllStep(g: Graph, documents: seq<Document>, i: nat, doc: Document, root: seq<string>,
                       symbols: map<string, SymbolInformation>, spansOf: seq<string> -> Option<seq<Span>>)
    requires i < |documents| && doc == documents[i]
    ensures ProcessAll(g, documents[..i + 1], root, symbols, spansOf)
         == ApplyAll(ProcessAll(g, documents[..i], root, symbols, spansOf), Plan(doc, root, symbols, spansOf))
  {
    assert documents[..i + 1][..i] == documents[..i];
  }

  /** `AddSymbols` over one more entry. */
  lemma AddSymbolsSnoc(m: map<string, SymbolInformation>, infos: seq<SymbolInformation>, s: SymbolInformation)
    ensures AddSymbols(m, infos + [s]) == AddSymbols(m, infos)[s.symbol := s]
  {
    assert (infos + [s])[..|infos|] == infos;
  }

  /** Enters `infos` into `symbols` one after another, a later entry
      replacing an earlier one for the same symbol. */
  method EnterSymbols(symbols: map<string, SymbolInformation>, infos: seq<SymbolInformation>)
    returns (r: map<string, SymbolInformation>)
    ensures r == AddSymbols(symbols, infos)
  {
    r := symbols;
    for i := 0 to |infos|
      invariant r == AddSymbols(symbols, infos[..i])
    {
      var s := infos[i];
      AddSymbolsSnoc(symbols, infos[..i], s);
      assert infos[..i] + [s] == infos[..i + 1];
      r := r[s.symbol := s];
    }
    assert infos[..|infos|] == infos;
  }

  /** `AddSymbols` over two lists is `AddSymbols` over their concatenation. */
  lemma {:induction false} AddSymbolsAppend(m: map<string, SymbolInformation>, a: seq<SymbolInformation>, b: seq<SymbolInformation>)
    ensures AddSymbols(AddSymbols(m, a), b) == AddSymbols(m, a + b)
    decreases |b|
  {
    if b != [] {
      var last := b[|b| - 1];
      var front := b[..|b| - 1];
      AddSymbolsAppend(m, a, front);
      assert a + b == (a + front) + [last];
      AddSymbolsSnoc(m, a + front, last);
    } else {
      assert a + b == a;
    }
  }

  /** The symbol table, built entry by entry as the source does. */
  method BuildSymbolMap(index: Index) returns (symbols: map<string, SymbolInformation>)
    ensures symbols == SymbolMap(index)
  {
    symbols := EnterSymbols(map[], index.externalSymbols);
    ghost var base := symbols;
    for i := 0 to |index.documents|
      invariant symbols == AddSymbols(base, DocumentSymbols(index.documents[..i]))
    {
      var doc := index.documents[i];
      DocumentSymbolsSnoc(index.documents[..i], doc);
      assert index.documents[..i] + [doc] == index.documents[..i + 1];
      AddSymbolsAppend(base, DocumentSymbols(index.documents[..i]), doc.symbols);
      symbols := EnterSymbols(symbols, doc.symbols);
    }
    assert index.documents[..|index.documents|] == index.documents;
  }

  /** The loop over the documents, each against the same symbol table. */
  method ProcessDocuments(session: Session, documents: seq<Document>, root: seq<string>,
                          symbols: map<string, SymbolInformation>, spansOf: seq<string> -> Option<seq<Span>>)
    modifies session
    ensures session.graph == ProcessAll(old(session.graph), documents, root, symbols, spansOf)
  {
    ghost var g0 := session.graph;
    for i := 0 to |documents|
      invariant session.graph == ProcessAll(g0, documents[..i], root, symbols, spansOf)
    {
      var doc := documents[i];
      ProcessAllStep(g0, documents, i, doc, root, symbols, spansOf);
      ProcessDocument(session, doc, root, symbols, spansOf);
    }
    assert documents[..|documents|] == documents;
  }

  /** `ingest_index`: the statements of every document, then the clean-up. */
  method IngestIndex(session: Session, index: Index, root: seq<string>, spansOf: seq<string> -> Option<seq<Span>>)
    modifies session
    ensures session.graph == Ingest(old(session.graph), index, root, spansOf)
    ensures LocalIds(session.graph) == {}
  {
    ghost var g0 := session.graph;
    var symbols := BuildSymbolMap(index);
    ProcessDocuments(session, index.documents, root, symbols, spansOf);
    var _ := session.Run(CleanupLocal);
    IngestLeavesNoLocal(g0, index, root, spansOf);
  }
}
