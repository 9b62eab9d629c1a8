/**
 * `parse` of the Elixir extractor: the six finders run over the captures of
 * their queries on one tree, and their lists are gathered under the keys of
 * the result dictionary.
 */
module ElixirParser {
  import opened Wrappers
  import opened SyntaxTree
  import opened Correlator
  import opened ElixirFinders

  /** The captures of the six queries on the parsed tree, in query order. */
  datatype Queries = Queries(
    functions: seq<Capture>, classes: seq<Capture>, imports: seq<Capture>,
    calls: seq<Capture>, variables: seq<Capture>, macros: seq<Capture>)

  predicate QueriesIn(t: Tree, q: Queries) {
    && CapturesIn(t, q.functions) && CapturesIn(t, q.classes) && CapturesIn(t, q.imports)
    && CapturesIn(t, q.calls) && CapturesIn(t, q.variables) && CapturesIn(t, q.macros)
  }

  /** The dictionary `parse` returns. */
  datatype ParseResult = ParseResult(
    path: string, functions: seq<FunctionEntry>, classes: seq<ClassEntry>,
    variables: seq<VariableEntry>, imports: seq<ImportEntry>, functionCalls: seq<CallEntry>,
    macros: seq<MacroEntry>, isDependency: bool, lang: string)

  /** `parse(path, is_dependency, index_source)` on the tree `t` of the file. */
  method Parse(path: string, t: Tree, q: Queries, isDependency: bool, indexSource: bool) returns (r: ParseResult)
    requires WellFormed(t) && QueriesIn(t, q)
    ensures r.path == path && r.isDependency == isDependency && r.lang == "elixir"
    ensures r.functions == Functions(t, q.functions, indexSource)
    ensures r.classes == Classes(t, q.classes, indexSource)
    ensures r.imports == Imports(t, q.imports)
    ensures r.functionCalls == Calls(t, q.calls)
    ensures r.variables == Variables(t, q.variables)
    ensures r.macros == Macros(t, q.macros, indexSource)
  {
    var functions := FindFunctions(t, q.functions, indexSource);
    var classes := FindClasses(t, q.classes, indexSource);
    var imports := FindImports(t, q.imports);
    var calls := FindCalls(t, q.calls);
    var variables := FindVariables(t, q.variables);
    var macros := FindMacros(t, q.macros, indexSource);
    r := ParseResult(path, functions, classes, variables, imports, calls, macros, isDependency, Lang);
  }

  /** Only the whole result carries the caller's `is_dependency`: every
      record inside it says False, whatever the caller passed. Stated for
      functions and classes here, and for the other four lists below. */
  lemma DefinitionsNotDependencies(t: Tree, q: Queries, indexSource: bool)
    requires WellFormed(t) && QueriesIn(t, q)
    ensures forall e | e in Functions(t, q.functions, indexSource) :: !e.isDependency
    ensures forall e | e in Classes(t, q.classes, indexSource) :: !e.isDependency
  {
    var fk := Emitted(t, q.functions, FunctionLayout, {FuncName});
    forall i | 0 <= i < |fk| { FunctionsOfAt(t, fk, indexSource, i); }
    var ck := Emitted(t, q.classes, ClassLayout, {ClassName});
    forall i | 0 <= i < |ck| { ClassesOfAt(t, ck, indexSource, i); }
  }

  lemma ReferencesNotDependencies(t: Tree, q: Queries)
    requires WellFormed(t) && QueriesIn(t, q)
    ensures forall e | e in Imports(t, q.imports) :: !e.isDependency
    ensures forall e | e in Calls(t, q.calls) :: !e.isDependency
  {
    var ik := Emitted(t, q.imports, ImportLayout, ImportRequired);
    forall i | 0 <= i < |ik| { ImportsOfAt(t, ik, i); }
    var lk := Emitted(t, q.calls, CallLayout, {Method});
    forall i | 0 <= i < |lk| { CallsOfAt(t, lk, i); }
  }

  lemma AttributesNotDependencies(t: Tree, q: Queries, indexSource: bool)
    requires WellFormed(t) && QueriesIn(t, q)
    ensures forall e | e in Variables(t, q.variables) :: !e.isDependency
    ensures forall e | e in Macros(t, q.macros, indexSource) :: !e.isDependency
  {
    var vk := Emitted(t, q.variables, VariableLayout, {AttrName});
    forall i | 0 <= i < |vk| { VariablesOfAt(t, vk, i); }
    var mk := Emitted(t, q.macros, MacroLayout, {MacroName});
    forall i | 0 <= i < |mk| { MacrosOfAt(t, mk, indexSource, i); }
  }
}
