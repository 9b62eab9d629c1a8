# CodeGraphContext core, modelled in Dafny

This project models four parts of CodeGraphContext, a tool that indexes source
repositories into a code graph:

- **The Elixir extractor** (`elixir.py`). Tree-sitter captures over an Elixir
  file become function, module, import, call, module-attribute and macro
  records. Alongside them it has:
  - a nesting-aware argument splitter;
  - the enclosing-definition walk, the cyclomatic-complexity walk and the
    docstring walk;
  - the name→paths pre-scan.
- **The HEEx extractor** (`heex.py`). Component, tag, slot and directive records;
  module-qualified component imports de-duplicated by module; the typed ancestor
  walk; the pre-scan.
- **The SCIP linker** (`scip_indexer.py`). A SCIP index (Sourcegraph's code
  intelligence format) becomes graph writes:
  - the label table with its fallback to label inference;
  - display-name extraction;
  - the definition/reference partition and the sort of definitions by position;
  - filtering of `local…` symbols and of files outside the repository;
  - the repository→directory→file containment chain;
  - narrowest-caller attribution;
  - CALLS edges written by caller name, with the caller's line as fallback;
  - the symbol table and the final clean-up of local nodes.
- **The bundle registry's in-memory part** (`bundle_registry.py`):
  - assembling the bundle list from the manifest and the latest weekly release;
  - the normalisation loop;
  - the two-stage lookup: exact full name first, then the newest bundle by base
    name.

How the model is laid out:

- A parsed file is an arena of nodes (`SyntaxTree.Tree`): a node's parent and
  previous sibling have smaller indices and its children larger ones, so every
  walk terminates on the index.
- A query result is the sequence of `(node, capture name)` pairs the query
  yields. The finders' dictionaries keyed by `id(node)` are keyed by arena
  index.
- The six Elixir finders share one correlator (`Correlator`): seed a record per
  whole-definition capture, attach every capture lying inside its byte span
  (last write wins, or first holder only where the source breaks), and emit the
  records whose required fields are non-empty.
- The graph store is a value (`ScipGraph.Graph`): keyed nodes with properties,
  plus a set of edges. Every statement the linker issues is a function on it
  with `MERGE` (find or create) semantics. A `ScipSession.Session` object holds
  the store, and the imperative linker (`ScipSession`, `ScipIngest`) is proved
  to perform exactly the planned writes (`ScipLinker.Plan`).
- Methods follow the source's loops. Each is proved equal to a specification
  function, and the promised properties are lemmas about those functions.

## Model

| member | source | states |
|---|---|---|
| Strings.Strip | src/codegraphcontext/tools/languages/elixir.py:73 | `s.strip(chars)` never lengthens the text |
| Strings.StripSlice | src/codegraphcontext/tools/languages/elixir.py:73 | `strip(chars)` keeps one middle slice of the text and removes only characters of the set before and after it; it leaves nothing exactly when every character is in the set, so all outer parentheses go, however many there are |
| Strings.StripEnds | src/codegraphcontext/tools/languages/elixir.py:73 | neither end of a stripped text is a character of the stripped set |
| Strings.StripTwice | src/codegraphcontext/tools/languages/elixir.py:73 | stripping again with the same characters changes nothing |
| Strings.StripStartShape | src/codegraphcontext/tools/languages/elixir.py:73 | `lstrip` keeps a suffix whose first character is outside the set |
| Strings.StripEndShape | src/codegraphcontext/tools/languages/elixir.py:73 | `rstrip` keeps a prefix whose last character is outside the set |
| Strings.StripStartRemoves | src/codegraphcontext/tools/languages/elixir.py:73 | what `lstrip` removes is made only of characters of the set |
| Strings.StripEndRemoves | src/codegraphcontext/tools/languages/elixir.py:73 | what `rstrip` removes is made only of characters of the set |
| Strings.TrimTrimmed | src/codegraphcontext/tools/languages/elixir.py:74 | `strip()` leaves no whitespace at either end |
| Strings.TrimmedFixed | src/codegraphcontext/tools/languages/elixir.py:74 | `strip()` of a text without outer whitespace is that text |
| Strings.Split | src/codegraphcontext/tools/scip_indexer.py:484 | `split(sep)` gives at least one piece, no piece holds the separator, and joining the pieces with it gives the text back |
| Strings.ReplaceChar | src/codegraphcontext/tools/scip_indexer.py:483 | every occurrence of one character is replaced and every other character kept in place |
| Strings.ReplaceAll | src/codegraphcontext/core/bundle_registry.py:60 | `replace(pat, rep)` leaves a text without the pattern unchanged |
| Strings.HeadPartUnique | src/codegraphcontext/core/bundle_registry.py:63 | the text before the first separator (the whole text when there is none) is determined by the text |
| Strings.JoinHead | src/codegraphcontext/core/bundle_registry.py:63 | the first of some separator-free pieces is the head part of their join, and the rest of the join after it and the separator is the join of the remaining pieces |
| Strings.SplitHead | src/codegraphcontext/core/bundle_registry.py:91 | `split(sep)[0]` is the text before the first separator, or the whole text |
| Strings.ReplaceOnlySuffix | src/codegraphcontext/core/bundle_registry.py:60 | on a text that ends with the pattern and holds it nowhere earlier, `replace` swaps exactly that trailing occurrence |
| Strings.LastIndexOf | src/codegraphcontext/tools/languages/heex.py:183 | the last position of a character: none exactly when the character is absent, else a position holding it with none after it |
| Strings.NonEmptyMembers | src/codegraphcontext/tools/scip_indexer.py:484 | the list comprehension `[p for p in parts if p]` keeps exactly the non-empty pieces |
| SyntaxTree.FirstOfKind | src/codegraphcontext/tools/languages/heex.py:67-73 | the loop over children that breaks at the first child of a kind: none exactly when no child has that kind, else the earliest such child |
| SyntaxTree.FindFirstChild | src/codegraphcontext/tools/languages/heex.py:67-73 | the imperative child loop returns the first child of the kind, which lies after its parent in the arena |
| SyntaxTree.Chain | src/codegraphcontext/tools/languages/elixir.py:100-129 | the successive values of `curr` in a `while curr:` walk: starts at the first node, each is the link of the one before, and the last has no link |
| Correlator.SeedOrder | src/codegraphcontext/tools/languages/elixir.py:210-215 | the dict keyed by node identity holds each seeded node exactly once, in first-seed order, and holds every seeded node |
| Correlator.LastSeedName | src/codegraphcontext/tools/languages/elixir.py:271-276 | a re-seeded node keeps its place but takes the seed name of its last seed capture |
| Correlator.FirstHolder | src/codegraphcontext/tools/languages/elixir.py:278-285 | the record a `break`-ing attach loop writes: the earliest seeded node whose span holds the capture, none exactly when no span holds it |
| Correlator.LastWriteSpec | src/codegraphcontext/tools/languages/elixir.py:217-229 | a record's field is empty exactly when no capture inside the record writes it, and otherwise holds the text of the last capture that does |
| Correlator.Correlation | src/codegraphcontext/tools/languages/elixir.py:210-229 | the records built are one per seeded node, in dict order, each with one slot per field |
| Correlator.CorrelationSound | src/codegraphcontext/tools/languages/elixir.py:217-229 | every record comes from a seed capture, and every filled field holds the text of a capture of that field lying inside the record's node; where the attach loop breaks, the record's node is the capture's first holder |
| Correlator.SeedSlots | src/codegraphcontext/tools/languages/elixir.py:210-215 | the seeding loop creates one blank record per seeded node, in first-seed order, with the seed name of its last seed capture |
| Correlator.AttachCapture | src/codegraphcontext/tools/languages/elixir.py:217-229 | one pass of the inner attach loop keeps every record filled as the captures read so far dictate |
| Correlator.Correlate | src/codegraphcontext/tools/languages/elixir.py:210-229 | the nested seeding and attaching loops build exactly the correlation |
| Correlator.Or | src/codegraphcontext/tools/languages/elixir.py:236 | Python's `x or default`: the value when it is a non-empty string, else the default |
| Correlator.KeptMembers | src/codegraphcontext/tools/languages/elixir.py:231-233 | the records kept are exactly those whose required fields are non-empty |
| Correlator.KeptDistinct | src/codegraphcontext/tools/languages/elixir.py:231-233 | filtering records of distinct nodes leaves records of distinct nodes |
| Correlator.Emitted | src/codegraphcontext/tools/languages/elixir.py:231-233 | the emitted records are correlation records that pass the test, no more than there are seeded nodes, and no two of them share a node |
| Correlator.EmittedComplete | src/codegraphcontext/tools/languages/elixir.py:231-233 | every correlation record that passes the test is emitted |
| Correlator.EmittedSound | src/codegraphcontext/tools/languages/elixir.py:210-233 | every emitted record is a seeded node with its last seed name, and each field holds the text of a capture of that field inside the node, of which the node is the first holder where the attach loop breaks |
| ElixirArguments.Pieces | src/codegraphcontext/tools/languages/elixir.py:79-95 | the text between depth-zero commas: there is always at least one piece |
| ElixirArguments.PiecesJoin | src/codegraphcontext/tools/languages/elixir.py:79-95 | joining the pieces with commas gives the text back, so arguments keep source order and lose no character |
| ElixirArguments.PiecesCount | src/codegraphcontext/tools/languages/elixir.py:79-95 | there is one piece more than there are depth-zero commas |
| ElixirArguments.PiecesSplitAtTopCommas | src/codegraphcontext/tools/languages/elixir.py:86-90 | every split point is a comma at depth zero, so commas inside brackets never split |
| ElixirArguments.OnePiece | src/codegraphcontext/tools/languages/elixir.py:79-95 | a text without a depth-zero comma is one piece |
| ElixirArguments.TrimAll | src/codegraphcontext/tools/languages/elixir.py:87-93 | trimming each piece keeps their number |
| ElixirArguments.ArgumentsShape | src/codegraphcontext/tools/languages/elixir.py:73-95 | blank text after `strip("()")` gives no arguments; otherwise there are at most depth-zero commas plus one, each non-empty and trimmed |
| ElixirArguments.SingleArgument | src/codegraphcontext/tools/languages/elixir.py:73-95 | a text without a depth-zero comma, such as `"(name)"`, gives its trimmed body as the only argument, or none when that is blank |
| ElixirArguments.SplitTopLevel | src/codegraphcontext/tools/languages/elixir.py:79-95 | the character loop with its `depth` counter and `current` buffer yields exactly the non-blank trimmed pieces |
| ElixirArguments.ParseArguments | src/codegraphcontext/tools/languages/elixir.py:71-96 | `_parse_arguments` computes the specified argument list |
| ElixirWalks.CallContext | src/codegraphcontext/tools/languages/elixir.py:103-127 | a `call` ancestor yields a context only when its first identifier is one of the types and a name is found; its line is one-based |
| ElixirWalks.FirstContextFirst | src/codegraphcontext/tools/languages/elixir.py:98-130 | the walk finds nothing exactly when no ancestor yields a context, and otherwise the context of the nearest one that does |
| ElixirWalks.ContextOf | src/codegraphcontext/tools/languages/elixir.py:103-127 | the imperative check of one ancestor computes its context |
| ElixirWalks.GetParentContext | src/codegraphcontext/tools/languages/elixir.py:98-130 | the `while curr:` loop from `node.parent` returns the context of the nearest strict ancestor that yields one, `(None, None, None)` otherwise |
| ElixirWalks.FirstContextNarrowed | src/codegraphcontext/tools/languages/elixir.py:405-411 | narrowing the types keeps a context found among the narrower types, and finds nothing when the wider search found nothing |
| ElixirWalks.CallContextNarrowed | src/codegraphcontext/tools/languages/elixir.py:405-411 | the same for one ancestor |
| ElixirWalks.ComplexityBounds | src/codegraphcontext/tools/languages/elixir.py:132-156 | complexity is at least 1 plus the node's own bump and at most 1 plus the subtree's size, so each node adds at most one |
| ElixirWalks.Traverse | src/codegraphcontext/tools/languages/elixir.py:140-153 | the recursive traversal adds to `count` exactly the number of bumping nodes in the subtree: keyword kinds, keyword identifiers, and boolean binary operators |
| ElixirWalks.CalculateComplexity | src/codegraphcontext/tools/languages/elixir.py:132-156 | `_calculate_complexity` is 1 plus the bumping nodes of the subtree |
| ElixirWalks.DocFromFound | src/codegraphcontext/tools/languages/elixir.py:158-173 | a docstring is the trimmed text of the nearest doc sibling, preceded only by comments and unary operators none of which is a doc; none exactly when every doc sibling lies behind some other sibling |
| ElixirWalks.GetDocstring | src/codegraphcontext/tools/languages/elixir.py:158-173 | the `prev_sibling` loop computes that docstring |
| ElixirFinders.Visibility | src/codegraphcontext/tools/languages/elixir.py:239 | `"private"` exactly when the definition keyword is `defp`, `"public"` otherwise |
| ElixirFinders.EmitFunctions | src/codegraphcontext/tools/languages/elixir.py:231-260 | the emission loop produces one function record per kept record, in dict order |
| ElixirFinders.FindFunctions | src/codegraphcontext/tools/languages/elixir.py:203-262 | `_find_functions` returns the specified function records |
| ElixirFinders.FunctionsSound | src/codegraphcontext/tools/languages/elixir.py:210-260 | each function record comes from a `func_def` node, has a non-empty name taken from a `func_name` capture inside it, its one-based line, and visibility private exactly when the keyword is `defp` |
| ElixirFinders.FunctionsComplete | src/codegraphcontext/tools/languages/elixir.py:210-260 | every named `func_def` record is emitted; the j-th dictionary is built from the j-th emitted record, and no two emitted records share a `func_def` node |
| ElixirFinders.ClassKind | src/codegraphcontext/tools/languages/elixir.py:292 | kind is `"protocol"` exactly when the seed was `proto_def`, `"module"` otherwise |
| ElixirFinders.EmitClasses | src/codegraphcontext/tools/languages/elixir.py:287-312 | the emission loop produces one class record per kept record |
| ElixirFinders.FindClasses | src/codegraphcontext/tools/languages/elixir.py:264-314 | `_find_classes` returns the specified class records |
| ElixirFinders.ClassesSound | src/codegraphcontext/tools/languages/elixir.py:271-312 | each class record comes from a seeded node with its last seed name; kind is protocol exactly for `proto_def`; bases and decorators are empty; the name is the text of a name capture inside the node, and no earlier record's node holds that capture |
| ElixirFinders.EmitImports | src/codegraphcontext/tools/languages/elixir.py:342-363 | the emission loop produces one import record per record with both a type and arguments |
| ElixirFinders.FindImports | src/codegraphcontext/tools/languages/elixir.py:316-365 | `_find_imports` returns the specified import records |
| ElixirFinders.ImportNameSingle | src/codegraphcontext/tools/languages/elixir.py:350-353 | with a single argument the module name is that argument, trimmed |
| ElixirFinders.ImportsSound | src/codegraphcontext/tools/languages/elixir.py:323-363 | each import comes from an `import_def` node, has a non-empty type, the whole node's text as full name, its line, the first argument as name, and no alias |
| ElixirFinders.CallClassContextIsModule | src/codegraphcontext/tools/languages/elixir.py:405-411 | the two-step class context (the context itself under `defmodule`, the enclosing module under `def`/`defp`, none otherwise) is always the nearest enclosing module |
| ElixirFinders.EmitCalls | src/codegraphcontext/tools/languages/elixir.py:397-423 | the emission loop produces one call record per record with a method |
| ElixirFinders.FindCalls | src/codegraphcontext/tools/languages/elixir.py:367-425 | `_find_calls` returns the specified call records |
| ElixirFinders.CallsSound | src/codegraphcontext/tools/languages/elixir.py:397-423 | each call has a non-empty method name from a capture inside the call, its line, `receiver.method` as full name when there is a receiver and the method otherwise, and no inferred type |
| ElixirFinders.CallsContexts | src/codegraphcontext/tools/languages/elixir.py:405-419 | a call's context is the nearest `defmodule`/`def`/`defp` context, and its class context is the enclosing module |
| ElixirFinders.EmitVariables | src/codegraphcontext/tools/languages/elixir.py:453-471 | the emission loop produces one attribute record per named record |
| ElixirFinders.FindVariables | src/codegraphcontext/tools/languages/elixir.py:427-473 | `_find_variables` returns the specified attribute records |
| ElixirFinders.VariablesSound | src/codegraphcontext/tools/languages/elixir.py:434-471 | each attribute record is `@` followed by a non-empty captured name inside the node, of type `module_attribute`, with the enclosing module as both contexts |
| ElixirFinders.EmitMacros | src/codegraphcontext/tools/languages/elixir.py:501-527 | the emission loop produces one macro record per named record |
| ElixirFinders.FindMacros | src/codegraphcontext/tools/languages/elixir.py:475-529 | `_find_macros` returns the specified macro records |
| ElixirFinders.MacrosSound | src/codegraphcontext/tools/languages/elixir.py:482-527 | each macro has a non-empty captured name inside the node, its first and last lines, the enclosing module as context, no arguments when none were captured, and source text exactly when indexing source |
| ElixirParser.Parse | src/codegraphcontext/tools/languages/elixir.py:175-201 | the result carries the path, the caller's dependency flag, `lang` elixir and each finder's records in their own list |
| ElixirParser.DefinitionsNotDependencies | src/codegraphcontext/tools/languages/elixir.py:231-312 | every function and module record says it is not a dependency, whatever the caller passed |
| ElixirParser.ReferencesNotDependencies | src/codegraphcontext/tools/languages/elixir.py:342-423 | every import and call record says it is not a dependency |
| ElixirParser.AttributesNotDependencies | src/codegraphcontext/tools/languages/elixir.py:453-527 | every attribute and macro record says it is not a dependency |
| PreScan.ScanAllOccurrences | src/codegraphcontext/tools/languages/elixir.py:532-563 | a name maps to the paths of all its captures, file after file and capture after capture, and is a key exactly when it has one |
| PreScan.OnlyAppends | src/codegraphcontext/tools/languages/elixir.py:549-563 | scanning more files only extends each existing list: nothing is removed or replaced |
| PreScan.FailedSkipped | src/codegraphcontext/tools/languages/elixir.py:549-563 | a file whose parse fails leaves the map as if it were absent, and the rest of the batch still runs |
| PreScan.Scan | src/codegraphcontext/tools/languages/elixir.py:549-563 | the loop over files and captures builds exactly that map |
| PreScan.PreScanElixir | src/codegraphcontext/tools/languages/elixir.py:532-563 | `pre_scan_elixir` maps each captured module name to the paths of its occurrences |
| PreScan.PreScanHeex | src/codegraphcontext/tools/languages/heex.py:225-246 | `pre_scan_heex` maps each component name to the paths of its occurrences |
| Heex.FirstOfferedFirst | src/codegraphcontext/tools/languages/heex.py:48-56 | the name a context node offers comes from its first child that offers one, none exactly when no child does |
| Heex.FirstContext | src/codegraphcontext/tools/languages/heex.py:44-57 | a context found has one of the requested types |
| Heex.FirstContextFirst | src/codegraphcontext/tools/languages/heex.py:44-57 | the walk finds nothing exactly when no ancestor gives a context, else the nearest one that does |
| Heex.ParentContextNearest | src/codegraphcontext/tools/languages/heex.py:42-58 | only strict ancestors are examined; the result is the nearest one of the types that has a component or tag name, `(None, None, None)` otherwise |
| Heex.NameAmongChildren | src/codegraphcontext/tools/languages/heex.py:48-56 | the child loop of one ancestor computes its offered name |
| Heex.GetParentContext | src/codegraphcontext/tools/languages/heex.py:42-58 | the `while curr:` loop computes that context |
| Heex.ElementNameFromFirstStart | src/codegraphcontext/tools/languages/heex.py:66-73 | a name is found only under the first start child, and it is the text of that child's first name node |
| Heex.ElementsSelected | src/codegraphcontext/tools/languages/heex.py:60-169 | one record per capture of the right name whose node yields a non-empty name, in capture order, with that name, one-based first and last lines, `lang` heex, not a dependency, and source text exactly when indexing source |
| Heex.FindElements | src/codegraphcontext/tools/languages/heex.py:60-169 | the shared capture loop builds exactly those records |
| Heex.FindComponents | src/codegraphcontext/tools/languages/heex.py:60-89 | `_find_components` returns the component records |
| Heex.FindTags | src/codegraphcontext/tools/languages/heex.py:91-120 | `_find_tags` returns the tag records |
| Heex.FindSlots | src/codegraphcontext/tools/languages/heex.py:140-169 | `_find_slots` returns the slot records |
| Heex.DirectivesOnePerCapture | src/codegraphcontext/tools/languages/heex.py:122-138 | exactly one record per directive capture, unfiltered, named by its stripped text, with one-based lines |
| Heex.FindDirectives | src/codegraphcontext/tools/languages/heex.py:122-138 | `_find_directives` returns those records |
| Heex.ModuleOfShape | src/codegraphcontext/tools/languages/heex.py:181-184 | `rsplit('.', 1)[0]` is the text before the last dot, non-empty for a qualified name not starting with a dot |
| Heex.ImportsSound | src/codegraphcontext/tools/languages/heex.py:171-196 | imports have distinct module names; a module appears exactly when some qualified component names it; each record is that of the module's first occurrence |
| Heex.FindImports | src/codegraphcontext/tools/languages/heex.py:171-196 | the loop with its `seen` set computes those imports |
| Heex.Parse | src/codegraphcontext/tools/languages/heex.py:198-222 | components become `functions` and directives `variables`; `classes` and `function_calls` are empty; `lang` is heex |
| ScipLabels.InferLabel | src/codegraphcontext/tools/scip_indexer.py:126-136 | always one of Function, Class, Module, Symbol; Symbol exactly when no syntax hint applies; a `).` or `()` suffix gives Function |
| ScipLabels.InferBySuffix | src/codegraphcontext/tools/scip_indexer.py:128-133 | the suffixes are checked in order: `).`/`()` Function, `#` Class, `/` Module |
| ScipLabels.InferPackageModule | src/codegraphcontext/tools/scip_indexer.py:134-135 | a symbol mentioning both package and module is a Module unless a suffix rule fires first |
| ScipLabels.TableLabel | src/codegraphcontext/tools/scip_indexer.py:24-37 | the table maps only to graph labels |
| ScipLabels.DefinitionLabel | src/codegraphcontext/tools/scip_indexer.py:277-293 | a definition's label is never empty and is a graph label |
| ScipLabels.ChoiceRule | src/codegraphcontext/tools/scip_indexer.py:284-293 | the table's label wins unless it is missing or Symbol, in which case the inferred one is used |
| ScipLabels.LabelRule | src/codegraphcontext/tools/scip_indexer.py:277-293 | the label is the table's for the symbol's kind when that is not Symbol, else the inferred label |
| ScipLabels.KindFamilies | src/codegraphcontext/tools/scip_indexer.py:24-37 | Method, Function and Constructor give Function; Package, Module and Namespace give Module |
| ScipLabels.TargetLabel | src/codegraphcontext/tools/scip_indexer.py:415-423 | a call target's label is a graph label |
| ScipLabels.TargetLabelRule | src/codegraphcontext/tools/scip_indexer.py:415-423 | a call target is labelled by the same rule as a definition |
| ScipLabels.CleanSymbol | src/codegraphcontext/tools/scip_indexer.py:483 | after the replacements no `.` or `#` is left |
| ScipLabels.ExtractName | src/codegraphcontext/tools/scip_indexer.py:478-488 | a non-empty display name is returned as is; the result is empty only for an empty symbol without one |
| ScipLabels.ExtractNameSegment | src/codegraphcontext/tools/scip_indexer.py:482-488 | without a display name: the last non-empty segment, free of `/`, `.` and `#`, else the whole symbol when every segment is empty |
| ScipLabels.Config.ShouldUseScip | src/codegraphcontext/tools/scip_indexer.py:47-55 | true exactly when the method is auto or scip and the language is enabled |
| ScipLabels.Configure | src/codegraphcontext/tools/scip_indexer.py:40-45 | a non-empty method setting is kept, and an unset or empty one means tree-sitter; the enabled languages are the comma pieces of the language setting (or of "python" when it is unset or empty), each stripped, one per piece in order |
| ScipLabels.ConfigureSingleLanguage | src/codegraphcontext/tools/scip_indexer.py:40-55 | a single trimmed language without commas is the one enabled language, and SCIP is used for it exactly when the method is auto or scip |
| ScipLabels.DefaultLanguages | src/codegraphcontext/tools/scip_indexer.py:42-45 | unset languages mean only python |
| ScipLabels.ConfigureDefaults | src/codegraphcontext/tools/scip_indexer.py:40-55 | by default SCIP is never used; with scip or auto set, python uses it |
| ScipOccurrences.PartitionSplits | src/codegraphcontext/tools/scip_indexer.py:259-263 | every occurrence lands in exactly one list: definitions have the Definition bit, references do not |
| ScipOccurrences.Partition | src/codegraphcontext/tools/scip_indexer.py:256-263 | the partition loop builds both lists in occurrence order |
| ScipOccurrences.SortPerm | src/codegraphcontext/tools/scip_indexer.py:266 | sorting is a permutation |
| ScipOccurrences.SortSorted | src/codegraphcontext/tools/scip_indexer.py:266 | sorting orders by key |
| ScipOccurrences.SortStable | src/codegraphcontext/tools/scip_indexer.py:266 | sorting keeps the order of equal keys |
| ScipOccurrences.SortedDefinitionsOrder | src/codegraphcontext/tools/scip_indexer.py:259-266 | the sorted definitions are a permutation of the definitions, ordered by start line then start character, with equal positions in occurrence order |
| ScipOccurrences.ContainingMembers | src/codegraphcontext/tools/scip_indexer.py:400 | candidates are exactly the functions whose first and last lines enclose the line |
| ScipOccurrences.NarrowestCallerSpec | src/codegraphcontext/tools/scip_indexer.py:400-406 | no caller exactly when no function encloses the line; otherwise an enclosing function of least width, the first of that width in list order |
| ScipOccurrences.NarrowestFirst | src/codegraphcontext/tools/scip_indexer.py:405-406 | the head of the candidates sorted by width is the first function of that width |
| ScipGraph.MergeFinds | src/codegraphcontext/tools/scip_indexer.py:150-154 | after a `MERGE` some node matches its pattern |
| ScipGraph.DeleteLocalSpec | src/codegraphcontext/tools/scip_indexer.py:118 | the clean-up removes exactly the local nodes and the edges touching them, keeps every other node as it was, and is idempotent |
| ScipGraph.CallRowsSpec | src/codegraphcontext/tools/scip_indexer.py:432-464 | a call statement reports rows exactly when a caller matched; with none it changes nothing; otherwise every caller gets a verified CALLS edge to a node with the target symbol |
| ScipGraph.SettledAttachIdle | src/codegraphcontext/tools/scip_indexer.py:163-193 | a containment statement whose child exists, carries its properties and is linked changes nothing |
| ScipGraph.AttachSettles | src/codegraphcontext/tools/scip_indexer.py:163-193 | after a containment statement its child exists, carries its properties and is linked from every parent |
| ScipGraph.SettledIdle | src/codegraphcontext/tools/scip_indexer.py:163-193 | a settled hierarchy statement changes nothing |
| ScipGraph.ExecSettles | src/codegraphcontext/tools/scip_indexer.py:163-193 | running a hierarchy statement settles it |
| ScipGraph.Hierarchy | src/codegraphcontext/tools/scip_indexer.py:163-193 | one statement per directory component plus one for the file |
| ScipGraph.HierarchySettles | src/codegraphcontext/tools/scip_indexer.py:163-193 | after any prefix of the block every statement of that prefix is settled |
| ScipGraph.HierarchyIdempotent | src/codegraphcontext/tools/scip_indexer.py:156-243 | running the block a second time adds no node and no edge |
| ScipGraph.HierarchyKeepsEnds | src/codegraphcontext/tools/scip_indexer.py:163-193 | the block leaves nodes at the repository's path and at paths deeper than its directories unchanged |
| ScipGraph.HierarchyParents | src/codegraphcontext/tools/scip_indexer.py:163-193 | after the block, each parent in the chain (the repository, then each directory) exists |
| ScipGraph.DirectoryLinked | src/codegraphcontext/tools/scip_indexer.py:173-186 | each directory with its cumulative path exists and is contained in its parent |
| ScipGraph.FileLinked | src/codegraphcontext/tools/scip_indexer.py:188-193 | the file is contained in its innermost directory, or in the repository when there is none |
| ScipGraph.HierarchyLinks | src/codegraphcontext/tools/scip_indexer.py:163-193 | the block builds the whole chain repository→d1→…→dk→file |
| ScipLinker.LastEntrySpec | src/codegraphcontext/tools/scip_indexer.py:106-110 | the reference reading of the table: no entry exactly when no entry has the symbol, else the last one that has it |
| ScipLinker.AddSymbolsSpec | src/codegraphcontext/tools/scip_indexer.py:106-110 | entering a list into the map keeps every key and sets each of the list's symbols to its last entry |
| ScipLinker.SymbolMapSpec | src/codegraphcontext/tools/scip_indexer.py:106-110 | the symbol table holds the external and the documents' symbols, and a document's entry overrides an external one for the same symbol |
| ScipLinker.KeepParts | src/codegraphcontext/tools/scip_indexer.py:163 | the path components kept are neither empty nor `.` |
| ScipLinker.PathParts | src/codegraphcontext/tools/scip_indexer.py:163 | a relative path's components are non-empty, not `.`, and hold no `/` |
| ScipLinker.ApplyAllAppend | src/codegraphcontext/tools/scip_indexer.py:138-476 | running two lists of writes in turn is running their concatenation |
| ScipLinker.FallbackRule | src/codegraphcontext/tools/scip_indexer.py:432-464 | the line-number statement runs only when the name statement matched no caller |
| ScipLinker.DefinitionWrite | src/codegraphcontext/tools/scip_indexer.py:295-309 | a definition's write merges a node with its symbol, under its file, at its one-based start line |
| ScipLinker.DefinitionWritesSpec | src/codegraphcontext/tools/scip_indexer.py:272-311 | the definition writes are exactly those of the non-local definitions |
| ScipLinker.CallWritesSpec | src/codegraphcontext/tools/scip_indexer.py:381-464 | the call writes are exactly those of the non-local references that have a caller |
| ScipLinker.NoFunctionsNoCalls | src/codegraphcontext/tools/scip_indexer.py:400-406 | without function spans no reference has a caller and nothing is written |
| ScipLinker.PlanNonLocal | src/codegraphcontext/tools/scip_indexer.py:274-275 | no write of a document mentions a local symbol |
| ScipLinker.PlanAddsNoLocal | src/codegraphcontext/tools/scip_indexer.py:274-275 | a document's writes add no local node to a store that has none |
| ScipLinker.MergeFileEffect | src/codegraphcontext/tools/scip_indexer.py:150-154 | after the file statement the file node exists and the repository nodes are as before |
| ScipLinker.PlanSplit | src/codegraphcontext/tools/scip_indexer.py:145-464 | a document's writes are: the file, the hierarchy block twice, the definitions, then the calls |
| ScipLinker.PlanPrefix | src/codegraphcontext/tools/scip_indexer.py:156-243 | the store after the second hierarchy block is the store after the first |
| ScipLinker.PlanHierarchy | src/codegraphcontext/tools/scip_indexer.py:145-243 | after the file and hierarchy statements the chain repository→directories→file is complete |
| ScipLinker.DefinitionPlaced | src/codegraphcontext/tools/scip_indexer.py:303-309 | a definition node with its symbol, name, path and line exists and is contained in its file, and the file nodes are unchanged |
| ScipSession.Session.constructor | src/codegraphcontext/tools/scip_indexer.py:101-124 | a session over a given store |
| ScipSession.Session.Run | src/codegraphcontext/tools/scip_indexer.py:432-447 | `session.run` applies one statement and reports its row count |
| ScipSession.LinkHierarchy | src/codegraphcontext/tools/scip_indexer.py:156-197 | the directory loop, moving `parent_path` and `parent_label` down, runs the hierarchy block |
| ScipSession.WriteDefinitions | src/codegraphcontext/tools/scip_indexer.py:272-311 | the definition loop performs exactly the definition writes |
| ScipSession.WriteCall | src/codegraphcontext/tools/scip_indexer.py:415-464 | one reference's edge: by the caller's name, then by its line when no relationship came of that |
| ScipSession.WriteCalls | src/codegraphcontext/tools/scip_indexer.py:381-464 | the reference loop performs exactly the call writes |
| ScipSession.ProcessDocument | src/codegraphcontext/tools/scip_indexer.py:138-476 | `_process_document` performs exactly the planned writes: none for a path starting with `..`, and no calls when the file is not on disk |
| ScipIngest.EnterSymbols | src/codegraphcontext/tools/scip_indexer.py:106-110 | entering symbols one by one, a later entry replacing an earlier one |
| ScipIngest.BuildSymbolMap | src/codegraphcontext/tools/scip_indexer.py:106-110 | the two loops build exactly the symbol table |
| ScipIngest.ProcessDocuments | src/codegraphcontext/tools/scip_indexer.py:112-114 | every document is processed in order against one table |
| ScipIngest.ProcessAllNoLocal | src/codegraphcontext/tools/scip_indexer.py:112-114 | processing documents adds no local node |
| ScipIngest.IngestLeavesNoLocal | src/codegraphcontext/tools/scip_indexer.py:101-124 | after ingestion no local node is left |
| ScipIngest.IngestIndex | src/codegraphcontext/tools/scip_indexer.py:101-124 | `ingest_index` performs every document's writes and then the clean-up, leaving no local node |
| BundleRegistry.BelowIrreflexive | src/codegraphcontext/core/bundle_registry.py:134 | no string sorts before itself |
| BundleRegistry.BelowTransitive | src/codegraphcontext/core/bundle_registry.py:134 | string order is transitive |
| BundleRegistry.BelowTotal | src/codegraphcontext/core/bundle_registry.py:134 | string order is total and antisymmetric |
| BundleRegistry.ManifestBundle | src/codegraphcontext/core/bundle_registry.py:34-40 | a manifest entry is tagged on-demand; with a bundle name its full name is the bundle name with `.cgc` removed, overriding any full name it had; without one it keeps its full name; nothing else changes |
| BundleRegistry.CgcStem | src/codegraphcontext/core/bundle_registry.py:39 | removing `.cgc` from `stem.cgc` gives the stem when the stem holds no `.cgc` |
| BundleRegistry.ManifestFullNameStem | src/codegraphcontext/core/bundle_registry.py:37-39 | a manifest entry with bundle name `stem.cgc` gets the stem as its full name |
| BundleRegistry.LatestWeekly | src/codegraphcontext/core/bundle_registry.py:51-55 | the latest weekly release is the first one tagged `bundles-…` other than `bundles-latest`, none exactly when there is no such release |
| BundleRegistry.AssetBundlesFrom | src/codegraphcontext/core/bundle_registry.py:57-77 | every weekly record comes from a `.cgc` asset, and every complete `.cgc` asset gives one |
| BundleRegistry.AssetFullNameStem | src/codegraphcontext/core/bundle_registry.py:60 | an asset named `stem.cgc` with no `.cgc` inside the stem has the stem as its full name |
| BundleRegistry.AssetNameParts | src/codegraphcontext/core/bundle_registry.py:60-70 | the full name is the asset name without `.cgc`; the name is the text before its first `-` and the repository is `name/name`; the version is the text after that `-` up to the next one, else `latest`; the commit is the text after the version's `-` up to the next one, else `unknown` |
| BundleRegistry.WeeklyNormalized | src/codegraphcontext/core/bundle_registry.py:64-95 | a weekly record already has both names, so normalisation keeps it |
| BundleRegistry.RepoTailSpec | src/codegraphcontext/core/bundle_registry.py:86-87 | the last `/` part of a repository ends it and holds no `/` |
| BundleRegistry.NormalizeSpec | src/codegraphcontext/core/bundle_registry.py:82-95 | normalisation gives every bundle a name and a full name, keeps those present, and changes nothing else |
| BundleRegistry.NormalizeNameSpec | src/codegraphcontext/core/bundle_registry.py:84-91 | a missing name is the repository's last `/` part when the repository has a `/`, else the text before the first `-` of the full name, else of the bundle name, else of "unknown" |
| BundleRegistry.NormalizeFullNameSpec | src/codegraphcontext/core/bundle_registry.py:94-95 | a missing full name is the bundle name `stem.cgc` without `.cgc`; with no bundle name either, it is the settled name when that holds no `.cgc` |
| BundleRegistry.NormalizeIdempotent | src/codegraphcontext/core/bundle_registry.py:82-95 | normalising twice changes nothing more |
| BundleRegistry.NormalizeAll | src/codegraphcontext/core/bundle_registry.py:82-95 | the loop normalises every bundle of the list in place |
| BundleRegistry.FetchAvailableBundles | src/codegraphcontext/core/bundle_registry.py:20-97 | the list is the manifest entries then the weekly records, each normalised |
| BundleRegistry.FetchedHaveNames | src/codegraphcontext/core/bundle_registry.py:82-97 | every fetched bundle has a name and a full name |
| BundleRegistry.FirstFullMatch | src/codegraphcontext/core/bundle_registry.py:118-124 | the first bundle whose full name matches case-insensitively, none exactly when none does |
| BundleRegistry.NameMatching | src/codegraphcontext/core/bundle_registry.py:127-130 | every collected bundle matches the base name |
| BundleRegistry.NameMatchingEmpty | src/codegraphcontext/core/bundle_registry.py:127-132 | no bundle is collected exactly when no name matches |
| BundleRegistry.NewestIsNewestAt | src/codegraphcontext/core/bundle_registry.py:133-135 | the head of the stable newest-first sort is a match with the greatest `generated_at`, the earliest listed among equals |
| BundleRegistry.Reply | src/codegraphcontext/core/bundle_registry.py:121-124 | the chosen bundle is returned with its URL and no error when the URL is non-empty, else without a URL and with an error |
| BundleRegistry.FindSpec | src/codegraphcontext/core/bundle_registry.py:113-141 | empty list: fetch error; else the first full-name match; else the newest name match; else not found |
| BundleRegistry.NewestOf | src/codegraphcontext/core/bundle_registry.py:133-135 | the scan picks the head of the newest-first order |
| BundleRegistry.FindBundleDownloadInfo | src/codegraphcontext/core/bundle_registry.py:100-141 | the early-return scan computes the specified answer |

## Left out

- Tree-sitter is not modelled: parsing, the query strings and `execute_query`. The node arena and the capture sequence are inputs. Node text is given already decoded.
- File reads are not modelled: the encoding options of `open`, `Path.resolve`, `os.path.join` and `file_path.exists()`. Paths are lists of components, and whether the file exists is part of the `spansOf` input.
- Python's `id(node)` is replaced by the node's arena index.
- Neo4j and Cypher are not modelled. The store is an abstract merge graph with a statement per query shape, not query text; transactions and per-statement database errors are out.
- Running `scip-python`, protobuf decoding, `run_index` and `get_config_value` are not modelled. The configuration values are inputs to `ScipLabels.Configure`.
- The nested Python parse that yields function spans is not modelled; its spans are the `spansOf` input. An exception in it is not modelled.
- Strings.Lower: folds only ASCII letters, while Python's `lower()` covers all of Unicode.
- PreScan.Scan: a file either fails as a whole or yields all its captures. A decode error part-way through a file's captures, which in Python keeps the paths already appended, is not modelled.
- ScipOccurrences: only ranges of 3 or 4 numbers are modelled. A stable insertion sort stands in for `list.sort`.
- ScipLinker.PathParts: paths are component lists, so `..` inside a path and symbolic links are not resolved.
- The first caller loop of `_process_document` (scip_indexer.py:387-391) has no effect: its result is overwritten. It is left out.
- Exception handlers, logging and debug printing are left out throughout.
- BundleRegistry: HTTP fetching and `download_file` (streaming, deleting a partial file) are left out. So is the `size` megabyte string of a weekly record (float formatting); `size_bytes` is modelled as the asset size.
- BundleRegistry.Newest: the stage-2 reverse sort is modelled by the element it puts first, not the whole sorted list.
- BundleRegistry: an asset's `name` is always present, and every field has the JSON type the API documents (strings, with `size` an integer); no field is null. A missing `tag_name`, which raises in Python, is not modelled.
- BundleRegistry.AssetNameParts: `.replace('.cgc', '')` removes every occurrence of `.cgc`, not only the suffix, and the model does the same.
