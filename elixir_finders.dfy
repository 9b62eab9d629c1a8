/**
 * The six finders of the Elixir extractor and the shape of `parse`. Each
 * finder groups one query's captures with the correlator, keeps the records
 * whose required fields are non-empty, and turns each into the dictionary the
 * graph builder consumes, in the order of the dict the source builds.
 */
module ElixirFinders {
  import opened Wrappers
  import opened Strings
  import opened SyntaxTree
  import opened Correlator
  import opened ElixirArguments
  import opened ElixirWalks

  const Lang := "elixir"

  /** What only an `index_source` parse adds: the node's text and docstring. */
  datatype Indexed = Indexed(source: string, docstring: Option<string>)

  /** The name part of a context triple. */
  function ContextName(c: Option<Context>): Option<string> {
    if c.Some? then Some(c.value.name) else None
  }

  function ContextKind(c: Option<Context>): Option<string> {
    if c.Some? then Some(c.value.kind) else None
  }

  const ModuleKinds: set<string> := {"defmodule"}
  const FunctionKinds: set<string> := {"def", "defp"}

  /** The name of the nearest enclosing named `defmodule`. */
  function EnclosingModule(t: Tree, n: nat): Option<string>
    requires WellFormed(t) && n < |t|
  {
    ContextName(ParentContext(t, n, ModuleKinds))
  }

  // ---------------------------------------------------------------- functions

  const FunctionLayout := Layout({"func_def"}, [{"func_name"}, {"func_args"}, {"def_type"}], false)
  const FuncName := 0
  const FuncArgs := 1
  const DefType := 2

  datatype FunctionEntry = FunctionEntry(
    name: string, lineNumber: nat, endLine: nat, args: seq<string>, visibility: string,
    complexity: nat, context: Option<string>, lang: string, isDependency: bool,
    indexed: Option<Indexed>)

  /** The definition kind, `def` when none was captured. */
  function DefKind(s: Slot): string
    requires |s.fields| == |FunctionLayout.fieldNames|
  {
    Or(s.fields[DefType], "def")
  }

  /** `private` for a `defp`, `public` for anything else. */
  function Visibility(defKind: string): (v: string)
    ensures v == "private" <==> defKind == "defp"
    ensures v == "public" <==> defKind != "defp"
  {
    if defKind == "defp" then "private" else "public"
  }

  /** The dictionary `_find_functions` appends for a named record. */
  function FunctionEntryOf(t: Tree, s: Slot, indexSource: bool): (e: FunctionEntry)
    requires WellFormed(t) && s.node < |t| && |s.fields| == |FunctionLayout.fieldNames|
  {
    FunctionEntry(
      s.fields[FuncName].GetOr(""), LineOf(t, s.node), EndLineOf(t, s.node),
      Arguments(Or(s.fields[FuncArgs], "")),
      Visibility(DefKind(s)),
      Complexity(t, s.node), EnclosingModule(t, s.node), Lang, false,
      if indexSource then Some(Indexed(t[s.node].text, Docstring(t, s.node))) else None)
  }

  /** The dictionaries for the named records `ks`, in order. */
  function FunctionsOf(t: Tree, ks: seq<Slot>, indexSource: bool): (r: seq<FunctionEntry>)
    requires WellFormed(t) && Fit(t, ks, FunctionLayout)
    ensures |r| == |ks|
  {
    if ks == [] then []
    else FunctionsOf(t, ks[..|ks| - 1], indexSource) + [FunctionEntryOf(t, ks[|ks| - 1], indexSource)]
  }

  lemma {:induction false} FunctionsOfAt(t: Tree, ks: seq<Slot>, indexSource: bool, i: nat)
    requires WellFormed(t) && Fit(t, ks, FunctionLayout) && i < |ks|
    ensures FunctionsOf(t, ks, indexSource)[i] == FunctionEntryOf(t, ks[i], indexSource)
  {
    if i < |ks| - 1 {
      FunctionsOfAt(t, ks[..|ks| - 1], indexSource, i);
    }
  }

  lemma FunctionsOfSnoc(t: Tree, ks: seq<Slot>, s: Slot, indexSource: bool)
    requires WellFormed(t) && Fit(t, ks + [s], FunctionLayout)
    ensures Fit(t, ks, FunctionLayout) && s.node < |t| && |s.fields| == |FunctionLayout.fieldNames|
    ensures FunctionsOf(t, ks + [s], indexSource) == FunctionsOf(t, ks, indexSource) + [FunctionEntryOf(t, s, indexSource)]
  {
    assert (ks + [s])[|ks|] == s;
    assert (ks + [s])[..|ks|] == ks;
  }

  /** The functions `_find_functions` returns for the captures `caps`. */
  function Functions(t: Tree, caps: seq<Capture>, indexSource: bool): seq<FunctionEntry>
    requires WellFormed(t) && CapturesIn(t, caps)
  {
    FunctionsOf(t, Emitted(t, caps, FunctionLayout, {FuncName}), indexSource)
  }

  /** The body of the emission loop of `_find_functions` for one record. */
  method FunctionEntryFor(t: Tree, s: Slot, indexSource: bool) returns (e: FunctionEntry)
    requires WellFormed(t) && s.node < |t| && |s.fields| == |FunctionLayout.fieldNames|
    ensures e == FunctionEntryOf(t, s, indexSource)
  {
    var args := ParseArguments(Or(s.fields[FuncArgs], ""));
    var defType := Or(s.fields[DefType], "def");
    var visibility := if defType == "defp" then "private" else "public";
    assert visibility == Visibility(DefKind(s));
    var context := GetParentContext(t, s.node, ModuleKinds);
    var docstring := GetDocstring(t, s.node);
    var complexity := CalculateComplexity(t, s.node);
    var indexed := if indexSource then Some(Indexed(t[s.node].text, docstring)) else None;
    e := FunctionEntry(
      s.fields[FuncName].GetOr(""), LineOf(t, s.node), EndLineOf(t, s.node), args, visibility,
      complexity, ContextName(context), Lang, false, indexed);
  }

  /** The emission loop of `_find_functions` over the grouped records. */
  method EmitFunctions(t: Tree, slots: seq<Slot>, indexSource: bool) returns (functions: seq<FunctionEntry>)
    requires WellFormed(t) && Fit(t, slots, FunctionLayout)
    ensures Fit(t, Kept(slots, {FuncName}), FunctionLayout)
    ensures functions == FunctionsOf(t, Kept(slots, {FuncName}), indexSource)
  {
    KeptFit(t, slots[..0], FunctionLayout, {FuncName});
    functions := [];
    var j := 0;
    while j < |slots|
      invariant 0 <= j <= |slots|
      invariant Fit(t, Kept(slots[..j], {FuncName}), FunctionLayout)
      invariant functions == FunctionsOf(t, Kept(slots[..j], {FuncName}), indexSource)
    {
      KeptPrefix(t, slots, j, FunctionLayout, {FuncName});
      ghost var ks := Kept(slots[..j], {FuncName});
      assert Keeps(slots[j], {FuncName}) <==> Truthy(slots[j].fields[FuncName]);
      ghost var ks' := Kept(slots[..j + 1], {FuncName});
      if Truthy(slots[j].fields[FuncName]) {
        var e := FunctionEntryFor(t, slots[j], indexSource);
        functions := functions + [e];
        assert ks' == ks + [slots[j]];
        FunctionsOfSnoc(t, ks, slots[j], indexSource);
      } else {
        assert ks' == ks;
      }
      j := j + 1;
    }
    assert slots[..j] == slots;
  }

  /** `_find_functions`: group the captures, then emit. */
  method FindFunctions(t: Tree, caps: seq<Capture>, indexSource: bool) returns (functions: seq<FunctionEntry>)
    requires WellFormed(t) && CapturesIn(t, caps)
    ensures functions == Functions(t, caps, indexSource)
  {
    var slots := Correlate(t, caps, FunctionLayout);
    assert Fit(t, slots, FunctionLayout);
    functions := EmitFunctions(t, slots, indexSource);
  }

  /** Each function dictionary comes from one `func_def` node: its name is the
      non-empty text of a `func_name` capture inside that node, and it is
      private exactly when the definition kind captured inside is `defp`. */
  lemma FunctionsSound(t: Tree, caps: seq<Capture>, indexSource: bool, j: nat)
    requires WellFormed(t) && CapturesIn(t, caps) && j < |Functions(t, caps, indexSource)|
    ensures var s := Emitted(t, caps, FunctionLayout, {FuncName})[j];
      var e := Functions(t, caps, indexSource)[j];
      && IsSeeded(caps, {"func_def"}, s.node)
      && e.name != [] && e.lineNumber == LineOf(t, s.node)
      && (exists m | 0 <= m < |caps| ::
            caps[m].name == "func_name" && Inside(t, caps[m].node, s.node) && e.name == t[caps[m].node].text)
      && (e.visibility == "private" <==> DefKind(s) == "defp")
  {
    var ks := Emitted(t, caps, FunctionLayout, {FuncName});
    var s := ks[j];
    EmittedSound(t, caps, FunctionLayout, {FuncName}, j, FuncName);
    assert Keeps(s, {FuncName});
    FunctionsOfAt(t, ks, indexSource, j);
    var e := Functions(t, caps, indexSource)[j];
    assert e.name == s.fields[FuncName].value;
    assert e.visibility == Visibility(DefKind(s));
  }

  /** A named `func_def` record is emitted, and there is at most one
      dictionary per `func_def` node: the j-th dictionary is built from the
      j-th emitted record, and no two emitted records share a node. */
  lemma FunctionsComplete(t: Tree, caps: seq<Capture>, indexSource: bool, s: Slot)
    requires WellFormed(t) && CapturesIn(t, caps)
    requires s in Correlation(t, caps, FunctionLayout) && Truthy(s.fields[FuncName])
    ensures FunctionEntryOf(t, s, indexSource) in Functions(t, caps, indexSource)
    ensures |Functions(t, caps, indexSource)| <= |SeedOrder(caps, {"func_def"})|
    ensures var ks := Emitted(t, caps, FunctionLayout, {FuncName});
      && |Functions(t, caps, indexSource)| == |ks|
      && (forall j | 0 <= j < |ks| :: Functions(t, caps, indexSource)[j] == FunctionEntryOf(t, ks[j], indexSource))
      && (forall j, j' | 0 <= j < j' < |ks| :: ks[j].node != ks[j'].node)
  {
    var ks := Emitted(t, caps, FunctionLayout, {FuncName});
    forall j | 0 <= j < |ks|
      ensures Functions(t, caps, indexSource)[j] == FunctionEntryOf(t, ks[j], indexSource)
    {
      FunctionsOfAt(t, ks, indexSource, j);
    }
    assert Keeps(s, {FuncName});
    EmittedComplete(t, caps, FunctionLayout, {FuncName}, s);
    var i := IndexOfSlot(ks, s);
    FunctionsOfAt(t, ks, indexSource, i);
  }

  // ------------------------------------------------------------------ classes

  /** Modules and protocols; a name capture goes to the first record that
      holds it only. */
  const ClassSeeds: set<string> := {"module_def", "proto_def"}
  const ClassNames: set<string> := {"module_name", "proto_name"}
  const ClassLayout := Layout(ClassSeeds, [ClassNames], true)
  const ClassName := 0

  datatype ClassEntry = ClassEntry(
    name: string, lineNumber: nat, endLine: nat, bases: seq<string>, context: Option<string>,
    contextType: Option<string>, kind: string, decorators: seq<string>, lang: string,
    isDependency: bool, indexed: Option<Indexed>)

  /** `protocol` for a record seeded by `proto_def`, `module` otherwise. */
  function ClassKind(seedName: string): (k: string)
    ensures k == "protocol" <==> seedName == "proto_def"
    ensures k == "module" <==> seedName != "proto_def"
  {
    if seedName == "proto_def" then "protocol" else "module"
  }

  /** The dictionary `_find_classes` appends for a named record. */
  function ClassEntryOf(t: Tree, s: Slot, indexSource: bool): ClassEntry
    requires WellFormed(t) && s.node < |t| && |s.fields| == |ClassLayout.fieldNames|
  {
    var context := ParentContext(t, s.node, ModuleKinds);
    ClassEntry(
      s.fields[ClassName].GetOr(""), LineOf(t, s.node), EndLineOf(t, s.node), [],
      ContextName(context), ContextKind(context), ClassKind(s.seedName), [], Lang, false,
      if indexSource then Some(Indexed(t[s.node].text, Docstring(t, s.node))) else None)
  }

  function ClassesOf(t: Tree, ks: seq<Slot>, indexSource: bool): (r: seq<ClassEntry>)
    requires WellFormed(t) && Fit(t, ks, ClassLayout)
    ensures |r| == |ks|
  {
    if ks == [] then []
    else ClassesOf(t, ks[..|ks| - 1], indexSource) + [ClassEntryOf(t, ks[|ks| - 1], indexSource)]
  }

  lemma {:induction false} ClassesOfAt(t: Tree, ks: seq<Slot>, indexSource: bool, i: nat)
    requires WellFormed(t) && Fit(t, ks, ClassLayout) && i < |ks|
    ensures ClassesOf(t, ks, indexSource)[i] == ClassEntryOf(t, ks[i], indexSource)
  {
    if i < |ks| - 1 {
      ClassesOfAt(t, ks[..|ks| - 1], indexSource, i);
    }
  }

  lemma ClassesOfSnoc(t: Tree, ks: seq<Slot>, s: Slot, indexSource: bool)
    requires WellFormed(t) && Fit(t, ks + [s], ClassLayout)
    ensures Fit(t, ks, ClassLayout) && s.node < |t| && |s.fields| == |ClassLayout.fieldNames|
    ensures ClassesOf(t, ks + [s], indexSource) == ClassesOf(t, ks, indexSource) + [ClassEntryOf(t, s, indexSource)]
  {
    assert (ks + [s])[|ks|] == s;
    assert (ks + [s])[..|ks|] == ks;
  }

  /** The classes `_find_classes` returns for the captures `caps`. */
  function Classes(t: Tree, caps: seq<Capture>, indexSource: bool): seq<ClassEntry>
    requires WellFormed(t) && CapturesIn(t, caps)
  {
    ClassesOf(t, Emitted(t, caps, ClassLayout, {ClassName}), indexSource)
  }

  method ClassEntryFor(t: Tree, s: Slot, indexSource: bool) returns (e: ClassEntry)
    requires WellFormed(t) && s.node < |t| && |s.fields| == |ClassLayout.fieldNames|
    ensures e == ClassEntryOf(t, s, indexSource)
  {
    var kind := if s.seedName == "proto_def" then "protocol" else "module";
    var context := GetParentContext(t, s.node, ModuleKinds);
    var docstring := GetDocstring(t, s.node);
    var indexed := if indexSource then Some(Indexed(t[s.node].text, docstring)) else None;
    e := ClassEntry(
      s.fields[ClassName].GetOr(""), LineOf(t, s.node), EndLineOf(t, s.node), [],
      ContextName(context), ContextKind(context), kind, [], Lang, false, indexed);
  }

  /** The emission loop of `_find_classes` over the grouped records. */
  method EmitClasses(t: Tree, slots: seq<Slot>, indexSource: bool) returns (classes: seq<ClassEntry>)
    requires WellFormed(t) && Fit(t, slots, ClassLayout)
    ensures Fit(t, Kept(slots, {ClassName}), ClassLayout)
    ensures classes == ClassesOf(t, Kept(slots, {ClassName}), indexSource)
  {
    KeptFit(t, slots[..0], ClassLayout, {ClassName});
    classes := [];
    var j := 0;
    while j < |slots|
      invariant 0 <= j <= |slots|
      invariant Fit(t, Kept(slots[..j], {ClassName}), ClassLayout)
      invariant classes == ClassesOf(t, Kept(slots[..j], {ClassName}), indexSource)
    {
      KeptPrefix(t, slots, j, ClassLayout, {ClassName});
      ghost var ks := Kept(slots[..j], {ClassName});
      assert Keeps(slots[j], {ClassName}) <==> Truthy(slots[j].fields[ClassName]);
      ghost var ks' := Kept(slots[..j + 1], {ClassName});
      if Truthy(slots[j].fields[ClassName]) {
        var e := ClassEntryFor(t, slots[j], indexSource);
        classes := classes + [e];
        assert ks' == ks + [slots[j]];
        ClassesOfSnoc(t, ks, slots[j], indexSource);
      } else {
        assert ks' == ks;
      }
      j := j + 1;
    }
    assert slots[..j] == slots;
  }

  /** `_find_classes`: group the captures, then emit. */
  method FindClasses(t: Tree, caps: seq<Capture>, indexSource: bool) returns (classes: seq<ClassEntry>)
    requires WellFormed(t) && CapturesIn(t, caps)
    ensures classes == Classes(t, caps, indexSource)
  {
    var slots := Correlate(t, caps, ClassLayout);
    assert Fit(t, slots, ClassLayout);
    classes := EmitClasses(t, slots, indexSource);
  }

  /** Each class dictionary comes from a `module_def` or `proto_def` node; it
      is a protocol exactly when that node was (last) captured as
      `proto_def`; its name is the text of a name capture inside the node
      that no earlier record holds (the node is the capture's first holder);
      bases and decorators are always empty. */
  lemma ClassesSound(t: Tree, caps: seq<Capture>, indexSource: bool, j: nat)
    requires WellFormed(t) && CapturesIn(t, caps) && j < |Classes(t, caps, indexSource)|
    ensures var s := Emitted(t, caps, ClassLayout, {ClassName})[j];
      var e := Classes(t, caps, indexSource)[j];
      && IsSeeded(caps, ClassSeeds, s.node)
      && Some(s.seedName) == LastSeedName(caps, ClassSeeds, s.node)
      && (e.kind == "protocol" <==> s.seedName == "proto_def")
      && e.name != [] && e.bases == [] && e.decorators == []
      && (exists m | 0 <= m < |caps| ::
            && caps[m].name in ClassNames && Inside(t, caps[m].node, s.node)
            && e.name == t[caps[m].node].text
            && HeldFirstBy(t, SeedOrder(caps, ClassSeeds), caps[m].node, s.node))
  {
    var ks := Emitted(t, caps, ClassLayout, {ClassName});
    EmittedSound(t, caps, ClassLayout, {ClassName}, j, ClassName);
    ClassesOfAt(t, ks, indexSource, j);
    var e := Classes(t, caps, indexSource)[j];
    assert e == ClassEntryOf(t, ks[j], indexSource);
    assert Keeps(ks[j], {ClassName});
  }

  // ------------------------------------------------------------------ imports

  const ImportLayout := Layout({"import_def"}, [{"import_type"}, {"import_args"}], false)
  const ImportType := 0
  const ImportArgs := 1
  /** Both the kind and the arguments must be non-empty. */
  const ImportRequired: set<nat> := {ImportType, ImportArgs}

  datatype ImportEntry = ImportEntry(
    name: string, fullImportName: string, importType: string, lineNumber: nat,
    alias: Option<string>, lang: string, isDependency: bool)

  /** The argument text with surrounding whitespace and then every outer
      parenthesis removed. */
  function RawImportArgs(args: string): string {
    Strip(Trim(args), Parens)
  }

  /** The imported module: the first parsed argument, or the raw argument
      text when parsing finds none. */
  function ImportName(args: string): string {
    var raw := RawImportArgs(args);
    var parts := Arguments(raw);
    if parts != [] then parts[0] else raw
  }

  /** The dictionary `_find_imports` appends for a record with both a kind
      and arguments. */
  function ImportEntryOf(t: Tree, s: Slot): ImportEntry
    requires WellFormed(t) && s.node < |t| && |s.fields| == |ImportLayout.fieldNames|
  {
    ImportEntry(
      ImportName(s.fields[ImportArgs].GetOr("")), t[s.node].text, s.fields[ImportType].GetOr(""),
      LineOf(t, s.node), None, Lang, false)
  }

  function ImportsOf(t: Tree, ks: seq<Slot>): (r: seq<ImportEntry>)
    requires WellFormed(t) && Fit(t, ks, ImportLayout)
    ensures |r| == |ks|
  {
    if ks == [] then []
    else ImportsOf(t, ks[..|ks| - 1]) + [ImportEntryOf(t, ks[|ks| - 1])]
  }

  lemma {:induction false} ImportsOfAt(t: Tree, ks: seq<Slot>, i: nat)
    requires WellFormed(t) && Fit(t, ks, ImportLayout) && i < |ks|
    ensures ImportsOf(t, ks)[i] == ImportEntryOf(t, ks[i])
  {
    if i < |ks| - 1 {
      ImportsOfAt(t, ks[..|ks| - 1], i);
    }
  }

  /** The imports `_find_imports` returns for the captures `caps`. */
  function Imports(t: Tree, caps: seq<Capture>): seq<ImportEntry>
    requires WellFormed(t) && CapturesIn(t, caps)
  {
    ImportsOf(t, Emitted(t, caps, ImportLayout, ImportRequired))
  }

  method ImportEntryFor(t: Tree, s: Slot) returns (e: ImportEntry)
    requires WellFormed(t) && s.node < |t| && |s.fields| == |ImportLayout.fieldNames|
    ensures e == ImportEntryOf(t, s)
  {
    var raw := Strip(Trim(s.fields[ImportArgs].GetOr("")), Parens);
    var parts := ParseArguments(raw);
    var name := if parts != [] then parts[0] else raw;
    e := ImportEntry(name, t[s.node].text, s.fields[ImportType].GetOr(""), LineOf(t, s.node), None, Lang, false);
  }

  /** A record is kept exactly when both its kind and its arguments are truthy. */
  lemma KeepsImport(s: Slot)
    requires |s.fields| == |ImportLayout.fieldNames|
    ensures Keeps(s, ImportRequired) <==> Truthy(s.fields[ImportType]) && Truthy(s.fields[ImportArgs])
  {
    assert ImportType in ImportRequired && ImportArgs in ImportRequired;
  }

  /** The emission loop of `_find_imports` over the grouped records. */
  method EmitImports(t: Tree, slots: seq<Slot>) returns (imports: seq<ImportEntry>)
    requires WellFormed(t) && Fit(t, slots, ImportLayout)
    ensures Fit(t, Kept(slots, ImportRequired), ImportLayout)
    ensures imports == ImportsOf(t, Kept(slots, ImportRequired))
  {
    KeptFit(t, slots[..0], ImportLayout, ImportRequired);
    imports := [];
    var j := 0;
    while j < |slots|
      invariant 0 <= j <= |slots|
      invariant Fit(t, Kept(slots[..j], ImportRequired), ImportLayout)
      invariant |imports| == |Kept(slots[..j], ImportRequired)|
      invariant forall i | 0 <= i < |imports| :: imports[i] == ImportEntryOf(t, Kept(slots[..j], ImportRequired)[i])
    {
      KeptPrefix(t, slots, j, ImportLayout, ImportRequired);
      KeepsImport(slots[j]);
      if Truthy(slots[j].fields[ImportType]) && Truthy(slots[j].fields[ImportArgs]) {
        var e := ImportEntryFor(t, slots[j]);
        imports := imports + [e];
      }
      j := j + 1;
    }
    assert slots[..j] == slots;
    ImportsOfAll(t, Kept(slots, ImportRequired), imports);
  }

  /** A list that agrees with `ImportEntryOf` at every position is `ImportsOf`. */
  lemma ImportsOfAll(t: Tree, ks: seq<Slot>, xs: seq<ImportEntry>)
    requires WellFormed(t) && Fit(t, ks, ImportLayout) && |xs| == |ks|
    requires forall i | 0 <= i < |xs| :: xs[i] == ImportEntryOf(t, ks[i])
    ensures xs == ImportsOf(t, ks)
  {
    forall i | 0 <= i < |xs| ensures xs[i] == ImportsOf(t, ks)[i] {
      ImportsOfAt(t, ks, i);
    }
  }

  /** `_find_imports`: group the captures, then emit. */
  method FindImports(t: Tree, caps: seq<Capture>) returns (imports: seq<ImportEntry>)
    requires WellFormed(t) && CapturesIn(t, caps)
    ensures imports == Imports(t, caps)
  {
    var slots := Correlate(t, caps, ImportLayout);
    assert Fit(t, slots, ImportLayout);
    imports := EmitImports(t, slots);
  }

  /** An import statement with a single argument (no comma outside
      brackets) names that argument, trimmed and without its outer
      parentheses: `alias Foo.Bar` imports `Foo.Bar`. */
  lemma ImportNameSingle(args: string)
    requires TopCommas(Strip(RawImportArgs(args), Parens)) == 0
    requires Trim(RawImportArgs(args)) != []
    ensures ImportName(args) == Trim(RawImportArgs(args))
  {
    var raw := RawImportArgs(args);
    SingleArgument(raw);
    StripTwice(Trim(args), Parens);
  }

  /** Each import dictionary comes from one `import_def` node whose kind and
      argument captures inside it are both non-empty; the name is the module
      named by the argument text. */
  lemma ImportsSound(t: Tree, caps: seq<Capture>, j: nat)
    requires WellFormed(t) && CapturesIn(t, caps) && j < |Imports(t, caps)|
    ensures var s := Emitted(t, caps, ImportLayout, ImportRequired)[j];
      var e := Imports(t, caps)[j];
      && IsSeeded(caps, {"import_def"}, s.node)
      && e.importType != [] && e.fullImportName == t[s.node].text && e.lineNumber == LineOf(t, s.node)
      && e.name == ImportName(s.fields[ImportArgs].value)
      && e.alias.None?
  {
    var ks := Emitted(t, caps, ImportLayout, ImportRequired);
    EmittedSound(t, caps, ImportLayout, ImportRequired, j, ImportType);
    ImportsOfAt(t, ks, j);
    assert Keeps(ks[j], ImportRequired);
    assert ImportType in ImportRequired && ImportArgs in ImportRequired;
    var e := Imports(t, caps)[j];
    assert e == ImportEntryOf(t, ks[j]);
    assert Truthy(ks[j].fields[ImportType]) && Truthy(ks[j].fields[ImportArgs]);
  }

  // -------------------------------------------------------------------- calls

  const CallLayout := Layout({"call_node"}, [{"receiver"}, {"method"}, {"call_args"}], false)
  const Receiver := 0
  const Method := 1
  const CallArgs := 2

  datatype CallEntry = CallEntry(
    name: string, fullName: string, lineNumber: nat, args: seq<string>,
    inferredObjType: Option<string>, context: Option<Context>, classContext: Option<string>,
    lang: string, isDependency: bool)

  /** `receiver.method` when the receiver is non-empty, else the method. */
  function FullName(receiver: Option<string>, methodName: string): string {
    if Truthy(receiver) then receiver.value + "." + methodName else methodName
  }

  /** The parsed argument list, or no arguments when none was captured. */
  function CallArguments(argsText: Option<string>): seq<string> {
    if argsText.Some? then Arguments(argsText.value) else []
  }

  /** The class context of a call: the enclosing context itself when it is a
      module, the nearest enclosing module when it is a function, and None
      when there is no enclosing context. */
  function CallClassContext(t: Tree, n: nat): Option<string>
    requires WellFormed(t) && n < |t|
  {
    var c := ParentContext(t, n, DefaultTypes);
    if c.Some? && c.value.kind == "defmodule" then Some(c.value.name)
    else if c.Some? && c.value.kind in FunctionKinds then EnclosingModule(t, n)
    else None
  }

  /** The three cases come to one: the class context of a call is always the
      name of the nearest enclosing `defmodule`. */
  lemma CallClassContextIsModule(t: Tree, n: nat)
    requires WellFormed(t) && n < |t|
    ensures CallClassContext(t, n) == EnclosingModule(t, n)
  {
    assert LinksOk(t, n);
    var b := ParentContext(t, n, DefaultTypes);
    assert ModuleKinds <= DefaultTypes;
    FirstContextNarrowed(t, Ancestors(t, n), ModuleKinds, DefaultTypes);
    if b.Some? && b.value.kind == "defmodule" {
      assert b.value.kind in ModuleKinds;
    }
  }

  /** The dictionary `_find_calls` appends for a record with a method. */
  function CallEntryOf(t: Tree, s: Slot): CallEntry
    requires WellFormed(t) && s.node < |t| && |s.fields| == |CallLayout.fieldNames|
  {
    var methodName := s.fields[Method].GetOr("");
    CallEntry(
      methodName, FullName(s.fields[Receiver], methodName), LineOf(t, s.node),
      CallArguments(s.fields[CallArgs]), None, ParentContext(t, s.node, DefaultTypes),
      CallClassContext(t, s.node), Lang, false)
  }

  function CallsOf(t: Tree, ks: seq<Slot>): (r: seq<CallEntry>)
    requires WellFormed(t) && Fit(t, ks, CallLayout)
    ensures |r| == |ks|
  {
    if ks == [] then []
    else CallsOf(t, ks[..|ks| - 1]) + [CallEntryOf(t, ks[|ks| - 1])]
  }

  lemma {:induction false} CallsOfAt(t: Tree, ks: seq<Slot>, i: nat)
    requires WellFormed(t) && Fit(t, ks, CallLayout) && i < |ks|
    ensures CallsOf(t, ks)[i] == CallEntryOf(t, ks[i])
  {
    if i < |ks| - 1 {
      CallsOfAt(t, ks[..|ks| - 1], i);
    }
  }

  /** A list that agrees with `CallEntryOf` at every position is `CallsOf`. */
  lemma CallsOfAll(t: Tree, ks: seq<Slot>, xs: seq<CallEntry>)
    requires WellFormed(t) && Fit(t, ks, CallLayout) && |xs| == |ks|
    requires forall i | 0 <= i < |xs| :: xs[i] == CallEntryOf(t, ks[i])
    ensures xs == CallsOf(t, ks)
  {
    forall i | 0 <= i < |xs| ensures xs[i] == CallsOf(t, ks)[i] {
      CallsOfAt(t, ks, i);
    }
  }

  /** The calls `_find_calls` returns for the captures `caps`. */
  function Calls(t: Tree, caps: seq<Capture>): seq<CallEntry>
    requires WellFormed(t) && CapturesIn(t, caps)
  {
    CallsOf(t, Emitted(t, caps, CallLayout, {Method}))
  }

  method CallEntryFor(t: Tree, s: Slot) returns (e: CallEntry)
    requires WellFormed(t) && s.node < |t| && |s.fields| == |CallLayout.fieldNames|
    ensures e == CallEntryOf(t, s)
  {
    var args: seq<string> := [];
    if s.fields[CallArgs].Some? {
      args := ParseArguments(s.fields[CallArgs].value);
    }
    var methodName := s.fields[Method].GetOr("");
    var receiver := s.fields[Receiver];
    var fullName := if receiver.Some? && receiver.value != [] then receiver.value + "." + methodName else methodName;
    var context := GetParentContext(t, s.node, DefaultTypes);
    var classContext := if context.Some? && context.value.kind == "defmodule" then Some(context.value.name) else None;
    if context.Some? && context.value.kind in FunctionKinds {
      var enclosing := GetParentContext(t, s.node, ModuleKinds);
      classContext := ContextName(enclosing);
    }
    e := CallEntry(methodName, fullName, LineOf(t, s.node), args, None, context, classContext, Lang, false);
  }

  /** The emission loop of `_find_calls` over the grouped records. */
  method EmitCalls(t: Tree, slots: seq<Slot>) returns (calls: seq<CallEntry>)
    requires WellFormed(t) && Fit(t, slots, CallLayout)
    ensures Fit(t, Kept(slots, {Method}), CallLayout)
    ensures calls == CallsOf(t, Kept(slots, {Method}))
  {
    KeptFit(t, slots[..0], CallLayout, {Method});
    calls := [];
    var j := 0;
    while j < |slots|
      invariant 0 <= j <= |slots|
      invariant Fit(t, Kept(slots[..j], {Method}), CallLayout)
      invariant |calls| == |Kept(slots[..j], {Method})|
      invariant forall i | 0 <= i < |calls| :: calls[i] == CallEntryOf(t, Kept(slots[..j], {Method})[i])
    {
      KeptPrefix(t, slots, j, CallLayout, {Method});
      assert Keeps(slots[j], {Method}) <==> Truthy(slots[j].fields[Method]);
      if Truthy(slots[j].fields[Method]) {
        var e := CallEntryFor(t, slots[j]);
        calls := calls + [e];
      }
      j := j + 1;
    }
    assert slots[..j] == slots;
    CallsOfAll(t, Kept(slots, {Method}), calls);
  }

  /** `_find_calls`: group the captures, then emit. */
  method FindCalls(t: Tree, caps: seq<Capture>) returns (calls: seq<CallEntry>)
    requires WellFormed(t) && CapturesIn(t, caps)
    ensures calls == Calls(t, caps)
  {
    var slots := Correlate(t, caps, CallLayout);
    assert Fit(t, slots, CallLayout);
    calls := EmitCalls(t, slots);
  }

  /** Each call dictionary comes from one `call_node` node: its name is the
      non-empty text of a `method` capture inside that node, and its full
      name prefixes the receiver exactly when one was captured non-empty. */
  lemma CallsSound(t: Tree, caps: seq<Capture>, j: nat)
    requires WellFormed(t) && CapturesIn(t, caps) && j < |Calls(t, caps)|
    ensures var s := Emitted(t, caps, CallLayout, {Method})[j];
      var e := Calls(t, caps)[j];
      && IsSeeded(caps, {"call_node"}, s.node)
      && e.name != [] && e.lineNumber == LineOf(t, s.node)
      && (exists m | 0 <= m < |caps| ::
            caps[m].name == "method" && Inside(t, caps[m].node, s.node) && e.name == t[caps[m].node].text)
      && (Truthy(s.fields[Receiver]) ==> e.fullName == s.fields[Receiver].value + "." + e.name)
      && (!Truthy(s.fields[Receiver]) ==> e.fullName == e.name)
      && e.inferredObjType.None?
  {
    var ks := Emitted(t, caps, CallLayout, {Method});
    var s := ks[j];
    EmittedSound(t, caps, CallLayout, {Method}, j, Method);
    assert Keeps(s, {Method});
    CallsOfAt(t, ks, j);
    var e := Calls(t, caps)[j];
    assert e.name == s.fields[Method].value;
    assert e.fullName == FullName(s.fields[Receiver], e.name);
  }

  /** The context of each call is the nearest enclosing module or function,
      and its class context is always the nearest enclosing module. */
  lemma CallsContexts(t: Tree, caps: seq<Capture>, j: nat)
    requires WellFormed(t) && CapturesIn(t, caps) && j < |Calls(t, caps)|
    ensures var s := Emitted(t, caps, CallLayout, {Method})[j];
      var e := Calls(t, caps)[j];
      && e.context == ParentContext(t, s.node, DefaultTypes)
      && e.classContext == EnclosingModule(t, s.node)
  {
    var ks := Emitted(t, caps, CallLayout, {Method});
    CallsOfAt(t, ks, j);
    CallClassContextIsModule(t, ks[j].node);
  }

  // ---------------------------------------------------------------- variables

  const VariableLayout := Layout({"module_attr"}, [{"attr_name"}, {"attr_value"}], false)
  const AttrName := 0
  const AttrValue := 1

  datatype VariableEntry = VariableEntry(
    name: string, lineNumber: nat, value: Option<string>, varType: string,
    context: Option<string>, classContext: Option<string>, lang: string, isDependency: bool)

  /** The dictionary `_find_variables` appends for a named attribute. */
  function VariableEntryOf(t: Tree, s: Slot): VariableEntry
    requires WellFormed(t) && s.node < |t| && |s.fields| == |VariableLayout.fieldNames|
  {
    var enclosing := EnclosingModule(t, s.node);
    VariableEntry(
      "@" + s.fields[AttrName].GetOr(""), LineOf(t, s.node), s.fields[AttrValue],
      "module_attribute", enclosing, enclosing, Lang, false)
  }

  function VariablesOf(t: Tree, ks: seq<Slot>): (r: seq<VariableEntry>)
    requires WellFormed(t) && Fit(t, ks, VariableLayout)
    ensures |r| == |ks|
  {
    if ks == [] then []
    else VariablesOf(t, ks[..|ks| - 1]) + [VariableEntryOf(t, ks[|ks| - 1])]
  }

  lemma {:induction false} VariablesOfAt(t: Tree, ks: seq<Slot>, i: nat)
    requires WellFormed(t) && Fit(t, ks, VariableLayout) && i < |ks|
    ensures VariablesOf(t, ks)[i] == VariableEntryOf(t, ks[i])
  {
    if i < |ks| - 1 {
      VariablesOfAt(t, ks[..|ks| - 1], i);
    }
  }

  lemma VariablesOfSnoc(t: Tree, ks: seq<Slot>, s: Slot)
    requires WellFormed(t) && Fit(t, ks + [s], VariableLayout)
    ensures Fit(t, ks, VariableLayout) && s.node < |t| && |s.fields| == |VariableLayout.fieldNames|
    ensures VariablesOf(t, ks + [s]) == VariablesOf(t, ks) + [VariableEntryOf(t, s)]
  {
    assert (ks + [s])[|ks|] == s;
    assert (ks + [s])[..|ks|] == ks;
  }

  /** The module attributes `_find_variables` returns for the captures `caps`. */
  function Variables(t: Tree, caps: seq<Capture>): seq<VariableEntry>
    requires WellFormed(t) && CapturesIn(t, caps)
  {
    VariablesOf(t, Emitted(t, caps, VariableLayout, {AttrName}))
  }

  method VariableEntryFor(t: Tree, s: Slot) returns (e: VariableEntry)
    requires WellFormed(t) && s.node < |t| && |s.fields| == |VariableLayout.fieldNames|
    ensures e == VariableEntryOf(t, s)
  {
    var context := GetParentContext(t, s.node, ModuleKinds);
    var enclosing := ContextName(context);
    e := VariableEntry(
      "@" + s.fields[AttrName].GetOr(""), LineOf(t, s.node), s.fields[AttrValue],
      "module_attribute", enclosing, enclosing, Lang, false);
  }

  /** The emission loop of `_find_variables` over the grouped records. */
  method EmitVariables(t: Tree, slots: seq<Slot>) returns (variables: seq<VariableEntry>)
    requires WellFormed(t) && Fit(t, slots, VariableLayout)
    ensures Fit(t, Kept(slots, {AttrName}), VariableLayout)
    ensures variables == VariablesOf(t, Kept(slots, {AttrName}))
  {
    KeptFit(t, slots[..0], VariableLayout, {AttrName});
    variables := [];
    var j := 0;
    while j < |slots|
      invariant 0 <= j <= |slots|
      invariant Fit(t, Kept(slots[..j], {AttrName}), VariableLayout)
      invariant variables == VariablesOf(t, Kept(slots[..j], {AttrName}))
    {
      KeptPrefix(t, slots, j, VariableLayout, {AttrName});
      ghost var ks := Kept(slots[..j], {AttrName});
      assert Keeps(slots[j], {AttrName}) <==> Truthy(slots[j].fields[AttrName]);
      ghost var ks' := Kept(slots[..j + 1], {AttrName});
      if Truthy(slots[j].fields[AttrName]) {
        var e := VariableEntryFor(t, slots[j]);
        variables := variables + [e];
        assert ks' == ks + [slots[j]];
        VariablesOfSnoc(t, ks, slots[j]);
      } else {
        assert ks' == ks;
      }
      j := j + 1;
    }
    assert slots[..j] == slots;
  }

  /** `_find_variables`: group the captures, then emit. */
  method FindVariables(t: Tree, caps: seq<Capture>) returns (variables: seq<VariableEntry>)
    requires WellFormed(t) && CapturesIn(t, caps)
    ensures variables == Variables(t, caps)
  {
    var slots := Correlate(t, caps, VariableLayout);
    assert Fit(t, slots, VariableLayout);
    variables := EmitVariables(t, slots);
  }

  /** Each module attribute comes from one `module_attr` node: its name is
      `@` followed by the non-empty text of an `attr_name` capture inside the
      node, and both its context and class context are the nearest enclosing
      module. */
  lemma VariablesSound(t: Tree, caps: seq<Capture>, j: nat)
    requires WellFormed(t) && CapturesIn(t, caps) && j < |Variables(t, caps)|
    ensures var s := Emitted(t, caps, VariableLayout, {AttrName})[j];
      var e := Variables(t, caps)[j];
      && IsSeeded(caps, {"module_attr"}, s.node)
      && |e.name| >= 2 && e.name[0] == '@'
      && (exists m | 0 <= m < |caps| ::
            caps[m].name == "attr_name" && Inside(t, caps[m].node, s.node) && e.name == "@" + t[caps[m].node].text)
      && e.varType == "module_attribute"
      && e.context == e.classContext == EnclosingModule(t, s.node)
  {
    var ks := Emitted(t, caps, VariableLayout, {AttrName});
    EmittedSound(t, caps, VariableLayout, {AttrName}, j, AttrName);
    VariablesOfAt(t, ks, j);
    assert Keeps(ks[j], {AttrName});
    var e := Variables(t, caps)[j];
    assert e.name == "@" + ks[j].fields[AttrName].value;
  }

  // ------------------------------------------------------------------- macros

  const MacroLayout := Layout({"macro_def"}, [{"macro_name"}, {"macro_args"}], false)
  const MacroName := 0
  const MacroArgs := 1

  datatype MacroEntry = MacroEntry(
    name: string, lineNumber: nat, endLine: nat, args: seq<string>, context: Option<string>,
    lang: string, isDependency: bool, indexed: Option<Indexed>)

  /** The dictionary `_find_macros` appends for a named record. */
  function MacroEntryOf(t: Tree, s: Slot, indexSource: bool): MacroEntry
    requires WellFormed(t) && s.node < |t| && |s.fields| == |MacroLayout.fieldNames|
  {
    MacroEntry(
      s.fields[MacroName].GetOr(""), LineOf(t, s.node), EndLineOf(t, s.node),
      Arguments(Or(s.fields[MacroArgs], "")), EnclosingModule(t, s.node), Lang, false,
      if indexSource then Some(Indexed(t[s.node].text, Docstring(t, s.node))) else None)
  }

  function MacrosOf(t: Tree, ks: seq<Slot>, indexSource: bool): (r: seq<MacroEntry>)
    requires WellFormed(t) && Fit(t, ks, MacroLayout)
    ensures |r| == |ks|
  {
    if ks == [] then []
    else MacrosOf(t, ks[..|ks| - 1], indexSource) + [MacroEntryOf(t, ks[|ks| - 1], indexSource)]
  }

  lemma {:induction false} MacrosOfAt(t: Tree, ks: seq<Slot>, indexSource: bool, i: nat)
    requires WellFormed(t) && Fit(t, ks, MacroLayout) && i < |ks|
    ensures MacrosOf(t, ks, indexSource)[i] == MacroEntryOf(t, ks[i], indexSource)
  {
    if i < |ks| - 1 {
      MacrosOfAt(t, ks[..|ks| - 1], indexSource, i);
    }
  }

  /** A list that agrees with `MacroEntryOf` at every position is `MacrosOf`. */
  lemma MacrosOfAll(t: Tree, ks: seq<Slot>, indexSource: bool, xs: seq<MacroEntry>)
    requires WellFormed(t) && Fit(t, ks, MacroLayout) && |xs| == |ks|
    requires forall i | 0 <= i < |xs| :: xs[i] == MacroEntryOf(t, ks[i], indexSource)
    ensures xs == MacrosOf(t, ks, indexSource)
  {
    forall i | 0 <= i < |xs| ensures xs[i] == MacrosOf(t, ks, indexSource)[i] {
      MacrosOfAt(t, ks, indexSource, i);
    }
  }

  /** The macros `_find_macros` returns for the captures `caps`. */
  function Macros(t: Tree, caps: seq<Capture>, indexSource: bool): seq<MacroEntry>
    requires WellFormed(t) && CapturesIn(t, caps)
  {
    MacrosOf(t, Emitted(t, caps, MacroLayout, {MacroName}), indexSource)
  }

  method MacroEntryFor(t: Tree, s: Slot, indexSource: bool) returns (e: MacroEntry)
    requires WellFormed(t) && s.node < |t| && |s.fields| == |MacroLayout.fieldNames|
    ensures e == MacroEntryOf(t, s, indexSource)
  {
    var args := ParseArguments(Or(s.fields[MacroArgs], ""));
    var context := GetParentContext(t, s.node, ModuleKinds);
    var docstring := GetDocstring(t, s.node);
    var indexed := if indexSource then Some(Indexed(t[s.node].text, docstring)) else None;
    e := MacroEntry(
      s.fields[MacroName].GetOr(""), LineOf(t, s.node), EndLineOf(t, s.node), args,
      ContextName(context), Lang, false, indexed);
  }

  /** The emission loop of `_find_macros` over the grouped records. */
  method EmitMacros(t: Tree, slots: seq<Slot>, indexSource: bool) returns (macros: seq<MacroEntry>)
    requires WellFormed(t) && Fit(t, slots, MacroLayout)
    ensures Fit(t, Kept(slots, {MacroName}), MacroLayout)
    ensures macros == MacrosOf(t, Kept(slots, {MacroName}), indexSource)
  {
    KeptFit(t, slots[..0], MacroLayout, {MacroName});
    macros := [];
    var j := 0;
    while j < |slots|
      invariant 0 <= j <= |slots|
      invariant Fit(t, Kept(slots[..j], {MacroName}), MacroLayout)
      invariant |macros| == |Kept(slots[..j], {MacroName})|
      invariant forall i | 0 <= i < |macros| ::
        macros[i] == MacroEntryOf(t, Kept(slots[..j], {MacroName})[i], indexSource)
    {
      KeptPrefix(t, slots, j, MacroLayout, {MacroName});
      assert Keeps(slots[j], {MacroName}) <==> Truthy(slots[j].fields[MacroName]);
      if Truthy(slots[j].fields[MacroName]) {
        var e := MacroEntryFor(t, slots[j], indexSource);
        macros := macros + [e];
      }
      j := j + 1;
    }
    assert slots[..j] == slots;
    MacrosOfAll(t, Kept(slots, {MacroName}), indexSource, macros);
  }

  /** `_find_macros`: group the captures, then emit. */
  method FindMacros(t: Tree, caps: seq<Capture>, indexSource: bool) returns (macros: seq<MacroEntry>)
    requires WellFormed(t) && CapturesIn(t, caps)
    ensures macros == Macros(t, caps, indexSource)
  {
    var slots := Correlate(t, caps, MacroLayout);
    assert Fit(t, slots, MacroLayout);
    macros := EmitMacros(t, slots, indexSource);
  }

  /** Each macro dictionary comes from one `macro_def` node: its name is the
      non-empty text of a `macro_name` capture inside that node, its context
      is the nearest enclosing module, and its arguments are the parsed
      argument text (none when no argument text was captured). */
  lemma MacrosSound(t: Tree, caps: seq<Capture>, indexSource: bool, j: nat)
    requires WellFormed(t) && CapturesIn(t, caps) && j < |Macros(t, caps, indexSource)|
    ensures var s := Emitted(t, caps, MacroLayout, {MacroName})[j];
      var e := Macros(t, caps, indexSource)[j];
      && IsSeeded(caps, {"macro_def"}, s.node)
      && e.name != [] && e.lineNumber == LineOf(t, s.node) && e.endLine == EndLineOf(t, s.node)
      && (exists m | 0 <= m < |caps| ::
            caps[m].name == "macro_name" && Inside(t, caps[m].node, s.node) && e.name == t[caps[m].node].text)
      && e.context == EnclosingModule(t, s.node)
      && (s.fields[MacroArgs].None? ==> e.args == [])
      && (e.indexed.Some? <==> indexSource)
  {
    var ks := Emitted(t, caps, MacroLayout, {MacroName});
    var s := ks[j];
    EmittedSound(t, caps, MacroLayout, {MacroName}, j, MacroName);
    assert Keeps(s, {MacroName});
    MacrosOfAt(t, ks, indexSource, j);
    var e := Macros(t, caps, indexSource)[j];
    assert e.name == s.fields[MacroName].value;
    assert e.args == Arguments(Or(s.fields[MacroArgs], ""));
  }
}
