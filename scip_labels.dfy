/**
 * The pure part of the SCIP linker: the fixed SCIP-kind-to-label table, the
 * fallback that infers a label from the syntax of a SCIP symbol string, the
 * display name of a symbol, and the configuration that decides whether SCIP
 * is used for a language at all.
 */
module ScipLabels {
  import opened Wrappers
  import opened Strings

  /** A `SymbolInformation` entry of a SCIP index: the fields the linker reads.
      An absent `display_name` is the protobuf default, the empty string. */
  datatype SymbolInformation = SymbolInformation(symbol: string, kind: int, displayName: string)

  // The SCIP `Kind` enum values the linker knows about.
  const ClassKind := 7
  const MethodKind := 26
  const FunctionKind := 17
  const VariableKind := 61
  const InterfaceKind := 21
  const ConstructorKind := 9
  const StructKind := 49
  const EnumKind := 11
  const PackageKind := 43
  const ModuleKind := 38
  const NamespaceKind := 31

  /** The graph label for each known SCIP kind; 0 (unspecified) is the generic
      "Symbol". */
  const KindToLabel: map<int, string> :=
    map[0 := "Symbol", ClassKind := "Class", MethodKind := "Function", FunctionKind := "Function",
        VariableKind := "Variable", InterfaceKind := "Interface", ConstructorKind := "Function",
        StructKind := "Struct", EnumKind := "Enum", PackageKind := "Module", ModuleKind := "Module",
        NamespaceKind := "Module"]

  /** The four labels the symbol-syntax fallback can produce. */
  const InferredLabels: set<string> := {"Function", "Class", "Module", "Symbol"}

  /** Every label a SCIP node can be given. */
  const AllLabels: set<string> :=
    {"Symbol", "Class", "Function", "Variable", "Interface", "Struct", "Enum", "Module"}

  /** No SCIP label is the file label, so a definition node is never taken
      for a file node. */
  lemma NotFileLabel(l: string)
    requires l in AllLabels
    ensures l != "File"
  {
    assert "File"[0] == 'F';
  }

  /** Whether any of the symbol-syntax rules fires for `symbol`. */
  predicate HasSyntaxHint(symbol: string) {
    || EndsWith(symbol, ").") || EndsWith(symbol, "()")
    || EndsWith(symbol, "#") || EndsWith(symbol, "/")
    || (Contains(symbol, "package") && Contains(symbol, "module"))
  }

  /** The label suggested by the syntax of a SCIP symbol: a method or function
      descriptor ends in `).` or `()`, a type in `#`, a namespace in `/`; a
      symbol mentioning both "package" and "module" is a module. The rules are
      tried in that order and "Symbol" means none applied. */
  function InferLabel(symbol: string): (r: string)
    ensures r in InferredLabels
    ensures r == "Symbol" <==> !HasSyntaxHint(symbol)
    ensures (EndsWith(symbol, ").") || EndsWith(symbol, "()")) ==> r == "Function"
  {
    if EndsWith(symbol, ").") || EndsWith(symbol, "()") then "Function"
    else if EndsWith(symbol, "#") then "Class"
    else if EndsWith(symbol, "/") then "Module"
    else if Contains(symbol, "package") && Contains(symbol, "module") then "Module"
    else "Symbol"
  }

  /** The suffix rules decide the label whatever precedes the suffix. */
  lemma InferBySuffix(p: string)
    ensures InferLabel(p + ").") == "Function" && InferLabel(p + "()") == "Function"
    ensures InferLabel(p + "#") == "Class"
    ensures InferLabel(p + "/") == "Module"
  {
    assert (p + ").")[|p + ")."| - 2..] == ").";
    assert (p + "()")[|p + "()"| - 2..] == "()";
    assert (p + "#")[|p + "#"| - 1..] == "#";
    assert (p + "/")[|p + "/"| - 1..] == "/";
    assert !EndsWith(p + "#", ").") && !EndsWith(p + "#", "()") by {
      assert (p + "#")[|p + "#"| - 1] == '#';
    }
    assert !EndsWith(p + "/", ").") && !EndsWith(p + "/", "()") && !EndsWith(p + "/", "#") by {
      assert (p + "/")[|p + "/"| - 1] == '/';
    }
  }

  /** A symbol mentioning both "package" and "module" is a module unless a
      suffix rule, which is tried first, says otherwise. */
  lemma InferPackageModule(symbol: string)
    requires Contains(symbol, "package") && Contains(symbol, "module")
    ensures InferLabel(symbol) in {"Function", "Class", "Module"}
    ensures !EndsWith(symbol, ").") && !EndsWith(symbol, "()") && !EndsWith(symbol, "#")
      ==> InferLabel(symbol) == "Module"
  {
  }

  /** `sym_info.kind if sym_info else 0`. */
  function KindOf(info: Option<SymbolInformation>): int {
    if info.Some? then info.value.kind else 0
  }

  /** `KIND_TO_LABEL.get(kind)`. */
  function TableLabel(kind: int): (r: Option<string>)
    ensures r.Some? ==> r.value in AllLabels
  {
    if kind in KindToLabel then Some(KindToLabel[kind]) else None
  }

  /** A definition's label from its table label and the inferred one: the
      inferred label replaces a missing or generic table label unless it is
      generic itself; "Symbol" when nothing is left. */
  function ChooseDefinitionLabel(fromTable: Option<string>, inferred: string): string {
    var chosen :=
      if fromTable.None? || fromTable.value == "Symbol" then
        if inferred != "Symbol" then Some(inferred) else fromTable
      else fromTable;
    if chosen.None? || chosen.value == "" then "Symbol" else chosen.value
  }

  /** A target's label from its table label (default "Symbol") and the
      inferred one, which replaces a generic table label unless it is
      generic itself. */
  function ChooseTargetLabel(fromTable: string, inferred: string): string {
    if fromTable == "Symbol" && inferred != "Symbol" then inferred else fromTable
  }

  /** The label a definition node gets. */
  function DefinitionLabel(info: Option<SymbolInformation>, symbol: string): (r: string)
    ensures r != ""
    ensures r in AllLabels
  {
    ChooseDefinitionLabel(TableLabel(KindOf(info)), InferLabel(symbol))
  }

  /** The label a reference's target gets. */
  function TargetLabel(info: Option<SymbolInformation>, symbol: string): (r: string)
    ensures r in AllLabels
  {
    var fromTable := TableLabel(KindOf(info));
    ChooseTargetLabel(if fromTable.Some? then fromTable.value else "Symbol", InferLabel(symbol))
  }

  /** Both choices come down to one rule for labels that are never empty: a
      specific table label wins, and otherwise the inferred one. */
  lemma ChoiceRule(fromTable: Option<string>, inferred: string)
    requires inferred != "" && (fromTable.Some? ==> fromTable.value != "")
    ensures ChooseDefinitionLabel(fromTable, inferred)
         == if fromTable.Some? && fromTable.value != "Symbol" then fromTable.value else inferred
    ensures ChooseTargetLabel(if fromTable.Some? then fromTable.value else "Symbol", inferred)
         == ChooseDefinitionLabel(fromTable, inferred)
  {
  }

  /** The definition label comes down to one rule: a specific table label
      wins, and otherwise the symbol syntax decides. */
  lemma LabelRule(info: Option<SymbolInformation>, symbol: string)
    ensures var kind := KindOf(info);
      DefinitionLabel(info, symbol) ==
        if kind in KindToLabel && KindToLabel[kind] != "Symbol" then KindToLabel[kind]
        else InferLabel(symbol)
  {
    ChoiceRule(TableLabel(KindOf(info)), InferLabel(symbol));
  }

  /** A reference's target is labelled by the same rule as a definition, so a
      symbol referenced in one document and defined in another is merged
      under the same label. */
  lemma TargetLabelRule(info: Option<SymbolInformation>, symbol: string)
    ensures TargetLabel(info, symbol) == DefinitionLabel(info, symbol)
  {
    ChoiceRule(TableLabel(KindOf(info)), InferLabel(symbol));
  }

  /** Methods, functions and constructors become Function nodes; packages,
      modules and namespaces become Module nodes, whatever the symbol says. */
  lemma KindFamilies(info: SymbolInformation)
    ensures info.kind in {MethodKind, FunctionKind, ConstructorKind} ==>
      DefinitionLabel(Some(info), info.symbol) == "Function"
    ensures info.kind in {PackageKind, ModuleKind, NamespaceKind} ==>
      DefinitionLabel(Some(info), info.symbol) == "Module"
  {
    LabelRule(Some(info), info.symbol);
  }

  /** `symbol.replace('.', '/').replace('#', '/').replace('()', '')`. */
  function CleanSymbol(symbol: string): (r: string)
    ensures '.' !in r && '#' !in r
    ensures symbol == [] ==> r == []
  {
    var slashed := ReplaceChar(ReplaceChar(symbol, '.', '/'), '#', '/');
    ReplaceAllChars(slashed, "()", "");
    ReplaceAll(slashed, "()", "")
  }

  /** `ReplaceAll` only introduces characters of the replacement. */
  lemma ReplaceAllChars(s: string, pat: string, rep: string)
    requires pat != []
    ensures forall c | c in ReplaceAll(s, pat, rep) :: c in s || c in rep
    ensures s == [] ==> ReplaceAll(s, pat, rep) == []
    decreases |s|
  {
    if |s| < |pat| {
    } else if s[..|pat|] == pat {
      ReplaceAllChars(s[|pat|..], pat, rep);
      forall c | c in s[|pat|..] ensures c in s {
      }
    } else {
      ReplaceAllChars(s[1..], pat, rep);
      forall c | c in s[1..] ensures c in s {
      }
    }
  }

  /** The non-empty `/`-separated pieces of the cleaned symbol. */
  function Segments(symbol: string): seq<string> {
    NonEmpty(Split(CleanSymbol(symbol), '/'))
  }

  /** Whether the symbol information carries a usable display name. */
  predicate HasDisplayName(info: Option<SymbolInformation>) {
    info.Some? && info.value.displayName != ""
  }

  /** The human-readable name of a symbol: its non-empty display name if it
      has one, else the last non-empty descriptor of the symbol, else the
      symbol itself. */
  function ExtractName(symbol: string, info: Option<SymbolInformation>): (r: string)
    ensures r == [] <==> symbol == [] && !HasDisplayName(info)
    ensures HasDisplayName(info) ==> r == info.value.displayName
  {
    if HasDisplayName(info) then info.value.displayName
    else
      var parts := Segments(symbol);
      NonEmptyMembers(Split(CleanSymbol(symbol), '/'));
      if parts != [] then
        assert parts[|parts| - 1] in parts;
        parts[|parts| - 1]
      else symbol
  }

  /** `xs[j]` is non-empty and only empty strings follow it. */
  predicate LastPiece(xs: seq<string>, j: int) {
    0 <= j < |xs| && xs[j] != [] && forall k | j < k < |xs| :: xs[k] == []
  }

  /** The last element of `NonEmpty(xs)` is an element of `xs` followed only
      by empty strings. */
  lemma {:induction false} LastNonEmpty(xs: seq<string>)
    requires NonEmpty(xs) != []
    ensures exists j :: LastPiece(xs, j) && xs[j] == NonEmpty(xs)[|NonEmpty(xs)| - 1]
  {
    var front := xs[..|xs| - 1];
    var x := xs[|xs| - 1];
    if x == [] {
      assert NonEmpty(xs) == NonEmpty(front);
      LastNonEmpty(front);
      var j :| LastPiece(front, j) && front[j] == NonEmpty(front)[|NonEmpty(front)| - 1];
      assert LastPiece(xs, j);
    } else {
      assert LastPiece(xs, |xs| - 1);
    }
  }

  /** Without a display name, the name is a whole descriptor of the symbol:
      a piece between separators (`/`, and `.` and `#` read as `/`) with only
      empty pieces after it, so it holds no separator; only a symbol with no
      non-empty piece at all is returned unchanged. */
  lemma ExtractNameSegment(symbol: string, info: Option<SymbolInformation>)
    requires !HasDisplayName(info)
    ensures var pieces := Split(CleanSymbol(symbol), '/');
      var r := ExtractName(symbol, info);
      || (r == symbol && forall k | 0 <= k < |pieces| :: pieces[k] == [])
      || (&& '/' !in r && '.' !in r && '#' !in r && r != []
          && exists j | 0 <= j < |pieces| :: pieces[j] == r && forall k | j < k < |pieces| :: pieces[k] == [])
  {
    var pieces := Split(CleanSymbol(symbol), '/');
    NonEmptyMembers(pieces);
    if Segments(symbol) != [] {
      LastNonEmpty(pieces);
      var j :| LastPiece(pieces, j) && pieces[j] == ExtractName(symbol, info);
      var clean := CleanSymbol(symbol);
      assert forall c | c in pieces[j] :: c in clean by {
        SplitPieceChars(clean, '/', j);
      }
    } else {
      forall k | 0 <= k < |pieces| ensures pieces[k] == [] {
        assert pieces[k] in pieces;
      }
    }
  }

  /** Every character of a piece of `s.split(sep)` is a character of `s`. */
  lemma SplitPieceChars(s: string, sep: char, j: nat)
    requires j < |Split(s, sep)|
    ensures forall c | c in Split(s, sep)[j] :: c in s
  {
    var pieces := Split(s, sep);
    forall c | c in pieces[j] ensures c in s {
      JoinChars(pieces, sep, j, c);
    }
  }

  /** A character of one of the joined pieces occurs in the joined string. */
  lemma {:induction false} JoinChars(parts: seq<string>, sep: char, j: nat, c: char)
    requires j < |parts| && c in parts[j]
    ensures c in Join(parts, sep)
  {
    if |parts| == 1 {
    } else if j == |parts| - 1 {
      assert Join(parts, sep) == Join(parts[..|parts| - 1], sep) + [sep] + parts[|parts| - 1];
    } else {
      var front := parts[..|parts| - 1];
      assert front[j] == parts[j];
      JoinChars(front, sep, j, c);
      assert Join(parts, sep) == Join(front, sep) + [sep] + parts[|parts| - 1];
    }
  }

  /** The configuration read when the indexer is created: the indexing method
      and the languages SCIP is enabled for. */
  datatype Config = Config(indexingMethod: string, enabledLangs: seq<string>) {

    /** SCIP is used for `lang` only when the method is "auto" or "scip" and
        the language is enabled. */
    function ShouldUseScip(lang: string): (r: bool)
      ensures r <==> indexingMethod in {"auto", "scip"} && lang in enabledLangs
    {
      if indexingMethod == "auto" then lang in enabledLangs
      else if indexingMethod == "scip" then lang in enabledLangs
      else false
    }
  }

  /** The indexer's configuration from the two settings, each of which may be
      unset (or empty, which counts the same): the method defaults to
      "tree-sitter" and the language list to "python"; the list is split at
      commas and each entry stripped. */
  function Configure(methodSetting: Option<string>, langsSetting: Option<string>): (c: Config)
    ensures forall k | 0 <= k < |c.enabledLangs| :: IsTrimmed(c.enabledLangs[k])
    ensures methodSetting.None? || methodSetting == Some("") ==> c.indexingMethod == "tree-sitter"
    ensures methodSetting.Some? && methodSetting.value != "" ==> c.indexingMethod == methodSetting.value
    ensures var langs := if langsSetting.Some? && langsSetting.value != "" then langsSetting.value else "python";
      && |c.enabledLangs| == |Split(langs, ',')|
      && forall k | 0 <= k < |c.enabledLangs| :: c.enabledLangs[k] == Trim(Split(langs, ',')[k])
  {
    var indexingMethod := if methodSetting.Some? && methodSetting.value != "" then methodSetting.value else "tree-sitter";
    var langs := if langsSetting.Some? && langsSetting.value != "" then langsSetting.value else "python";
    Config(indexingMethod, Languages(langs))
  }

  /** `[l.strip() for l in langs.split(',')]`. */
  function Languages(langs: string): (r: seq<string>)
    ensures |r| == |Split(langs, ',')|
    ensures forall k | 0 <= k < |r| :: r[k] == Trim(Split(langs, ',')[k]) && IsTrimmed(r[k])
  {
    var pieces := Split(langs, ',');
    var enabled := seq(|pieces|, k requires 0 <= k < |pieces| => Trim(pieces[k]));
    assert forall k | 0 <= k < |enabled| :: IsTrimmed(enabled[k]) by {
      forall k | 0 <= k < |enabled| ensures IsTrimmed(enabled[k]) {
        TrimTrimmed(pieces[k]);
      }
    }
    enabled
  }

  /** The default language list needs no stripping. */
  lemma TrimPython()
    ensures Trim("python") == "python"
  {
    TrimmedFixed("python");
  }

  /** With the language list unset, Python is the one enabled language. */
  lemma DefaultLanguages(methodSetting: Option<string>)
    ensures Configure(methodSetting, None).enabledLangs == ["python"]
  {
    SplitSingle("python", ',');
    TrimPython();
    var langs := Configure(methodSetting, None).enabledLangs;
    assert |langs| == 1 && langs[0] == Trim("python");
    assert langs == ["python"];
  }

  /** A single language named without commas or outer whitespace is the one
      enabled language, and SCIP is used for it exactly when the method is
      "auto" or "scip". */
  lemma ConfigureSingleLanguage(methodSetting: Option<string>, lang: string)
    requires lang != "" && ',' !in lang && IsTrimmed(lang)
    ensures Configure(methodSetting, Some(lang)).enabledLangs == [lang]
    ensures Configure(methodSetting, Some(lang)).ShouldUseScip(lang) <==>
      methodSetting.Some? && methodSetting.value in {"auto", "scip"}
  {
    SplitSingle(lang, ',');
    TrimmedFixed(lang);
    var langs := Configure(methodSetting, Some(lang)).enabledLangs;
    assert |langs| == 1 && langs[0] == Trim(lang);
    assert langs == [lang];
  }

  /** With the method left unset nothing is indexed through SCIP, whatever the
      language list says; with SCIP forced or "auto" and the list unset,
      Python is. */
  lemma ConfigureDefaults(langsSetting: Option<string>, lang: string)
    ensures !Configure(None, langsSetting).ShouldUseScip(lang)
    ensures Configure(Some("scip"), None).ShouldUseScip("python")
    ensures Configure(Some("auto"), None).ShouldUseScip("python")
  {
    DefaultLanguages(Some("scip"));
    DefaultLanguages(Some("auto"));
  }

  /** A string without the separator splits into itself alone. */
  lemma {:induction false} SplitSingle(s: string, sep: char)
    requires sep !in s
    ensures Split(s, sep) == [s]
  {
    if s != [] {
      SplitSingle(s[..|s| - 1], sep);
      assert s == s[..|s| - 1] + [s[|s| - 1]];
    }
  }
}
