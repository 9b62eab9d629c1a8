/**
 * The HEEx template extractor: component, tag and slot usages named by the
 * name node under their opening node, EEx directives named by their trimmed
 * text, module-qualified component names reported once each as imports, and
 * the nearest enclosing component or tag of a node.
 */
module Heex {
  import opened Wrappers
  import opened Strings
  import opened SyntaxTree

  const Lang := "heex"

  /** The default `types` of `_get_parent_context`. */
  const DefaultTypes: set<string> := {"component", "tag"}

  /** The opening nodes of a component. */
  const ComponentStarts: set<string> := {"start_component", "self_closing_component"}

  // ---------------------------------------------------------------------
  // _get_parent_context
  // ---------------------------------------------------------------------

  /** The kind of name node a child of a candidate ancestor is searched for:
      a component name under a component's opening node, a tag name under a
      start tag, nothing under any other child. */
  function NameKind(kind: string): Option<string> {
    if kind in ComponentStarts then Some("component_name")
    else if kind == "start_tag" then Some("tag_name")
    else None
  }

  /** The name child `ch` offers: the text of its first child of the kind
      `NameKind` asks for. */
  function OfferedName(t: Tree, ch: nat): Option<string>
    requires WellFormed(t) && ch < |t|
  {
    match NameKind(t[ch].kind)
    case None => None
    case Some(k) =>
      match FirstChildOfKind(t, ch, {k})
      case None => None
      case Some(g) => Some(t[g].text)
  }

  /** The name offered by the first of `cs` that offers one: a child whose
      opening node lacks a name node does not stop the search. */
  function FirstOffered(t: Tree, cs: seq<nat>): Option<string>
    requires WellFormed(t) && forall k | 0 <= k < |cs| :: cs[k] < |t|
  {
    if cs == [] then None
    else if OfferedName(t, cs[0]).Some? then OfferedName(t, cs[0])
    else FirstOffered(t, cs[1..])
  }

  /** `FirstOffered` finds nothing exactly when no child offers a name, and
      otherwise the name of the first child that offers one. */
  lemma {:induction false} FirstOfferedFirst(t: Tree, cs: seq<nat>)
    requires WellFormed(t) && forall k | 0 <= k < |cs| :: cs[k] < |t|
    ensures var r := FirstOffered(t, cs);
      && (r.None? <==> forall k | 0 <= k < |cs| :: OfferedName(t, cs[k]).None?)
      && (r.Some? ==> exists k | 0 <= k < |cs| :: r == OfferedName(t, cs[k])
                        && forall j | 0 <= j < k :: OfferedName(t, cs[j]).None?)
  {
    if cs != [] && OfferedName(t, cs[0]).None? {
      var tail := cs[1..];
      FirstOfferedFirst(t, tail);
      var r := FirstOffered(t, tail);
      if r.Some? {
        var k :| 0 <= k < |tail| && r == OfferedName(t, tail[k])
                  && forall j | 0 <= j < k :: OfferedName(t, tail[j]).None?;
        assert tail[k] == cs[k + 1];
        assert forall j | 0 <= j < k + 1 :: OfferedName(t, cs[j]).None? by {
          forall j | 0 <= j < k + 1 ensures OfferedName(t, cs[j]).None? {
            if j > 0 { assert cs[j] == tail[j - 1]; }
          }
        }
      } else {
        forall k | 0 <= k < |cs| ensures OfferedName(t, cs[k]).None? {
          if k > 0 { assert cs[k] == tail[k - 1]; }
        }
      }
    }
  }

  /** The name the children of node `a` offer, first child first. */
  function NameFrom(t: Tree, a: nat): Option<string>
    requires WellFormed(t) && a < |t|
  {
    assert LinksOk(t, a);
    FirstOffered(t, t[a].children)
  }

  /** The context node `a` provides: when its kind is one of `types` and one
      of its children offers a name, that name, `a`'s kind and `a`'s line. */
  function ContextAt(t: Tree, a: nat, types: set<string>): Option<Context>
    requires WellFormed(t) && a < |t|
  {
    var name := NameFrom(t, a);
    if t[a].kind in types && name.Some? then Some(Context(name.value, t[a].kind, LineOf(t, a))) else None
  }

  /** The context provided by the first of `ns` that provides one. */
  function FirstContext(t: Tree, ns: seq<nat>, types: set<string>): (r: Option<Context>)
    requires WellFormed(t) && forall k | 0 <= k < |ns| :: ns[k] < |t|
    ensures r.Some? ==> r.value.kind in types
  {
    if ns == [] then None
    else if ContextAt(t, ns[0], types).Some? then ContextAt(t, ns[0], types)
    else FirstContext(t, ns[1..], types)
  }

  /** `FirstContext` finds nothing exactly when no node of `ns` provides a
      context, and otherwise the context of the first node that does. */
  lemma {:induction false} FirstContextFirst(t: Tree, ns: seq<nat>, types: set<string>)
    requires WellFormed(t) && forall k | 0 <= k < |ns| :: ns[k] < |t|
    ensures var r := FirstContext(t, ns, types);
      && (r.None? <==> forall k | 0 <= k < |ns| :: ContextAt(t, ns[k], types).None?)
      && (r.Some? ==> exists k | 0 <= k < |ns| :: r == ContextAt(t, ns[k], types)
                        && forall j | 0 <= j < k :: ContextAt(t, ns[j], types).None?)
  {
    if ns != [] && ContextAt(t, ns[0], types).None? {
      var tail := ns[1..];
      FirstContextFirst(t, tail, types);
      var r := FirstContext(t, tail, types);
      if r.Some? {
        var k :| 0 <= k < |tail| && r == ContextAt(t, tail[k], types)
                  && forall j | 0 <= j < k :: ContextAt(t, tail[j], types).None?;
        assert tail[k] == ns[k + 1];
        assert forall j | 0 <= j < k + 1 :: ContextAt(t, ns[j], types).None? by {
          forall j | 0 <= j < k + 1 ensures ContextAt(t, ns[j], types).None? {
            if j > 0 { assert ns[j] == tail[j - 1]; }
          }
        }
      } else {
        forall k | 0 <= k < |ns| ensures ContextAt(t, ns[k], types).None? {
          if k > 0 { assert ns[k] == tail[k - 1]; }
        }
      }
    }
  }

  /** `_get_parent_context(node, types)`: the context of the nearest strict
      ancestor that provides one; None stands for `(None, None, None)`. */
  function ParentContext(t: Tree, n: nat, types: set<string>): Option<Context>
    requires WellFormed(t) && n < |t|
  {
    FirstContext(t, Ancestors(t, n), types)
  }

  /** The parent context comes from a strict ancestor of one of `types` that
      provides it, with every nearer ancestor providing none; and there is
      none exactly when no ancestor provides one. */
  lemma ParentContextNearest(t: Tree, n: nat, types: set<string>)
    requires WellFormed(t) && n < |t|
    ensures var ancs := Ancestors(t, n); var r := ParentContext(t, n, types);
      && (r.None? <==> forall k | 0 <= k < |ancs| :: ContextAt(t, ancs[k], types).None?)
      && (r.Some? ==> r.value.kind in types
                      && exists k | 0 <= k < |ancs| :: r == ContextAt(t, ancs[k], types)
                           && forall j | 0 <= j < k :: ContextAt(t, ancs[j], types).None?)
  {
    FirstContextFirst(t, Ancestors(t, n), types);
  }

  /** The loops over the children of one ancestor and over each child's
      children. */
  method NameAmongChildren(t: Tree, a: nat) returns (r: Option<string>)
    requires WellFormed(t) && a < |t|
    ensures r == NameFrom(t, a)
  {
    assert LinksOk(t, a);
    var cs := t[a].children;
    var i := 0;
    while i < |cs|
      invariant 0 <= i <= |cs|
      invariant FirstOffered(t, cs) == FirstOffered(t, cs[i..])
    {
      var ch := cs[i];
      var nk := NameKind(t[ch].kind);
      if nk.Some? {
        var g := FindFirstChild(t, ch, {nk.value});
        if g.Some? {
          return Some(t[g.value].text);
        }
      }
      assert cs[i..][1..] == cs[i + 1..];
      i := i + 1;
    }
    return None;
  }

  /** The `while curr:` loop of `_get_parent_context`. */
  method GetParentContext(t: Tree, n: nat, types: set<string>) returns (r: Option<Context>)
    requires WellFormed(t) && n < |t|
    ensures r == ParentContext(t, n, types)
  {
    assert LinksOk(t, n);
    var curr: Option<nat> := t[n].parent;
    while curr.Some?
      invariant curr.Some? ==> curr.value < |t|
      invariant ParentContext(t, n, types) == FirstContext(t, Chain(t, curr, Parent), types)
      decreases if curr.Some? then curr.value + 1 else 0
    {
      var a := curr.value;
      if t[a].kind in types {
        var name := NameAmongChildren(t, a);
        if name.Some? {
          return Some(Context(name.value, t[a].kind, t[a].startRow + 1));
        }
      }
      assert LinksOk(t, a);
      ghost var rest := Chain(t, curr, Parent);
      assert rest[1..] == Chain(t, t[a].parent, Parent);
      curr := t[a].parent;
    }
    return None;
  }

  // ---------------------------------------------------------------------
  // _find_components, _find_tags, _find_slots
  // ---------------------------------------------------------------------

  /** A record of a component, tag or slot usage; `source` is present only
      when the source is indexed. */
  datatype Element = Element(
    name: string,
    lineNumber: nat,
    endLine: nat,
    lang: string,
    isDependency: bool,
    source: Option<string>)

  /** What one of the three finders looks for: its capture name, the kinds
      of opening node and the kind of name node under it. */
  datatype Finder = Finder(capName: string, starts: set<string>, nameKind: string)

  const Components := Finder("component", ComponentStarts, "component_name")
  const Tags := Finder("tag", {"start_tag"}, "tag_name")
  const Slots := Finder("slot", {"start_slot"}, "slot_name")

  /** The name read under node `n`: the text of the first name node under the
      FIRST opening child; a later opening child is never looked at. */
  function ElementName(t: Tree, n: nat, f: Finder): Option<string>
    requires WellFormed(t) && n < |t|
  {
    match FirstChildOfKind(t, n, f.starts)
    case None => None
    case Some(ch) =>
      match FirstChildOfKind(t, ch, {f.nameKind})
      case None => None
      case Some(g) => Some(t[g].text)
  }

  /** `cs[k]` is the first node of `cs` whose kind is in `kinds`. */
  predicate FirstAt(t: Tree, cs: seq<nat>, k: nat, kinds: set<string>) {
    && k < |cs| && cs[k] < |t| && t[cs[k]].kind in kinds
    && forall j | 0 <= j < k :: cs[j] < |t| && t[cs[j]].kind !in kinds
  }

  /** A name comes from the first child of `n` of an opening kind and is the
      text of that child's first child of the name kind; no other opening
      child is looked at. */
  lemma ElementNameFromFirstStart(t: Tree, n: nat, f: Finder)
    requires WellFormed(t) && n < |t|
    ensures ElementName(t, n, f).Some? ==>
      exists k: nat, m: nat :: FirstAt(t, t[n].children, k, f.starts)
        && FirstAt(t, t[t[n].children[k]].children, m, {f.nameKind})
        && ElementName(t, n, f) == Some(t[t[t[n].children[k]].children[m]].text)
  {
    assert LinksOk(t, n);
    var first := FirstChildOfKind(t, n, f.starts);
    if first.Some? {
      var ch := first.value;
      assert LinksOk(t, ch);
      var g := FirstChildOfKind(t, ch, {f.nameKind});
      if g.Some? {
        var k :| 0 <= k < |t[n].children| && t[n].children[k] == ch && t[ch].kind in f.starts
                   && forall j | 0 <= j < k :: t[t[n].children[j]].kind !in f.starts;
        var m :| 0 <= m < |t[ch].children| && t[ch].children[m] == g.value && t[g.value].kind in {f.nameKind}
                   && forall j | 0 <= j < m :: t[t[ch].children[j]].kind !in {f.nameKind};
        assert FirstAt(t, t[n].children, k, f.starts);
        assert FirstAt(t, t[ch].children, m, {f.nameKind});
      }
    }
  }

  /** The capture is one of the finder's and yields a non-empty name: the
      `if cap == ...` and `if comp_name:` tests. */
  predicate Qualifies(t: Tree, c: Capture, f: Finder)
    requires WellFormed(t) && c.node < |t|
  {
    c.name == f.capName && ElementName(t, c.node, f).Some? && ElementName(t, c.node, f).value != []
  }

  /** The record for a qualifying capture of node `n`. */
  function ElementFor(t: Tree, n: nat, f: Finder, indexSource: bool): Element
    requires WellFormed(t) && n < |t|
    requires ElementName(t, n, f).Some?
  {
    Element(ElementName(t, n, f).value, LineOf(t, n), EndLineOf(t, n), Lang, false,
            if indexSource then Some(t[n].text) else None)
  }

  /** The qualifying captures among the first `k`, in order. */
  function Selected(t: Tree, caps: seq<Capture>, k: nat, f: Finder): seq<Capture>
    requires WellFormed(t) && CapturesIn(t, caps) && k <= |caps|
  {
    if k == 0 then []
    else Selected(t, caps, k - 1, f) + if Qualifies(t, caps[k - 1], f) then [caps[k - 1]] else []
  }

  /** The records for the first `k` captures. */
  function ElementsUpTo(t: Tree, caps: seq<Capture>, k: nat, f: Finder, indexSource: bool): seq<Element>
    requires WellFormed(t) && CapturesIn(t, caps) && k <= |caps|
  {
    if k == 0 then []
    else
      var c := caps[k - 1];
      ElementsUpTo(t, caps, k - 1, f, indexSource) + if Qualifies(t, c, f) then [ElementFor(t, c.node, f, indexSource)] else []
  }

  /** What `_find_components`, `_find_tags` or `_find_slots` returns. */
  function Elements(t: Tree, caps: seq<Capture>, f: Finder, indexSource: bool): seq<Element>
    requires WellFormed(t) && CapturesIn(t, caps)
  {
    ElementsUpTo(t, caps, |caps|, f, indexSource)
  }

  /** The record describes the capture: the name found under its node, its
      node's 1-based first and last lines, the language, not a dependency,
      and the node's text exactly when the source is indexed. */
  predicate Describes(t: Tree, e: Element, c: Capture, f: Finder, indexSource: bool)
    requires WellFormed(t) && c.node < |t|
  {
    && Some(e.name) == ElementName(t, c.node, f) && e.name != []
    && e.lineNumber == t[c.node].startRow + 1 && e.endLine == t[c.node].endRow + 1
    && e.lang == "heex" && !e.isDependency
    && e.source == (if indexSource then Some(t[c.node].text) else None)
  }

  /** The qualifying captures are exactly the captures of the finder's name
      with a non-empty name under them. */
  lemma {:induction false} SelectedMembers(t: Tree, caps: seq<Capture>, k: nat, f: Finder)
    requires WellFormed(t) && CapturesIn(t, caps) && k <= |caps|
    ensures forall c :: c in Selected(t, caps, k, f) <==> (exists m | 0 <= m < k :: caps[m] == c) && Qualifies(t, c, f)
  {
    if k != 0 {
      SelectedMembers(t, caps, k - 1, f);
    }
  }

  /** One record per qualifying capture, in capture order, each describing
      its capture. */
  lemma {:induction false} ElementsUpToSelected(t: Tree, caps: seq<Capture>, k: nat, f: Finder, indexSource: bool)
    requires WellFormed(t) && CapturesIn(t, caps) && k <= |caps|
    ensures var r := ElementsUpTo(t, caps, k, f, indexSource); var s := Selected(t, caps, k, f);
      && |r| == |s|
      && forall i | 0 <= i < |r| :: s[i].node < |t| && Describes(t, r[i], s[i], f, indexSource)
  {
    if k != 0 {
      ElementsUpToSelected(t, caps, k - 1, f, indexSource);
    }
  }

  lemma ElementsSelected(t: Tree, caps: seq<Capture>, f: Finder, indexSource: bool)
    requires WellFormed(t) && CapturesIn(t, caps)
    ensures var r := Elements(t, caps, f, indexSource); var s := Selected(t, caps, |caps|, f);
      && |r| == |s|
      && (forall i | 0 <= i < |r| :: s[i].node < |t| && Describes(t, r[i], s[i], f, indexSource))
      && (forall c :: c in s <==> c in caps && Qualifies(t, c, f))
  {
    ElementsUpToSelected(t, caps, |caps|, f, indexSource);
    SelectedMembers(t, caps, |caps|, f);
  }

  /** The query loop shared by the three finders. */
  method FindElements(t: Tree, caps: seq<Capture>, f: Finder, indexSource: bool) returns (r: seq<Element>)
    requires WellFormed(t) && CapturesIn(t, caps)
    ensures r == Elements(t, caps, f, indexSource)
  {
    r := [];
    var k := 0;
    while k < |caps|
      invariant 0 <= k <= |caps|
      invariant r == ElementsUpTo(t, caps, k, f, indexSource)
    {
      var node := caps[k].node;
      if caps[k].name == f.capName {
        var name: Option<string> := None;
        var ch := FindFirstChild(t, node, f.starts);
        if ch.Some? {
          var g := FindFirstChild(t, ch.value, {f.nameKind});
          if g.Some? {
            name := Some(t[g.value].text);
          }
        }
        if name.Some? && name.value != [] {
          var source := if indexSource then Some(t[node].text) else None;
          r := r + [Element(name.value, t[node].startRow + 1, t[node].endRow + 1, Lang, false, source)];
        }
      }
      k := k + 1;
    }
  }

  method FindComponents(t: Tree, caps: seq<Capture>, indexSource: bool) returns (r: seq<Element>)
    requires WellFormed(t) && CapturesIn(t, caps)
    ensures r == Elements(t, caps, Components, indexSource)
  {
    r := FindElements(t, caps, Components, indexSource);
  }

  method FindTags(t: Tree, caps: seq<Capture>, indexSource: bool) returns (r: seq<Element>)
    requires WellFormed(t) && CapturesIn(t, caps)
    ensures r == Elements(t, caps, Tags, indexSource)
  {
    r := FindElements(t, caps, Tags, indexSource);
  }

  method FindSlots(t: Tree, caps: seq<Capture>, indexSource: bool) returns (r: seq<Element>)
    requires WellFormed(t) && CapturesIn(t, caps)
    ensures r == Elements(t, caps, Slots, indexSource)
  {
    r := FindElements(t, caps, Slots, indexSource);
  }

  // ---------------------------------------------------------------------
  // _find_directives
  // ---------------------------------------------------------------------

  /** A record of an EEx directive or expression. */
  datatype Directive = Directive(name: string, lineNumber: nat, endLine: nat, lang: string, isDependency: bool)

  /** The captures named `name` among the first `k`, in order. */
  function Named(caps: seq<Capture>, k: nat, name: string): seq<Capture>
    requires k <= |caps|
  {
    if k == 0 then [] else Named(caps, k - 1, name) + if caps[k - 1].name == name then [caps[k - 1]] else []
  }

  function DirectivesUpTo(t: Tree, caps: seq<Capture>, k: nat): seq<Directive>
    requires CapturesIn(t, caps) && k <= |caps|
  {
    if k == 0 then []
    else
      var c := caps[k - 1];
      DirectivesUpTo(t, caps, k - 1)
        + if c.name == "directive" then [Directive(Trim(t[c.node].text), LineOf(t, c.node), EndLineOf(t, c.node), Lang, false)] else []
  }

  /** What `_find_directives` returns. */
  function Directives(t: Tree, caps: seq<Capture>): seq<Directive>
    requires CapturesIn(t, caps)
  {
    DirectivesUpTo(t, caps, |caps|)
  }

  /** Exactly one record per directive capture, in order, with no filtering:
      named by the node's text without surrounding whitespace (so never with
      whitespace at either end), on the node's lines. */
  lemma {:induction false} DirectivesUpToNamed(t: Tree, caps: seq<Capture>, k: nat)
    requires CapturesIn(t, caps) && k <= |caps|
    ensures var r := DirectivesUpTo(t, caps, k); var s := Named(caps, k, "directive");
      && |r| == |s|
      && forall i | 0 <= i < |r| :: s[i].node < |t| && s[i].name == "directive"
           && r[i].name == Trim(t[s[i].node].text) && IsTrimmed(r[i].name)
           && r[i].lineNumber == t[s[i].node].startRow + 1 && r[i].endLine == t[s[i].node].endRow + 1
           && r[i].lang == "heex" && !r[i].isDependency
  {
    if k != 0 {
      DirectivesUpToNamed(t, caps, k - 1);
      TrimTrimmed(t[caps[k - 1].node].text);
    }
  }

  lemma DirectivesOnePerCapture(t: Tree, caps: seq<Capture>)
    requires CapturesIn(t, caps)
    ensures var r := Directives(t, caps); var s := Named(caps, |caps|, "directive");
      && |r| == |s|
      && forall i | 0 <= i < |r| :: s[i].node < |t| && s[i].name == "directive"
           && r[i].name == Trim(t[s[i].node].text) && IsTrimmed(r[i].name)
           && r[i].lineNumber == t[s[i].node].startRow + 1 && r[i].endLine == t[s[i].node].endRow + 1
           && r[i].lang == "heex" && !r[i].isDependency
  {
    DirectivesUpToNamed(t, caps, |caps|);
  }

  method FindDirectives(t: Tree, caps: seq<Capture>) returns (r: seq<Directive>)
    requires CapturesIn(t, caps)
    ensures r == Directives(t, caps)
  {
    r := [];
    var k := 0;
    while k < |caps|
      invariant 0 <= k <= |caps|
      invariant r == DirectivesUpTo(t, caps, k)
    {
      var node := caps[k].node;
      if caps[k].name == "directive" {
        var text := t[node].text;
        r := r + [Directive(Trim(text), t[node].startRow + 1, t[node].endRow + 1, Lang, false)];
      }
      k := k + 1;
    }
  }

  // ---------------------------------------------------------------------
  // _find_imports
  // ---------------------------------------------------------------------

  /** A module-qualified component reference reported as an import; the
      alias is always absent. */
  datatype Import = Import(
    name: string,
    fullImportName: string,
    lineNumber: nat,
    alias: Option<string>,
    lang: string,
    isDependency: bool)

  /** A component name that names a module: it has a dot and does not start
      with one, so a local component such as `.form` does not qualify. */
  predicate IsQualified(s: string) {
    '.' in s && !StartsWith(s, ".")
  }

  /** `s.rsplit('.', 1)[0]`: everything before the last dot. */
  function ModuleOf(s: string): (r: string)
    requires '.' in s
  {
    s[..LastIndexOf(s, '.').value]
  }

  /** The module part, a dot and a dot-free remainder make up the whole name;
      for a qualified name the module part is not empty. */
  lemma ModuleOfShape(s: string)
    requires '.' in s
    ensures exists rest :: s == ModuleOf(s) + "." + rest && '.' !in rest
    ensures IsQualified(s) ==> ModuleOf(s) != []
  {
    var i := LastIndexOf(s, '.').value;
    assert s == s[..i] + "." + s[i + 1..];
    if IsQualified(s) {
      assert StartsWith(s, ".") <==> s[0] == '.';
    }
  }

  /** The module names already reported: the `seen` set. */
  function Seen(xs: seq<Import>): set<string> {
    set i | 0 <= i < |xs| :: xs[i].name
  }

  /** The capture is a component name that names a module. */
  predicate QualifiedCapture(t: Tree, c: Capture)
    requires c.node < |t|
  {
    c.name == "comp_name" && IsQualified(t[c.node].text)
  }

  function ImportFor(t: Tree, n: nat): Import
    requires n < |t| && IsQualified(t[n].text)
  {
    Import(ModuleOf(t[n].text), t[n].text, LineOf(t, n), None, Lang, false)
  }

  /** One turn of the loop of `_find_imports`: a qualifying capture whose
      module has not been seen yet appends its record. */
  function ImportStep(t: Tree, front: seq<Import>, c: Capture): seq<Import>
    requires c.node < |t|
  {
    if QualifiedCapture(t, c) && ModuleOf(t[c.node].text) !in Seen(front) then front + [ImportFor(t, c.node)]
    else front
  }

  function ImportsUpTo(t: Tree, caps: seq<Capture>, k: nat): seq<Import>
    requires CapturesIn(t, caps) && k <= |caps|
  {
    if k == 0 then [] else ImportStep(t, ImportsUpTo(t, caps, k - 1), caps[k - 1])
  }

  /** What `_find_imports` returns. */
  function Imports(t: Tree, caps: seq<Capture>): seq<Import>
    requires CapturesIn(t, caps)
  {
    ImportsUpTo(t, caps, |caps|)
  }

  /** Appending a record adds its name to the seen set. */
  lemma SeenSnoc(xs: seq<Import>, e: Import)
    ensures Seen(xs + [e]) == Seen(xs) + {e.name}
  {
    var ys := xs + [e];
    assert ys[|xs|] == e;
    forall x | x in Seen(xs) ensures x in Seen(ys) {
      var i :| 0 <= i < |xs| && xs[i].name == x;
      assert ys[i] == xs[i];
    }
  }

  /** No two records carry the same module name. */
  predicate DistinctNames(xs: seq<Import>) {
    forall i, j | 0 <= i < j < |xs| :: xs[i].name != xs[j].name
  }

  /** No module is reported twice. */
  lemma {:induction false} ImportsDistinct(t: Tree, caps: seq<Capture>, k: nat)
    requires CapturesIn(t, caps) && k <= |caps|
    ensures DistinctNames(ImportsUpTo(t, caps, k))
  {
    if k != 0 {
      ImportsDistinct(t, caps, k - 1);
      var front := ImportsUpTo(t, caps, k - 1);
      var c := caps[k - 1];
      if QualifiedCapture(t, c) && ModuleOf(t[c.node].text) !in Seen(front) {
        var e := ImportFor(t, c.node);
        var r := front + [e];
        assert ImportsUpTo(t, caps, k) == r;
        forall i, j | 0 <= i < j < |r| ensures r[i].name != r[j].name {
          assert r[i] == front[i];
          assert front[i].name in Seen(front);
          if j < |front| {
            assert r[j] == front[j];
          } else {
            assert r[j] == e;
          }
        }
      }
    }
  }

  /** Every qualifying capture's module is reported: the seen set after the
      first `k` captures is exactly their modules. */
  lemma {:induction false} ImportsSeen(t: Tree, caps: seq<Capture>, k: nat)
    requires CapturesIn(t, caps) && k <= |caps|
    ensures forall x :: x in Seen(ImportsUpTo(t, caps, k)) <==>
      exists m | 0 <= m < k :: QualifiedCapture(t, caps[m]) && ModuleOf(t[caps[m].node].text) == x
  {
    if k != 0 {
      ImportsSeen(t, caps, k - 1);
      var front := ImportsUpTo(t, caps, k - 1);
      var c := caps[k - 1];
      if QualifiedCapture(t, c) && ModuleOf(t[c.node].text) !in Seen(front) {
        SeenSnoc(front, ImportFor(t, c.node));
      }
    }
  }

  /** Capture `m` is the first of the first `k` captures naming module `name`. */
  predicate FirstOccurrence(t: Tree, caps: seq<Capture>, m: nat, name: string)
    requires CapturesIn(t, caps)
  {
    && m < |caps| && QualifiedCapture(t, caps[m]) && ModuleOf(t[caps[m].node].text) == name
    && forall j | 0 <= j < m :: !(QualifiedCapture(t, caps[j]) && ModuleOf(t[caps[j].node].text) == name)
  }

  /** Each record comes from the first occurrence of its module among the
      first `k` captures: its name is the part before the last dot, its full
      name the whole text, its line that of the capture. */
  predicate FromFirstOccurrences(t: Tree, caps: seq<Capture>, k: nat, xs: seq<Import>)
    requires CapturesIn(t, caps)
  {
    forall i | 0 <= i < |xs| :: FromFirstOccurrence(t, caps, k, xs[i])
  }

  /** The record is that of the first occurrence of its module among the
      first `k` captures. */
  predicate FromFirstOccurrence(t: Tree, caps: seq<Capture>, k: nat, e: Import)
    requires CapturesIn(t, caps)
  {
    exists m | 0 <= m < k :: FirstOccurrence(t, caps, m, e.name) && e == ImportFor(t, caps[m].node)
  }

  /** Looking at more captures keeps every record's first occurrence. */
  lemma FromFirstOccurrencesWiden(t: Tree, caps: seq<Capture>, k: nat, xs: seq<Import>)
    requires CapturesIn(t, caps) && FromFirstOccurrences(t, caps, k, xs)
    ensures FromFirstOccurrences(t, caps, k + 1, xs)
  {
    forall i | 0 <= i < |xs| ensures FromFirstOccurrence(t, caps, k + 1, xs[i]) {
      assert FromFirstOccurrence(t, caps, k, xs[i]);
    }
  }

  /** Appending the record of capture `m`, a first occurrence. */
  lemma FromFirstOccurrencesSnoc(t: Tree, caps: seq<Capture>, k: nat, xs: seq<Import>, m: nat)
    requires CapturesIn(t, caps) && FromFirstOccurrences(t, caps, k, xs)
    requires m < k && m < |caps| && QualifiedCapture(t, caps[m])
    requires FirstOccurrence(t, caps, m, ImportFor(t, caps[m].node).name)
    ensures FromFirstOccurrences(t, caps, k, xs + [ImportFor(t, caps[m].node)])
  {
    var r := xs + [ImportFor(t, caps[m].node)];
    forall i | 0 <= i < |r| ensures FromFirstOccurrence(t, caps, k, r[i]) {
      if i < |xs| {
        assert r[i] == xs[i];
      }
    }
  }

  /** A qualifying capture whose module has not been seen yet is that
      module's first occurrence. */
  lemma UnseenIsFirst(t: Tree, caps: seq<Capture>, k: nat)
    requires CapturesIn(t, caps) && k < |caps|
    ensures QualifiedCapture(t, caps[k]) && ModuleOf(t[caps[k].node].text) !in Seen(ImportsUpTo(t, caps, k)) ==>
      FirstOccurrence(t, caps, k, ImportFor(t, caps[k].node).name)
  {
    ImportsSeen(t, caps, k);
  }

  /** One turn keeps every record a first occurrence. */
  lemma ImportStepFirst(t: Tree, caps: seq<Capture>, k: nat, front: seq<Import>)
    requires CapturesIn(t, caps) && 0 < k <= |caps|
    requires FromFirstOccurrences(t, caps, k - 1, front)
    requires var c := caps[k - 1];
      QualifiedCapture(t, c) && ModuleOf(t[c.node].text) !in Seen(front) ==> FirstOccurrence(t, caps, k - 1, ImportFor(t, c.node).name)
    ensures FromFirstOccurrences(t, caps, k, ImportStep(t, front, caps[k - 1]))
  {
    FromFirstOccurrencesWiden(t, caps, k - 1, front);
    var c := caps[k - 1];
    if QualifiedCapture(t, c) && ModuleOf(t[c.node].text) !in Seen(front) {
      FromFirstOccurrencesSnoc(t, caps, k, front, k - 1);
    }
  }

  /** The earliest occurrence of each module wins. */
  lemma {:induction false} ImportsFirstOccurrence(t: Tree, caps: seq<Capture>, k: nat)
    requires CapturesIn(t, caps) && k <= |caps|
    ensures FromFirstOccurrences(t, caps, k, ImportsUpTo(t, caps, k))
  {
    if k != 0 {
      ImportsFirstOccurrence(t, caps, k - 1);
      UnseenIsFirst(t, caps, k - 1);
      ImportStepFirst(t, caps, k, ImportsUpTo(t, caps, k - 1));
    }
  }

  /** The import facts over the whole query result. */
  lemma ImportsSound(t: Tree, caps: seq<Capture>)
    requires CapturesIn(t, caps)
    ensures var r := Imports(t, caps);
      && DistinctNames(r)
      && (forall x :: x in Seen(r) <==>
            exists m | 0 <= m < |caps| :: QualifiedCapture(t, caps[m]) && ModuleOf(t[caps[m].node].text) == x)
      && FromFirstOccurrences(t, caps, |caps|, r)
  {
    assert Imports(t, caps) == ImportsUpTo(t, caps, |caps|);
    ImportsDistinct(t, caps, |caps|);
    ImportsSeen(t, caps, |caps|);
    ImportsFirstOccurrence(t, caps, |caps|);
  }

  method FindImports(t: Tree, caps: seq<Capture>) returns (r: seq<Import>)
    requires CapturesIn(t, caps)
    ensures r == Imports(t, caps)
  {
    r := [];
    var seen: set<string> := {};
    var k := 0;
    while k < |caps|
      invariant 0 <= k <= |caps|
      invariant r == ImportsUpTo(t, caps, k)
      invariant seen == Seen(r)
    {
      var node := caps[k].node;
      if caps[k].name == "comp_name" {
        var text := t[node].text;
        if '.' in text && !StartsWith(text, ".") {
          var dot := LastIndexOf(text, '.');
          var moduleName := text[..dot.value];
          if moduleName !in seen {
            seen := seen + {moduleName};
            SeenSnoc(r, Import(moduleName, text, t[node].startRow + 1, None, Lang, false));
            r := r + [Import(moduleName, text, t[node].startRow + 1, None, Lang, false)];
          }
        }
      }
      k := k + 1;
    }
  }

  // ---------------------------------------------------------------------
  // parse
  // ---------------------------------------------------------------------

  /** The captures of the five queries `parse` runs over one tree. */
  datatype Queries = Queries(
    components: seq<Capture>,
    tags: seq<Capture>,
    directives: seq<Capture>,
    slots: seq<Capture>,
    componentNames: seq<Capture>)

  predicate QueriesIn(t: Tree, q: Queries) {
    && CapturesIn(t, q.components) && CapturesIn(t, q.tags) && CapturesIn(t, q.directives)
    && CapturesIn(t, q.slots) && CapturesIn(t, q.componentNames)
  }

  /** The dictionary `parse` returns: components stand for functions and
      directives for variables; there are never classes or calls. */
  datatype ParseResult = ParseResult(
    path: string,
    functions: seq<Element>,
    classes: seq<Element>,
    variables: seq<Directive>,
    imports: seq<Import>,
    functionCalls: seq<Element>,
    isDependency: bool,
    lang: string)

  /** `parse`: tags and slots are found and then dropped from the result. */
  method Parse(path: string, t: Tree, q: Queries, isDependency: bool, indexSource: bool) returns (r: ParseResult)
    requires WellFormed(t) && QueriesIn(t, q)
    ensures r.path == path && r.isDependency == isDependency && r.lang == "heex"
    ensures r.functions == Elements(t, q.components, Components, indexSource)
    ensures r.variables == Directives(t, q.directives)
    ensures r.imports == Imports(t, q.componentNames)
    ensures r.classes == [] && r.functionCalls == []
  {
    var components := FindComponents(t, q.components, indexSource);
    var tags := FindTags(t, q.tags, indexSource);
    var directives := FindDirectives(t, q.directives);
    var slots := FindSlots(t, q.slots, indexSource);
    var imports := FindImports(t, q.componentNames);
    r := ParseResult(path, components, [], directives, imports, [], isDependency, Lang);
  }
}
