/**
 * The three tree walks of the Elixir extractor: up the parents to the
 * enclosing `defmodule`/`def`/`defp` call (`_get_parent_context`), back along
 * the preceding siblings to a `@doc`, `@moduledoc` or `#` comment
 * (`_get_docstring`), and down the whole subtree counting decision points
 * (`_calculate_complexity`).
 */
module ElixirWalks {
  import opened Wrappers
  import opened Strings
  import opened SyntaxTree

  /** The default kinds of enclosing call looked for. */
  const DefaultTypes: set<string> := {"defmodule", "def", "defp"}

  /** The name a `call` node defines: the first alias or call among the
      children of its first `arguments` child; for an alias its text, for a
      call the text of that call's first identifier, if it has one. */
  function DefinedName(t: Tree, a: nat): Option<string>
    requires WellFormed(t) && a < |t|
  {
    match FirstChildOfKind(t, a, {"arguments"})
    case None => None
    case Some(g) =>
      match FirstChildOfKind(t, g, {"alias", "call"})
      case None => None
      case Some(ac) =>
        if t[ac].kind == "alias" then Some(t[ac].text)
        else
          match FirstChildOfKind(t, ac, {"identifier"})
          case None => None
          case Some(id) => Some(t[id].text)
  }

  /** The context node `a` provides for the given kinds, if any: it is a
      `call` whose first identifier child names one of `types`, and it defines
      a non-empty name. */
  function CallContext(t: Tree, a: nat, types: set<string>): (r: Option<Context>)
    requires WellFormed(t) && a < |t|
    ensures r.Some? ==> r.value.kind in types && r.value.name != [] && r.value.line == LineOf(t, a)
  {
    if t[a].kind != "call" then None
    else
      match FirstChildOfKind(t, a, {"identifier"})
      case None => None
      case Some(id) =>
        var name := DefinedName(t, a);
        if t[id].text in types && name.Some? && name.value != [] then
          Some(Context(name.value, t[id].text, LineOf(t, a)))
        else None
  }

  /** The first node of `ns` that provides a context. */
  function FirstContext(t: Tree, ns: seq<nat>, types: set<string>): (r: Option<Context>)
    requires WellFormed(t) && forall k | 0 <= k < |ns| :: ns[k] < |t|
    ensures r.Some? ==> r.value.kind in types && r.value.name != []
  {
    if ns == [] then None
    else
      var c := CallContext(t, ns[0], types);
      if c.Some? then c
      else FirstContext(t, ns[1..], types)
  }

  /** `FirstContext` finds nothing exactly when no node of `ns` provides a
      context, and otherwise returns the context of the first node that does. */
  lemma {:induction false} FirstContextFirst(t: Tree, ns: seq<nat>, types: set<string>)
    requires WellFormed(t) && forall k | 0 <= k < |ns| :: ns[k] < |t|
    ensures var r := FirstContext(t, ns, types);
      && (r.None? <==> forall k | 0 <= k < |ns| :: CallContext(t, ns[k], types).None?)
      && (r.Some? ==> exists k | 0 <= k < |ns| :: r == CallContext(t, ns[k], types)
                        && forall j | 0 <= j < k :: CallContext(t, ns[j], types).None?)
  {
    FirstContextNone(t, ns, types);
    if FirstContext(t, ns, types).Some? {
      var k := FirstContextAt(t, ns, types);
    }
  }

  /** `FirstContext` finds nothing exactly when no node of `ns` provides a
      context. */
  lemma {:induction false} FirstContextNone(t: Tree, ns: seq<nat>, types: set<string>)
    requires WellFormed(t) && forall k | 0 <= k < |ns| :: ns[k] < |t|
    ensures FirstContext(t, ns, types).None? <==> forall k | 0 <= k < |ns| :: CallContext(t, ns[k], types).None?
  {
    if ns != [] {
      FirstContextNone(t, ns[1..], types);
      assert forall k | 0 <= k < |ns[1..]| :: ns[1..][k] == ns[k + 1];
      assert forall k | 0 <= k < |ns| :: k == 0 || ns[k] == ns[1..][k - 1];
    }
  }

  /** The node whose context `FirstContext` returns: the first one that
      provides a context. */
  lemma {:induction false} FirstContextAt(t: Tree, ns: seq<nat>, types: set<string>) returns (k: nat)
    requires WellFormed(t) && forall k | 0 <= k < |ns| :: ns[k] < |t|
    requires FirstContext(t, ns, types).Some?
    ensures k < |ns| && FirstContext(t, ns, types) == CallContext(t, ns[k], types)
    ensures forall j | 0 <= j < k :: CallContext(t, ns[j], types).None?
  {
    if CallContext(t, ns[0], types).Some? {
      k := 0;
    } else {
      var k' := FirstContextAt(t, ns[1..], types);
      k := k' + 1;
      assert ns[k] == ns[1..][k'];
      assert forall j | 1 <= j < k :: ns[j] == ns[1..][j - 1];
    }
  }

  /** `_get_parent_context(node, types)`: the nearest strict ancestor that is
      a call of one of `types` with a non-empty name; None stands for the
      source's `(None, None, None)`. */
  function ParentContext(t: Tree, n: nat, types: set<string>): Option<Context>
    requires WellFormed(t) && n < |t|
  {
    FirstContext(t, Ancestors(t, n), types)
  }

  /** The nested loops over the children of one ancestor. */
  method ContextOf(t: Tree, a: nat, types: set<string>) returns (r: Option<Context>)
    requires WellFormed(t) && a < |t|
    ensures r == CallContext(t, a, types)
  {
    if t[a].kind != "call" {
      return None;
    }
    var id := FindFirstChild(t, a, {"identifier"});
    if id.None? || t[id.value].text !in types {
      return None;
    }
    var name: Option<string> := None;
    var g := FindFirstChild(t, a, {"arguments"});
    if g.Some? {
      var ac := FindFirstChild(t, g.value, {"alias", "call"});
      if ac.Some? {
        if t[ac.value].kind == "alias" {
          name := Some(t[ac.value].text);
        } else {
          var nameNode := FindFirstChild(t, ac.value, {"identifier"});
          if nameNode.Some? {
            name := Some(t[nameNode.value].text);
          }
        }
      }
    }
    if name.Some? && name.value != [] {
      return Some(Context(name.value, t[id.value].text, t[a].startRow + 1));
    }
    return None;
  }

  /** The `while curr:` loop of `_get_parent_context`. */
  method GetParentContext(t: Tree, n: nat, types: set<string>) returns (r: Option<Context>)
    requires WellFormed(t) && n < |t|
    ensures r == ParentContext(t, n, types)
  {
    assert LinksOk(t, n);
    var curr: Option<nat> := t[n].parent;
    while curr.Some?
      invariant curr.Some? ==> curr.value < |t|
      invariant ParentContext(t, n, types) == FirstContext(t, Chain(t, curr, Parent), types)
      decreases if curr.Some? then curr.value + 1 else 0
    {
      var a := curr.value;
      r := ContextOf(t, a, types);
      if r.Some? {
        return;
      }
      assert LinksOk(t, a);
      ghost var rest := Chain(t, curr, Parent);
      assert rest[1..] == Chain(t, t[a].parent, Parent);
      curr := t[a].parent;
    }
    return None;
  }

  /** Asking for fewer kinds never finds a context the wider search misses,
      and finds the same one whenever the wider search lands on one of them. */
  lemma {:induction false} FirstContextNarrowed(t: Tree, ns: seq<nat>, small: set<string>, big: set<string>)
    requires WellFormed(t) && forall k | 0 <= k < |ns| :: ns[k] < |t|
    requires small <= big
    ensures var b := FirstContext(t, ns, big);
      b.Some? && b.value.kind in small ==> FirstContext(t, ns, small) == b
    ensures FirstContext(t, ns, big).None? ==> FirstContext(t, ns, small).None?
  {
    if ns != [] {
      CallContextNarrowed(t, ns[0], small, big);
      FirstContextNarrowed(t, ns[1..], small, big);
    }
  }

  /** The same for one node. */
  lemma CallContextNarrowed(t: Tree, a: nat, small: set<string>, big: set<string>)
    requires WellFormed(t) && a < |t|
    requires small <= big
    ensures var b := CallContext(t, a, big);
      && (b.Some? && b.value.kind in small ==> CallContext(t, a, small) == b)
      && (b.None? ==> CallContext(t, a, small).None?)
  {
  }

  /** Kinds of preceding sibling the docstring walk steps over. */
  const Passable: set<string> := {"unary_operator", "comment"}

  /** A sibling that holds a docstring: an `@doc`/`@moduledoc` attribute or a
      `#` comment. */
  predicate IsDoc(nd: Node) {
    || (nd.kind == "unary_operator" && (StartsWith(nd.text, "@doc") || StartsWith(nd.text, "@moduledoc")))
    || (nd.kind == "comment" && StartsWith(nd.text, "#"))
  }

  /** The docstring found walking back over `sibs`: the first docstring
      sibling, trimmed, as long as only attributes and comments come before
      it; any other kind of sibling ends the search with None. */
  function DocFrom(t: Tree, sibs: seq<nat>): Option<string>
    requires forall k | 0 <= k < |sibs| :: sibs[k] < |t|
  {
    if sibs == [] then None
    else if IsDoc(t[sibs[0]]) then Some(Trim(t[sibs[0]].text))
    else if t[sibs[0]].kind in Passable then DocFrom(t, sibs[1..])
    else None
  }

  /** The walk finds a docstring exactly when some docstring sibling is
      preceded only by attributes and comments, and then it is the trimmed
      text of the nearest such sibling. */
  lemma {:induction false} DocFromFound(t: Tree, sibs: seq<nat>)
    requires forall k | 0 <= k < |sibs| :: sibs[k] < |t|
    ensures DocFrom(t, sibs).Some? ==> exists k | 0 <= k < |sibs| ::
      && IsDoc(t[sibs[k]]) && DocFrom(t, sibs).value == Trim(t[sibs[k]].text)
      && forall j | 0 <= j < k :: t[sibs[j]].kind in Passable && !IsDoc(t[sibs[j]])
    ensures DocFrom(t, sibs).None? ==> forall k | 0 <= k < |sibs| && IsDoc(t[sibs[k]]) ::
      exists j | 0 <= j < k :: t[sibs[j]].kind !in Passable
  {
    if sibs != [] && !IsDoc(t[sibs[0]]) && t[sibs[0]].kind in Passable {
      var tail := sibs[1..];
      DocFromFound(t, tail);
      var r := DocFrom(t, tail);
      assert DocFrom(t, sibs) == r;
      if r.Some? {
        var k :| 0 <= k < |tail| && IsDoc(t[tail[k]]) && r.value == Trim(t[tail[k]].text)
                  && forall j | 0 <= j < k :: t[tail[j]].kind in Passable && !IsDoc(t[tail[j]]);
        assert tail[k] == sibs[k + 1];
        assert forall j | 0 <= j < k + 1 :: t[sibs[j]].kind in Passable && !IsDoc(t[sibs[j]]) by {
          forall j | 0 <= j < k + 1 ensures t[sibs[j]].kind in Passable && !IsDoc(t[sibs[j]]) {
            if j > 0 { assert sibs[j] == tail[j - 1]; }
          }
        }
      } else {
        forall k | 0 <= k < |sibs| && IsDoc(t[sibs[k]]) ensures exists j | 0 <= j < k :: t[sibs[j]].kind !in Passable {
          assert k > 0 && tail[k - 1] == sibs[k];
          var j :| 0 <= j < k - 1 && t[tail[j]].kind !in Passable;
          assert tail[j] == sibs[j + 1];
        }
      }
    } else if sibs != [] && !IsDoc(t[sibs[0]]) {
      assert t[sibs[0]].kind !in Passable;
    }
  }

  /** `_get_docstring(node)`. */
  function Docstring(t: Tree, n: nat): Option<string>
    requires WellFormed(t) && n < |t|
  {
    assert LinksOk(t, n);
    DocFrom(t, Chain(t, t[n].prevSibling, PrevSibling))
  }

  /** The `while prev_sibling:` loop of `_get_docstring`. */
  method GetDocstring(t: Tree, n: nat) returns (r: Option<string>)
    requires WellFormed(t) && n < |t|
    ensures r == Docstring(t, n)
  {
    assert LinksOk(t, n);
    var prev: Option<nat> := t[n].prevSibling;
    while prev.Some?
      invariant prev.Some? ==> prev.value < |t|
      invariant Docstring(t, n) == DocFrom(t, Chain(t, prev, PrevSibling))
      decreases if prev.Some? then prev.value + 1 else 0
    {
      var s := prev.value;
      assert LinksOk(t, s);
      ghost var rest := Chain(t, prev, PrevSibling);
      assert rest[0] == s && rest[1..] == Chain(t, t[s].prevSibling, PrevSibling);
      if t[s].kind == "unary_operator" {
        if StartsWith(t[s].text, "@doc") || StartsWith(t[s].text, "@moduledoc") {
          return Some(Trim(t[s].text));
        }
      } else if t[s].kind == "comment" {
        if StartsWith(t[s].text, "#") {
          return Some(Trim(t[s].text));
        }
      } else {
        return None;
      }
      prev := t[s].prevSibling;
    }
    return None;
  }

  /** The keywords that open a branch, as node kinds or identifier texts. */
  const Keywords: set<string> := {"case", "cond", "if", "unless", "with", "try", "rescue", "catch"}

  /** A node adds one to the complexity when its kind is a keyword, when it is
      an identifier spelling a keyword, or when it is a binary operator whose
      text contains `&&`, `||`, `and` or `or` anywhere. */
  predicate Bumps(nd: Node) {
    || nd.kind in Keywords
    || (nd.kind == "identifier" && nd.text in Keywords)
    || (nd.kind == "binary_operator"
        && (Contains(nd.text, "&&") || Contains(nd.text, "||") || Contains(nd.text, "and") || Contains(nd.text, "or")))
  }

  function Bump(nd: Node): nat {
    if Bumps(nd) then 1 else 0
  }

  /** The number of nodes in the subtree of `i` that bump the count. */
  function SubtreeBumps(t: Tree, i: nat): nat
    requires WellFormed(t) && i < |t|
    decreases |t| - i, 1, 0
  {
    assert LinksOk(t, i);
    Bump(t[i]) + ChildrenBumps(t, i, t[i].children)
  }

  /** The bumps in the subtrees of the nodes `cs`, children of `p`. */
  function ChildrenBumps(t: Tree, p: nat, cs: seq<nat>): nat
    requires WellFormed(t) && p < |t| && forall k | 0 <= k < |cs| :: p < cs[k] < |t|
    decreases |t| - p, 0, |cs|
  {
    if cs == [] then 0 else SubtreeBumps(t, cs[0]) + ChildrenBumps(t, p, cs[1..])
  }

  /** The number of nodes in the subtree of `i`, counted as the walk visits
      them. */
  function SubtreeSize(t: Tree, i: nat): nat
    requires WellFormed(t) && i < |t|
    decreases |t| - i, 1, 0
  {
    assert LinksOk(t, i);
    1 + ChildrenSize(t, i, t[i].children)
  }

  function ChildrenSize(t: Tree, p: nat, cs: seq<nat>): nat
    requires WellFormed(t) && p < |t| && forall k | 0 <= k < |cs| :: p < cs[k] < |t|
    decreases |t| - p, 0, |cs|
  {
    if cs == [] then 0 else SubtreeSize(t, cs[0]) + ChildrenSize(t, p, cs[1..])
  }

  /** Each visited node adds at most one. */
  lemma {:induction false} BumpsAtMostSize(t: Tree, i: nat)
    requires WellFormed(t) && i < |t|
    ensures SubtreeBumps(t, i) <= SubtreeSize(t, i)
    decreases |t| - i, 1, 0
  {
    assert LinksOk(t, i);
    ChildrenBumpsAtMostSize(t, i, t[i].children);
  }

  lemma {:induction false} ChildrenBumpsAtMostSize(t: Tree, p: nat, cs: seq<nat>)
    requires WellFormed(t) && p < |t| && forall k | 0 <= k < |cs| :: p < cs[k] < |t|
    ensures ChildrenBumps(t, p, cs) <= ChildrenSize(t, p, cs)
    decreases |t| - p, 0, |cs|
  {
    if cs != [] {
      BumpsAtMostSize(t, cs[0]);
      ChildrenBumpsAtMostSize(t, p, cs[1..]);
    }
  }

  /** `_calculate_complexity(node)`: one plus the bumping nodes of the
      subtree, so at least 1 and at most one more than the subtree's size. */
  function Complexity(t: Tree, i: nat): nat
    requires WellFormed(t) && i < |t|
  {
    1 + SubtreeBumps(t, i)
  }

  lemma ComplexityBounds(t: Tree, i: nat)
    requires WellFormed(t) && i < |t|
    ensures 1 + Bump(t[i]) <= Complexity(t, i) <= 1 + SubtreeSize(t, i)
  {
    BumpsAtMostSize(t, i);
  }

  /** The nested `traverse`, adding to the enclosing `count`. */
  method Traverse(t: Tree, i: nat, count: nat) returns (count': nat)
    requires WellFormed(t) && i < |t|
    ensures count' == count + SubtreeBumps(t, i)
    decreases |t| - i
  {
    count' := count;
    if t[i].kind in Keywords {
      count' := count' + 1;
    } else if t[i].kind == "identifier" && t[i].text in Keywords {
      count' := count' + 1;
    } else if t[i].kind == "binary_operator" {
      if Contains(t[i].text, "&&") || Contains(t[i].text, "||") || Contains(t[i].text, "and") || Contains(t[i].text, "or") {
        count' := count' + 1;
      }
    }
    assert LinksOk(t, i);
    var cs := t[i].children;
    var k := 0;
    while k < |cs|
      invariant 0 <= k <= |cs|
      invariant count' + ChildrenBumps(t, i, cs[k..]) == count + SubtreeBumps(t, i)
    {
      assert cs[k..][1..] == cs[k + 1..];
      count' := Traverse(t, cs[k], count');
      k := k + 1;
    }
  }

  method CalculateComplexity(t: Tree, i: nat) returns (r: nat)
    requires WellFormed(t) && i < |t|
    ensures r == Complexity(t, i)
  {
    r := Traverse(t, i, 1);
  }
}
