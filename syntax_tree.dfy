/**
 * The syntax tree the extractors read, as an arena: every node is referred
 * to by its index, which plays the part of the node object's identity in the
 * Python code. The arena is numbered in pre-order, so a node's parent and its
 * previous sibling come before it and its children after it; the walks up
 * the tree and along siblings terminate because the index decreases.
 *
 * A query result is a sequence of captures `(node index, capture label)`.
 */
module SyntaxTree {
  import opened Wrappers

  /** One tree-sitter node. Rows are 0-based, as in `start_point[0]`. */
  datatype Node = Node(
    kind: string,
    text: string,
    startByte: nat,
    endByte: nat,
    startRow: nat,
    endRow: nat,
    parent: Option<nat>,
    prevSibling: Option<nat>,
    children: seq<nat>)

  type Tree = seq<Node>

  /** One `(node, capture_name)` pair produced by a query. */
  datatype Capture = Capture(node: nat, name: string)

  /** The links of node `i` point into the arena in pre-order. */
  predicate LinksOk(t: Tree, i: nat)
    requires i < |t|
  {
    && (t[i].parent.Some? ==> t[i].parent.value < i)
    && (t[i].prevSibling.Some? ==> t[i].prevSibling.value < i)
    && (forall k | 0 <= k < |t[i].children| :: i < t[i].children[k] < |t|)
  }

  predicate WellFormed(t: Tree) {
    forall i | 0 <= i < |t| :: LinksOk(t, i)
  }

  /** Every captured node belongs to the tree. */
  predicate CapturesIn(t: Tree, caps: seq<Capture>) {
    forall m | 0 <= m < |caps| :: caps[m].node < |t|
  }

  /** The byte span of node `n` lies within that of node `r`. */
  predicate Inside(t: Tree, n: nat, r: nat)
    requires n < |t| && r < |t|
  {
    t[n].startByte >= t[r].startByte && t[n].endByte <= t[r].endByte
  }

  /** The 1-based first line of a node. */
  function LineOf(t: Tree, i: nat): nat
    requires i < |t|
  {
    t[i].startRow + 1
  }

  /** The 1-based last line of a node. */
  function EndLineOf(t: Tree, i: nat): nat
    requires i < |t|
  {
    t[i].endRow + 1
  }

  /** The first node among `cs` whose kind is in `kinds`: what a `for child in
      node.children: if child.type == ...: ...; break` loop stops at. */
  function FirstOfKind(t: Tree, cs: seq<nat>, kinds: set<string>): (r: Option<nat>)
    requires forall k | 0 <= k < |cs| :: cs[k] < |t|
    ensures r.None? <==> forall k | 0 <= k < |cs| :: t[cs[k]].kind !in kinds
    ensures r.Some? ==> r.value in cs && r.value < |t| && t[r.value].kind in kinds
    ensures r.Some? ==> exists k | 0 <= k < |cs| :: cs[k] == r.value && t[r.value].kind in kinds
                                             && forall j | 0 <= j < k :: t[cs[j]].kind !in kinds
  {
    if cs == [] then None
    else if t[cs[0]].kind in kinds then
      assert cs[0] == cs[0];
      Some(cs[0])
    else
      var r := FirstOfKind(t, cs[1..], kinds);
      assert forall k | 0 <= k < |cs[1..]| :: cs[1..][k] == cs[k + 1];
      r
  }

  /** The first child of node `i` whose kind is in `kinds`. */
  function FirstChildOfKind(t: Tree, i: nat, kinds: set<string>): (r: Option<nat>)
    requires WellFormed(t) && i < |t|
    ensures r.Some? ==> r.value in t[i].children && i < r.value < |t| && t[r.value].kind in kinds
  {
    assert LinksOk(t, i);
    FirstOfKind(t, t[i].children, kinds)
  }

  /** The loop over `node.children` that stops at the first child of one of
      the given kinds. */
  method FindFirstChild(t: Tree, i: nat, kinds: set<string>) returns (r: Option<nat>)
    requires WellFormed(t) && i < |t|
    ensures r == FirstChildOfKind(t, i, kinds)
    ensures r.Some? ==> r.value in t[i].children && i < r.value < |t| && t[r.value].kind in kinds
  {
    assert LinksOk(t, i);
    var cs := t[i].children;
    var k := 0;
    while k < |cs|
      invariant 0 <= k <= |cs|
      invariant FirstOfKind(t, cs, kinds) == FirstOfKind(t, cs[k..], kinds)
    {
      if t[cs[k]].kind in kinds {
        return Some(cs[k]);
      }
      assert cs[k..][1..] == cs[k + 1..];
      k := k + 1;
    }
    return None;
  }

  /** Which link a walk follows from a node. */
  datatype Link = Parent | PrevSibling

  function Next(t: Tree, i: nat, link: Link): Option<nat>
    requires i < |t|
  {
    match link
    case Parent => t[i].parent
    case PrevSibling => t[i].prevSibling
  }

  /** The nodes met by following `link` from `cur` until it runs out, nearest
      first: the successive values of `curr` in a `while curr:` loop. */
  function Chain(t: Tree, cur: Option<nat>, link: Link): (r: seq<nat>)
    requires WellFormed(t) && (cur.Some? ==> cur.value < |t|)
    ensures forall k | 0 <= k < |r| :: r[k] < |t|
    ensures r == [] <==> cur.None?
    ensures r != [] ==> r[0] == cur.value && Next(t, r[|r| - 1], link).None?
    ensures forall k | 0 <= k < |r| - 1 :: Next(t, r[k], link) == Some(r[k + 1])
    decreases if cur.Some? then cur.value + 1 else 0
  {
    match cur
    case None => []
    case Some(a) =>
      assert LinksOk(t, a);
      [a] + Chain(t, Next(t, a, link), link)
  }

  /** What a parent-context walk reports: the name found, the kind of the
      enclosing node (its defining identifier in Elixir, its node type in
      HEEx) and that node's 1-based line. */
  datatype Context = Context(name: string, kind: string, line: nat)

  /** The strict ancestors of node `n`, nearest first. */
  function Ancestors(t: Tree, n: nat): seq<nat>
    requires WellFormed(t) && n < |t|
  {
    assert LinksOk(t, n);
    Chain(t, t[n].parent, Parent)
  }
}
