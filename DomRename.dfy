/** renameAll of DomUtils: renames, in document order, every node of a tree
    whose name equals a given name ignoring case. Document.renameNode renames
    elements and throws NOT_SUPPORTED_ERR for text, comment and CDATA nodes,
    so a '#'-name that matches stops the walk; renames done before stay. */
module DomRename {
  import opened Dom

  /** The tree after renameAll, and whether the walk ran to its end. */
  datatype Renamed = Renamed(tree: Node, completed: bool)

  /** The child list after the walk over it, and whether it ran to its end;
      the children after a failing one are left as they were. */
  datatype RenamedList = RenamedList(nodes: seq<Node>, completed: bool)

  /** renameAll: the node itself first (its namespace URI is kept), then its
      children from first to last. */
  function RenameAll(n: Node, from: string, to: string): (r: Renamed)
    ensures r.tree.Element? == n.Element?
    ensures r.tree.Element? ==> r.tree.name == (if EqualsIgnoreCase(n.name, from) then to else n.name)
    decreases n
  {
    match n
    case Element(name, uri, kids) =>
      var rest := RenameChildren(kids, from, to);
      Renamed(Element(if EqualsIgnoreCase(name, from) then to else name, uri, rest.nodes), rest.completed)
    case _ => Renamed(n, !EqualsIgnoreCase(NodeName(n), from))
  }

  function RenameChildren(cs: seq<Node>, from: string, to: string): (r: RenamedList)
    ensures |r.nodes| == |cs|
    decreases cs
  {
    if cs == [] then RenamedList([], true)
    else
      var first := RenameAll(cs[0], from, to);
      if !first.completed then RenamedList([first.tree] + cs[1..], false)
      else
        var rest := RenameChildren(cs[1..], from, to);
        RenamedList([first.tree] + rest.nodes, rest.completed)
  }

  /** What renameAll is for: every element whose name equals from, ignoring
      case, is named to; every other node is kept. A reference that renames
      all children at once and never stops. */
  function Relabel(n: Node, from: string, to: string): Node
    decreases n
  {
    match n
    case Element(name, uri, kids) =>
      Element(if EqualsIgnoreCase(name, from) then to else name, uri,
              seq(|kids|, i requires 0 <= i < |kids| => Relabel(kids[i], from, to)))
    case _ => n
  }

  /** The first child at which the walk over a child list stops, or |cs|. */
  function FirstFailure(cs: seq<Node>, from: string, to: string): (k: nat)
    ensures k <= |cs|
    ensures k < |cs| ==> !RenameAll(cs[k], from, to).completed
    ensures forall j :: 0 <= j < k ==> RenameAll(cs[j], from, to).completed
    decreases cs
  {
    if cs == [] then 0
    else if !RenameAll(cs[0], from, to).completed then 0
    else 1 + FirstFailure(cs[1..], from, to)
  }

  /** Some text, comment or CDATA node of the tree has a name equal to from,
      ignoring case. */
  predicate HasUnrenamable(n: Node, from: string)
    decreases n
  {
    match n
    case Element(_, _, kids) => exists i :: 0 <= i < |kids| && HasUnrenamable(kids[i], from)
    case _ => EqualsIgnoreCase(NodeName(n), from)
  }

  /** Some node of the tree has a name equal to from, ignoring case. */
  predicate Mentions(n: Node, from: string)
    decreases n
  {
    match n
    case Element(name, _, kids) =>
      EqualsIgnoreCase(name, from) || exists i :: 0 <= i < |kids| && Mentions(kids[i], from)
    case _ => EqualsIgnoreCase(NodeName(n), from)
  }

  /** The tree with every element name blanked: what a rename must not change. */
  function Shape(n: Node): Node
    decreases n
  {
    match n
    case Element(_, uri, kids) => Element("", uri, Shapes(kids))
    case _ => n
  }

  function Shapes(cs: seq<Node>): (r: seq<Node>)
    ensures |r| == |cs|
    decreases cs
  {
    if cs == [] then [] else [Shape(cs[0])] + Shapes(cs[1..])
  }

  /** renameAll runs to its end exactly when no text, comment or CDATA node
      has the name being replaced. */
  lemma {:induction false} RenameAllCompletes(n: Node, from: string, to: string)
    ensures RenameAll(n, from, to).completed <==> !HasUnrenamable(n, from)
    decreases n
  {
    if n.Element? {
      RenameChildrenCompletes(n.children, from, to);
    }
  }

  lemma {:induction false} RenameChildrenCompletes(cs: seq<Node>, from: string, to: string)
    ensures RenameChildren(cs, from, to).completed <==> forall i :: 0 <= i < |cs| ==> !HasUnrenamable(cs[i], from)
    decreases cs
  {
    if cs != [] {
      RenameAllCompletes(cs[0], from, to);
      RenameChildrenCompletes(cs[1..], from, to);
      assert forall i :: 1 <= i < |cs| ==> cs[i] == cs[1..][i - 1];
    }
  }

  /** renameAll changes element names only: the tree structure, the namespace
      URIs and every text, comment and CDATA node stay, also when it fails. */
  lemma {:induction false} RenameAllKeepsShape(n: Node, from: string, to: string)
    ensures Shape(RenameAll(n, from, to).tree) == Shape(n)
    decreases n
  {
    if n.Element? {
      RenameChildrenKeepsShape(n.children, from, to);
    }
  }

  lemma {:induction false} RenameChildrenKeepsShape(cs: seq<Node>, from: string, to: string)
    ensures Shapes(RenameChildren(cs, from, to).nodes) == Shapes(cs)
    decreases cs
  {
    if cs != [] {
      var first := RenameAll(cs[0], from, to);
      RenameAllKeepsShape(cs[0], from, to);
      if first.completed {
        RenameChildrenKeepsShape(cs[1..], from, to);
        assert ([first.tree] + RenameChildren(cs[1..], from, to).nodes)[1..] == RenameChildren(cs[1..], from, to).nodes;
      } else {
        assert ([first.tree] + cs[1..])[1..] == cs[1..];
      }
    }
  }

  /** A completed rename to a name that differs (ignoring case) from the old
      one leaves no node with the old name. */
  lemma {:induction false} RenameAllRemovesName(n: Node, from: string, to: string)
    requires !EqualsIgnoreCase(to, from)
    requires RenameAll(n, from, to).completed
    ensures !Mentions(RenameAll(n, from, to).tree, from)
    decreases n
  {
    if n.Element? {
      RenameChildrenRemovesName(n.children, from, to);
    }
  }

  lemma {:induction false} RenameChildrenRemovesName(cs: seq<Node>, from: string, to: string)
    requires !EqualsIgnoreCase(to, from)
    requires RenameChildren(cs, from, to).completed
    ensures forall i :: 0 <= i < |cs| ==> !Mentions(RenameChildren(cs, from, to).nodes[i], from)
    decreases cs
  {
    if cs != [] {
      var r := RenameChildren(cs, from, to);
      RenameAllRemovesName(cs[0], from, to);
      RenameChildrenRemovesName(cs[1..], from, to);
      assert forall i :: 1 <= i < |cs| ==> r.nodes[i] == RenameChildren(cs[1..], from, to).nodes[i - 1];
    }
  }

  /** A tree without the name is left as it is. */
  lemma {:induction false} RenameAllUnmentioned(n: Node, from: string, to: string)
    requires !Mentions(n, from)
    ensures RenameAll(n, from, to) == Renamed(n, true)
    decreases n
  {
    if n.Element? {
      RenameChildrenUnmentioned(n.children, from, to);
    }
  }

  lemma {:induction false} RenameChildrenUnmentioned(cs: seq<Node>, from: string, to: string)
    requires forall i :: 0 <= i < |cs| ==> !Mentions(cs[i], from)
    ensures RenameChildren(cs, from, to) == RenamedList(cs, true)
    decreases cs
  {
    if cs != [] {
      RenameAllUnmentioned(cs[0], from, to);
      assert forall i :: 0 <= i < |cs[1..]| ==> cs[1..][i] == cs[i + 1];
      RenameChildrenUnmentioned(cs[1..], from, to);
      assert [cs[0]] + cs[1..] == cs;
    }
  }

  /** A completed renameAll renames exactly as the reference does. */
  lemma {:induction false} RenameAllIsRelabel(n: Node, from: string, to: string)
    requires RenameAll(n, from, to).completed
    ensures RenameAll(n, from, to).tree == Relabel(n, from, to)
    decreases n
  {
    if n.Element? {
      var kids := n.children;
      var rest := RenameChildren(kids, from, to);
      RenameChildrenIsRelabel(kids, from, to);
      assert rest.nodes == seq(|kids|, i requires 0 <= i < |kids| => Relabel(kids[i], from, to));
    }
  }

  lemma {:induction false} RenameChildrenIsRelabel(cs: seq<Node>, from: string, to: string)
    requires RenameChildren(cs, from, to).completed
    ensures forall i :: 0 <= i < |cs| ==> RenameChildren(cs, from, to).nodes[i] == Relabel(cs[i], from, to)
    decreases cs
  {
    if cs != [] {
      var r := RenameChildren(cs, from, to);
      RenameAllIsRelabel(cs[0], from, to);
      RenameChildrenIsRelabel(cs[1..], from, to);
      assert forall i :: 1 <= i < |cs| ==> r.nodes[i] == RenameChildren(cs[1..], from, to).nodes[i - 1] && cs[i] == cs[1..][i - 1];
    }
  }

  /** The walk over a child list renames the children before the first
      failing one as the reference does, walks into the failing one, and
      leaves every later child as it was; it completes iff no child fails. */
  lemma {:induction false} RenameChildrenStopsAtFailure(cs: seq<Node>, from: string, to: string)
    ensures var r := RenameChildren(cs, from, to); var k := FirstFailure(cs, from, to);
      && (r.completed <==> k == |cs|)
      && (forall i :: 0 <= i < k ==> r.nodes[i] == Relabel(cs[i], from, to))
      && (k < |cs| ==> r.nodes[k] == RenameAll(cs[k], from, to).tree)
      && (forall i :: k < i < |cs| ==> r.nodes[i] == cs[i])
    decreases cs
  {
    if cs != [] {
      var r := RenameChildren(cs, from, to);
      var first := RenameAll(cs[0], from, to);
      assert forall i :: 1 <= i < |cs| ==> cs[i] == cs[1..][i - 1];
      if first.completed {
        RenameAllIsRelabel(cs[0], from, to);
        RenameChildrenStopsAtFailure(cs[1..], from, to);
        assert forall i :: 1 <= i < |cs| ==> r.nodes[i] == RenameChildren(cs[1..], from, to).nodes[i - 1];
      }
    }
  }

  /** Applying a completed rename a second time changes nothing. */
  lemma RenameAllIdempotent(n: Node, from: string, to: string)
    requires !EqualsIgnoreCase(to, from)
    requires RenameAll(n, from, to).completed
    ensures var t := RenameAll(n, from, to).tree; RenameAll(t, from, to) == Renamed(t, true)
  {
    RenameAllRemovesName(n, from, to);
    RenameAllUnmentioned(RenameAll(n, from, to).tree, from, to);
  }

  /** The unit test's tree: both "from" elements become "to" and keep their text. */
  lemma RenameAllOfTestTree()
    ensures RenameAll(Element("root", "", [Element("from", "", [Text("Value1")]), Element("from", "", [Text("Value2")])]), "from", "to")
      == Renamed(Element("root", "", [Element("to", "", [Text("Value1")]), Element("to", "", [Text("Value2")])]), true)
  {
    assert !EqualsIgnoreCase("root", "from") by { assert AsciiLower("root")[0] == 'r'; }
    assert !EqualsIgnoreCase("#text", "from") by { assert AsciiLower("#text")[0] == '#'; }
    var t1, t2 := [Text("Value1")], [Text("Value2")];
    assert t1[1..] == [] && t2[1..] == [];
    assert RenameChildren(t1, "from", "to") == RenamedList(t1, true);
    assert RenameChildren(t2, "from", "to") == RenamedList(t2, true);
    var e1, e2 := Element("from", "", t1), Element("from", "", t2);
    assert RenameAll(e1, "from", "to") == Renamed(Element("to", "", t1), true);
    assert RenameAll(e2, "from", "to") == Renamed(Element("to", "", t2), true);
    var kids := [e1, e2];
    assert kids[1..] == [e2] && kids[1..][1..] == [];
    assert RenameChildren(kids[1..], "from", "to") == RenamedList([Element("to", "", t2)], true);
  }
}
