/** The sibling-list helpers of DomUtils. A parent element is an object whose
    child list the helpers change in place; the children themselves are node
    values, and a reference to a child is its position in that list. The node
    that the helpers insert is the imported copy of their argument, which as
    a value is the argument itself. */
module DomUtils {
  import opened Wrappers
  import opened Dom
  import opened DomGuards

  // ---------------------------------------------------------------------
  // Predecessor set of an ordered list of names

  /** The position of the first occurrence of x in s, or |s| when x is absent. */
  function FirstIndexOf(s: seq<string>, x: string): (k: nat)
    ensures k <= |s|
    ensures k < |s| ==> s[k] == x
    ensures forall j :: 0 <= j < k ==> s[j] != x
  {
    if s == [] then 0
    else if s[0] == x then 0
    else 1 + FirstIndexOf(s[1..], x)
  }

  /** How many names of the order list selectPredecessors collects: up to and
      including the first occurrence of name, or all of them when name is absent. */
  function PredecessorCount(order: seq<string>, name: string): (n: nat)
    ensures n <= |order|
    ensures name in order ==> n == FirstIndexOf(order, name) + 1
    ensures name !in order ==> n == |order|
  {
    var k := FirstIndexOf(order, name);
    if k < |order| then k + 1 else |order|
  }

  /** The set selectPredecessors returns. */
  function Predecessors(order: seq<string>, name: string): set<string>
  {
    set i | 0 <= i < PredecessorCount(order, name) :: order[i]
  }

  /** selectPredecessors: adds the names of the order list to a set until it
      has added name itself. */
  method SelectPredecessors(orderedNodeNames: seq<string>, nodeName: string) returns (result: set<string>)
    ensures result == Predecessors(orderedNodeNames, nodeName)
  {
    result := {};
    var i := 0;
    while i < |orderedNodeNames|
      invariant 0 <= i <= |orderedNodeNames|
      invariant forall j :: 0 <= j < i ==> orderedNodeNames[j] != nodeName
      invariant result == set j | 0 <= j < i :: orderedNodeNames[j]
    {
      var name := orderedNodeNames[i];
      ghost var before := result;
      result := result + {name};
      assert result == set j | 0 <= j < i + 1 :: orderedNodeNames[j] by {
        assert forall x :: x in result <==> x in before || x == orderedNodeNames[i];
      }
      if name == nodeName {
        assert FirstIndexOf(orderedNodeNames, nodeName) == i;
        break;
      }
      i := i + 1;
    }
  }

  /** With name listed, the predecessors are the listed names whose first
      occurrence is not after that of name; name is one of them. */
  lemma PredecessorsOfListedName(order: seq<string>, name: string, x: string)
    requires name in order
    ensures name in Predecessors(order, name)
    ensures x in Predecessors(order, name) <==> x in order && FirstIndexOf(order, x) <= FirstIndexOf(order, name)
  {
    var k := FirstIndexOf(order, name);
    assert order[k] in Predecessors(order, name);
    if x in Predecessors(order, name) {
      var i :| 0 <= i <= k && order[i] == x;
      assert FirstIndexOf(order, x) <= i;
    }
    if x in order && FirstIndexOf(order, x) <= k {
      var i := FirstIndexOf(order, x);
      assert order[i] in Predecessors(order, name);
    }
  }

  /** With name not listed, every listed name is a predecessor. */
  lemma PredecessorsOfUnlistedName(order: seq<string>, name: string)
    requires name !in order
    ensures Predecessors(order, name) == set x | x in order
  {
    forall x | x in order
      ensures x in Predecessors(order, name)
    {
      var i :| 0 <= i < |order| && order[i] == x;
      assert order[i] in Predecessors(order, name);
    }
  }

  // ---------------------------------------------------------------------
  // Positions in a child list

  /** The child list after the DOM inserts e before the child at p, or appends
      it when p is the length of the list. */
  function InsertAt(cs: seq<Node>, p: nat, e: Node): (r: seq<Node>)
    requires p <= |cs|
    ensures |r| == |cs| + 1 && r[p] == e
    ensures r[..p] == cs[..p] && r[p + 1..] == cs[p..]
  {
    cs[..p] + [e] + cs[p..]
  }

  /** Inserting keeps every former child and their relative order: taking the
      new node out again gives the former list. */
  lemma InsertAtKeepsOthers(cs: seq<Node>, p: nat, e: Node)
    requires p <= |cs|
    ensures InsertAt(cs, p, e)[..p] + InsertAt(cs, p, e)[p + 1..] == cs
    ensures forall j :: 0 <= j < |cs| ==> InsertAt(cs, p, e)[if j < p then j else j + 1] == cs[j]
  {
    var r := InsertAt(cs, p, e);
    assert r[..p] + r[p + 1..] == cs[..p] + cs[p..];
    assert cs[..p] + cs[p..] == cs;
  }

  /** The first element at or after position start, if any. */
  function NextElementIndex(cs: seq<Node>, start: nat): (r: Option<nat>)
    requires start <= |cs|
    ensures r.Some? ==> start <= r.value < |cs| && cs[r.value].Element?
    ensures forall j :: start <= j < (if r.Some? then r.value else |cs|) ==> !cs[j].Element?
    decreases |cs| - start
  {
    if start == |cs| then None
    else if cs[start].Element? then Some(start)
    else NextElementIndex(cs, start + 1)
  }

  /** The last element before position end, if any. */
  function PrevElementIndex(cs: seq<Node>, end: nat): (r: Option<nat>)
    requires end <= |cs|
    ensures r.Some? ==> r.value < end && cs[r.value].Element?
    ensures forall j :: (if r.Some? then r.value + 1 else 0) <= j < end ==> !cs[j].Element?
  {
    if end == 0 then None
    else if cs[end - 1].Element? then Some(end - 1)
    else PrevElementIndex(cs, end - 1)
  }

  /** The first element at or after position start whose name is not in names. */
  function FirstElementNotIn(cs: seq<Node>, names: set<string>, start: nat): (r: Option<nat>)
    requires start <= |cs|
    ensures r.Some? ==> start <= r.value < |cs| && cs[r.value].Element? && cs[r.value].name !in names
    ensures forall j :: start <= j < (if r.Some? then r.value else |cs|) ==> cs[j].Element? ==> cs[j].name in names
    decreases |cs| - start
  {
    if start == |cs| then None
    else if cs[start].Element? && cs[start].name !in names then Some(start)
    else FirstElementNotIn(cs, names, start + 1)
  }

  /** Where insertElement puts an element named name: before the successor
      element, or at the end when there is none. */
  function OrderedPosition(cs: seq<Node>, order: seq<string>, name: string): (p: nat)
    ensures p <= |cs|
    ensures forall j :: 0 <= j < p && cs[j].Element? ==> cs[j].name in Predecessors(order, name)
    ensures p < |cs| ==> cs[p].Element? && cs[p].name !in Predecessors(order, name)
  {
    match FirstElementNotIn(cs, Predecessors(order, name), 0)
    case Some(i) => i
    case None => |cs|
  }

  /** Where insertElementAfter puts the new element: before the next element
      sibling of the child at node, or at the end. */
  function AfterPosition(cs: seq<Node>, node: nat): (p: nat)
    requires node < |cs|
    ensures node < p <= |cs|
    ensures forall j :: node < j < p ==> !cs[j].Element?
    ensures p < |cs| ==> cs[p].Element?
  {
    match NextElementIndex(cs, node + 1)
    case Some(j) => j
    case None => |cs|
  }

  // ---------------------------------------------------------------------
  // Filters over a child list

  /** What a filter keeps: every child node of one type (children), or the
      element children of one name (selectChildren with a name). */
  datatype Selector = OfType(nodeType: int) | ElementNamed(elementName: string)

  predicate Matches(n: Node, s: Selector)
  {
    match s
    case OfType(t) => NodeType(n) == t
    case ElementNamed(name) => n.Element? && n.name == name
  }

  /** The nodes of cs that s keeps, in document order. */
  function Select(cs: seq<Node>, s: Selector): (r: seq<Node>)
    ensures |r| <= |cs|
    ensures forall x :: x in r ==> x in cs && Matches(x, s)
  {
    if cs == [] then []
    else (if Matches(cs[0], s) then [cs[0]] else []) + Select(cs[1..], s)
  }

  /** A filter keeps exactly the matching nodes. */
  lemma {:induction false} SelectMembers(cs: seq<Node>, s: Selector, x: Node)
    ensures x in Select(cs, s) <==> x in cs && Matches(x, s)
  {
    if cs != [] {
      SelectMembers(cs[1..], s, x);
      assert x in cs <==> x == cs[0] || x in cs[1..];
    }
  }

  /** Filtering distributes over concatenation, so the kept nodes stay in
      document order. */
  lemma {:induction false} SelectConcat(a: seq<Node>, b: seq<Node>, s: Selector)
    ensures Select(a + b, s) == Select(a, s) + Select(b, s)
  {
    if a == [] {
      assert a + b == b;
    } else {
      assert (a + b)[1..] == a[1..] + b;
      SelectConcat(a[1..], b, s);
    }
  }

  /** The element filter is empty exactly when there is no element child. */
  lemma SelectElementsEmpty(cs: seq<Node>)
    ensures Select(cs, OfType(ELEMENT_NODE)) == [] <==> NextElementIndex(cs, 0).None?
  {
    var r := NextElementIndex(cs, 0);
    if r.Some? {
      SelectMembers(cs, OfType(ELEMENT_NODE), cs[r.value]);
    }
  }

  // ---------------------------------------------------------------------
  // The parent element whose child list the helpers change

  class ParentElement {
    var name: string
    var nsUri: string
    var childNodes: seq<Node>

    constructor (name: string, nsUri: string, childNodes: seq<Node>)
      ensures this.name == name && this.nsUri == nsUri && this.childNodes == childNodes
    {
      this.name := name;
      this.nsUri := nsUri;
      this.childNodes := childNodes;
    }

    /** Node.appendChild, the DOM primitive. */
    method AppendChild(newChild: Node)
      modifies this`childNodes
      ensures childNodes == old(childNodes) + [newChild]
    {
      childNodes := childNodes + [newChild];
    }

    /** Node.insertBefore, the DOM primitive, with the reference child given by position. */
    method InsertBefore(newChild: Node, refChild: nat)
      requires refChild < |childNodes|
      modifies this`childNodes
      ensures childNodes == InsertAt(old(childNodes), refChild, newChild)
    {
      childNodes := childNodes[..refChild] + [newChild] + childNodes[refChild..];
    }

    /** appendElement: checks the namespaces, then appends the element. */
    method AppendElement(child: Node) returns (result: Result<Node, DomError>)
      requires child.Element?
      modifies this`childNodes
      ensures EnforceNoNamespaceMixes(nsUri, child.nsUri).Fail? ==>
        result == Failure(NamespaceMix) && childNodes == old(childNodes)
      ensures EnforceNoNamespaceMixes(nsUri, child.nsUri).Pass? ==>
        result == Success(child) && childNodes == old(childNodes) + [child]
    {
      var check := EnforceNoNamespaceMixes(nsUri, child.nsUri);
      if check.Fail? {
        return Failure(check.error);
      }
      AppendChild(child);
      result := Success(child);
    }

    /** insertElementBefore: checks the namespaces against the parent, then
        inserts the element right before the child at node. */
    method InsertElementBefore(node: nat, element: Node) returns (result: Result<Node, DomError>)
      requires node < |childNodes| && element.Element?
      modifies this`childNodes
      ensures EnforceNoNamespaceMixes(nsUri, element.nsUri).Fail? ==>
        result == Failure(NamespaceMix) && childNodes == old(childNodes)
      ensures EnforceNoNamespaceMixes(nsUri, element.nsUri).Pass? ==>
        result == Success(element) && childNodes == InsertAt(old(childNodes), node, element)
    {
      var check := EnforceNoNamespaceMixes(nsUri, element.nsUri);
      if check.Fail? {
        return Failure(check.error);
      }
      InsertBefore(element, node);
      result := Success(element);
    }

    /** insertElementAfter: checks the namespaces, then inserts the element
        before the next element sibling of the child at node, or appends it. */
    method InsertElementAfter(node: nat, element: Node) returns (result: Result<Node, DomError>)
      requires node < |childNodes| && element.Element?
      modifies this`childNodes
      ensures EnforceNoNamespaceMixes(nsUri, element.nsUri).Fail? ==>
        result == Failure(NamespaceMix) && childNodes == old(childNodes)
      ensures EnforceNoNamespaceMixes(nsUri, element.nsUri).Pass? ==>
        result == Success(element) && childNodes == InsertAt(old(childNodes), AfterPosition(old(childNodes), node), element)
    {
      var check := EnforceNoNamespaceMixes(nsUri, element.nsUri);
      if check.Fail? {
        return Failure(check.error);
      }
      var sibling := SelectElementAfter(node);
      if sibling.Some? {
        InsertBefore(element, sibling.value);
      } else {
        AppendChild(element);
      }
      result := Success(element);
    }

    /** insertElementAsFirst: appends the element, without the namespace check,
        when there is no element child; otherwise inserts it before the first
        element child. */
    method InsertElementAsFirst(child: Node) returns (result: Result<Node, DomError>)
      requires child.Element?
      modifies this`childNodes
      ensures NextElementIndex(old(childNodes), 0).None? ==>
        result == Success(child) && childNodes == old(childNodes) + [child]
      ensures NextElementIndex(old(childNodes), 0).Some? && EnforceNoNamespaceMixes(nsUri, child.nsUri).Fail? ==>
        result == Failure(NamespaceMix) && childNodes == old(childNodes)
      ensures NextElementIndex(old(childNodes), 0).Some? && EnforceNoNamespaceMixes(nsUri, child.nsUri).Pass? ==>
        result == Success(child) && childNodes == InsertAt(old(childNodes), NextElementIndex(old(childNodes), 0).value, child)
    {
      var children := SelectChildren();
      SelectElementsEmpty(childNodes);
      if |children| == 0 {
        AppendChild(child);
        result := Success(child);
      } else {
        var first := NextElementIndex(childNodes, 0).value;
        result := InsertElementBefore(first, child);
      }
    }

    /** insertElement: inserts the element before the successor that the order
        list gives, or appends it when there is none. */
    method InsertElement(element: Node, orderedNodeNames: seq<string>) returns (result: Result<Node, DomError>)
      requires element.Element?
      modifies this`childNodes
      ensures EnforceNoNamespaceMixes(nsUri, element.nsUri).Fail? ==>
        result == Failure(NamespaceMix) && childNodes == old(childNodes)
      ensures EnforceNoNamespaceMixes(nsUri, element.nsUri).Pass? ==>
        result == Success(element) &&
        childNodes == InsertAt(old(childNodes), OrderedPosition(old(childNodes), orderedNodeNames, element.name), element)
    {
      var successor := SelectSuccessorElementFromOrder(orderedNodeNames, element.name);
      if successor.Some? {
        result := InsertElementBefore(successor.value, element);
      } else {
        result := AppendElement(element);
      }
    }

    /** squeezeInElement: appends the element and then moves every former child
        of the parent, in order, to the end of the new element's children. */
    method SqueezeInElement(element: Node) returns (result: Result<Node, DomError>)
      requires element.Element?
      modifies this`childNodes
      ensures EnforceNoNamespaceMixes(nsUri, element.nsUri).Fail? ==>
        result == Failure(NamespaceMix) && childNodes == old(childNodes)
      ensures EnforceNoNamespaceMixes(nsUri, element.nsUri).Pass? ==>
        result == Success(Element(element.name, element.nsUri, element.children + old(childNodes))) &&
        childNodes == [result.value]
    {
      // Attribute nodes are never child nodes, so every child is to be moved.
      var childrenToMove := childNodes;
      result := AppendElement(element);
      if result.Failure? {
        return;
      }
      var moved := result.value;
      var i := 0;
      while i < |childrenToMove|
        invariant 0 <= i <= |childrenToMove|
        invariant moved == Element(element.name, element.nsUri, element.children + childrenToMove[..i])
        invariant childNodes == childrenToMove[i..] + [moved]
      {
        // appendChild detaches the node, now the parent's first child, and
        // makes it the new element's last child.
        assert childrenToMove[..i + 1] == childrenToMove[..i] + [childrenToMove[i]];
        moved := moved.(children := moved.children + [childrenToMove[i]]);
        childNodes := childNodes[1..|childNodes| - 1] + [moved];
        i := i + 1;
      }
      assert childrenToMove[..i] == childrenToMove;
      result := Success(moved);
    }

    /** selectElementBefore: walks back over the non-element siblings of the
        child at node. */
    method SelectElementBefore(node: nat) returns (sibling: Option<nat>)
      requires node < |childNodes|
      ensures sibling == PrevElementIndex(childNodes, node)
    {
      var i := node;
      while i > 0 && !childNodes[i - 1].Element?
        invariant 0 <= i <= node
        invariant PrevElementIndex(childNodes, i) == PrevElementIndex(childNodes, node)
      {
        i := i - 1;
      }
      sibling := if i > 0 then Some(i - 1) else None;
    }

    /** selectElementAfter: walks forward over the non-element siblings of the
        child at node. */
    method SelectElementAfter(node: nat) returns (sibling: Option<nat>)
      requires node < |childNodes|
      ensures sibling == NextElementIndex(childNodes, node + 1)
    {
      var i := node + 1;
      while i < |childNodes| && !childNodes[i].Element?
        invariant node + 1 <= i <= |childNodes|
        invariant NextElementIndex(childNodes, i) == NextElementIndex(childNodes, node + 1)
      {
        i := i + 1;
      }
      sibling := if i < |childNodes| then Some(i) else None;
    }

    /** selectSuccessorElementFromOrder: the first element child whose name is
        not a predecessor of elementName. (The source walks the list of element
        children; skipping the other children here is the same walk.) */
    method SelectSuccessorElementFromOrder(orderedElementNames: seq<string>, elementName: string)
      returns (successor: Option<nat>)
      ensures successor == FirstElementNotIn(childNodes, Predecessors(orderedElementNames, elementName), 0)
    {
      var predecessors := SelectPredecessors(orderedElementNames, elementName);
      successor := None;
      var i := 0;
      while i < |childNodes|
        invariant 0 <= i <= |childNodes|
        invariant FirstElementNotIn(childNodes, predecessors, i) == FirstElementNotIn(childNodes, predecessors, 0)
      {
        var child := childNodes[i];
        if child.Element? && child.name !in predecessors {
          successor := Some(i);
          break;
        }
        i := i + 1;
      }
    }

    /** children: the child nodes of one node type, in document order. */
    method Children(nodeType: int) returns (result: seq<Node>)
      ensures result == Select(childNodes, OfType(nodeType))
    {
      result := [];
      var i := 0;
      while i < |childNodes|
        invariant 0 <= i <= |childNodes|
        invariant result == Select(childNodes[..i], OfType(nodeType))
      {
        var n := childNodes[i];
        SelectConcat(childNodes[..i], [n], OfType(nodeType));
        assert childNodes[..i + 1] == childNodes[..i] + [n];
        if NodeType(n) == nodeType {
          result := result + [n];
        }
        i := i + 1;
      }
      assert childNodes[..i] == childNodes;
    }

    /** selectChildren without a name: the element children. */
    method SelectChildren() returns (result: seq<Node>)
      ensures result == Select(childNodes, OfType(ELEMENT_NODE))
    {
      result := Children(ELEMENT_NODE);
    }

    /** selectChildren with a name: the element children of that name. */
    method SelectChildrenNamed(elementName: string) returns (result: seq<Node>)
      ensures result == Select(childNodes, ElementNamed(elementName))
    {
      result := [];
      var i := 0;
      while i < |childNodes|
        invariant 0 <= i <= |childNodes|
        invariant result == Select(childNodes[..i], ElementNamed(elementName))
      {
        var n := childNodes[i];
        SelectConcat(childNodes[..i], [n], ElementNamed(elementName));
        assert childNodes[..i + 1] == childNodes[..i] + [n];
        if n.Element? && n.name == elementName {
          result := result + [n];
        }
        i := i + 1;
      }
      assert childNodes[..i] == childNodes;
    }

    /** selectChild: the first element child of that name, or null. */
    method SelectChild(elementName: string) returns (result: Option<Node>)
      ensures result.None? <==> forall j :: 0 <= j < |childNodes| ==> !Matches(childNodes[j], ElementNamed(elementName))
      ensures result.Some? ==>
        |Select(childNodes, ElementNamed(elementName))| > 0 && result.value == Select(childNodes, ElementNamed(elementName))[0]
    {
      var children := SelectChildrenNamed(elementName);
      result := if |children| > 0 then Some(children[0]) else None;
      forall j | 0 <= j < |childNodes|
        ensures result.None? ==> !Matches(childNodes[j], ElementNamed(elementName))
      {
        SelectMembers(childNodes, ElementNamed(elementName), childNodes[j]);
      }
      if result.Some? {
        assert children[0] in children;
        var j :| 0 <= j < |childNodes| && childNodes[j] == children[0];
        assert Matches(childNodes[j], ElementNamed(elementName));
      }
    }
  }

  // ---------------------------------------------------------------------
  // What the order list means for insertElement

  /** The rank of a name: its first position in the order list, |order| when unlisted. */
  function Rank(order: seq<string>, name: string): nat
  {
    FirstIndexOf(order, name)
  }

  /** The element children appear with ranks that never decrease. */
  predicate InCanonicalOrder(cs: seq<Node>, order: seq<string>)
  {
    forall i, j :: 0 <= i < j < |cs| && cs[i].Element? && cs[j].Element? ==>
      Rank(order, cs[i].name) <= Rank(order, cs[j].name)
  }

  /** For a listed name, the new element goes before the first element child
      ranked after it, and every element child in front of it is ranked at or
      before it. */
  lemma OrderedPositionByRank(cs: seq<Node>, order: seq<string>, name: string)
    requires name in order
    ensures var p := OrderedPosition(cs, order, name);
      && (forall j :: 0 <= j < p && cs[j].Element? ==> Rank(order, cs[j].name) <= Rank(order, name))
      && (p < |cs| ==> cs[p].Element? && Rank(order, cs[p].name) > Rank(order, name))
  {
    var p := OrderedPosition(cs, order, name);
    forall j | 0 <= j < p && cs[j].Element?
      ensures Rank(order, cs[j].name) <= Rank(order, name)
    {
      PredecessorsOfListedName(order, name, cs[j].name);
    }
    if p < |cs| {
      PredecessorsOfListedName(order, name, cs[p].name);
    }
  }

  /** insertElement keeps a child list that is in canonical order in
      canonical order; an unlisted name ranks last and lands in front of the
      first unlisted element child, which ranks last as well. */
  lemma InsertElementKeepsCanonicalOrder(cs: seq<Node>, order: seq<string>, e: Node)
    requires e.Element?
    requires InCanonicalOrder(cs, order)
    ensures InCanonicalOrder(InsertAt(cs, OrderedPosition(cs, order, e.name), e), order)
  {
    var p := OrderedPosition(cs, order, e.name);
    var r := InsertAt(cs, p, e);
    if e.name in order {
      OrderedPositionByRank(cs, order, e.name);
    } else {
      OrderedPositionOfUnlistedName(cs, order, e.name);
    }
    assert forall j :: 0 <= j < p && cs[j].Element? ==> Rank(order, cs[j].name) <= Rank(order, e.name);
    assert p < |cs| ==> cs[p].Element? && Rank(order, e.name) <= Rank(order, cs[p].name);
    forall i, j | 0 <= i < j < |r| && r[i].Element? && r[j].Element?
      ensures Rank(order, r[i].name) <= Rank(order, r[j].name)
    {
      InsertAtIndex(cs, p, e, i);
      InsertAtIndex(cs, p, e, j);
      if i == p && j - 1 > p {
        assert Rank(order, cs[p].name) <= Rank(order, cs[j - 1].name);
      }
    }
  }

  /** The node at position i after inserting e at p. */
  lemma InsertAtIndex(cs: seq<Node>, p: nat, e: Node, i: nat)
    requires p <= |cs| && i <= |cs|
    ensures InsertAt(cs, p, e)[i] == if i < p then cs[i] else if i == p then e else cs[i - 1]
  {
  }

  /** When the new name is not listed, every listed name counts as a
      predecessor: the new element goes before the first element child whose
      name is not listed either, and is appended only when every element
      child is listed. */
  lemma OrderedPositionOfUnlistedName(cs: seq<Node>, order: seq<string>, name: string)
    requires name !in order
    ensures var p := OrderedPosition(cs, order, name);
      && (forall j :: 0 <= j < p && cs[j].Element? ==> cs[j].name in order)
      && (p < |cs| ==> cs[p].Element? && cs[p].name !in order)
      && (p == |cs| <==> forall j :: 0 <= j < |cs| && cs[j].Element? ==> cs[j].name in order)
  {
    PredecessorsOfUnlistedName(order, name);
  }

  // ---------------------------------------------------------------------
  // Worked cases

  /** The ordered-insertion case the unit tests use: node2 goes between node1 and node3. */
  lemma InsertElementBetween()
    ensures var cs := [Element("node1", "", []), Element("node3", "", [])];
      InsertAt(cs, OrderedPosition(cs, ["node1", "node2", "node3"], "node2"), Element("node2", "", []))
        == [Element("node1", "", []), Element("node2", "", []), Element("node3", "", [])]
  {
    var cs := [Element("node1", "", []), Element("node3", "", [])];
    var order := ["node1", "node2", "node3"];
    assert order[1] == "node2";
    PredecessorsOfListedName(order, "node2", "node1");
    PredecessorsOfListedName(order, "node2", "node3");
    assert order[2] == "node3" && FirstIndexOf(order, "node3") == 2;
    assert OrderedPosition(cs, order, "node2") == 1;
  }

  /** An unlisted name is inserted in front of an unlisted element child
      rather than appended. */
  lemma InsertUnlistedBeforeUnlisted()
    ensures var cs := [Element("a", "", []), Element("x", "", []), Element("c", "", [])];
      OrderedPosition(cs, ["a", "b", "c"], "d") == 1
  {
    var cs := [Element("a", "", []), Element("x", "", []), Element("c", "", [])];
    OrderedPositionOfUnlistedName(cs, ["a", "b", "c"], "d");
    assert cs[0].name in ["a", "b", "c"];
  }

  /** The predecessors of node3 in node1..node4 are node1, node2 and node3. */
  lemma PredecessorsOfNode3()
    ensures Predecessors(["node1", "node2", "node3", "node4"], "node3") == {"node1", "node2", "node3"}
  {
    var order := ["node1", "node2", "node3", "node4"];
    assert FirstIndexOf(order, "node3") == 2;
    assert Predecessors(order, "node3") == {order[0], order[1], order[2]};
  }

  /** The successor of element2 among element1..element4, ordered alike, is element3. */
  lemma SuccessorOfElement2()
    ensures var cs := [Element("element1", "", []), Element("element2", "", []), Element("element3", "", []), Element("element4", "", [])];
      FirstElementNotIn(cs, Predecessors(["element1", "element2", "element3", "element4"], "element2"), 0) == Some(2)
  {
    var order := ["element1", "element2", "element3", "element4"];
    assert order[1] == "element2";
    PredecessorsOfListedName(order, "element2", "element1");
    PredecessorsOfListedName(order, "element2", "element3");
    assert order[2] == "element3" && FirstIndexOf(order, "element3") == 2;
  }
}
