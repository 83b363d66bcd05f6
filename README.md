# commons-xml DomUtils: sibling-list helpers and the default namespace table

This project models, in Dafny, the parts of `DomUtils` with logic of their own,
plus the fixed namespace table `DefaultNamespaceContext`:

- ordered insertion: `selectPredecessors`, `selectSuccessorElementFromOrder`
  and `insertElement`, which put a new element among its siblings according
  to a caller-supplied list of element names;
- the positional helpers `appendElement`, `insertElementBefore`,
  `insertElementAfter`, `insertElementAsFirst`, `squeezeInElement`,
  `selectElementBefore` and `selectElementAfter`;
- the child filters `children`, `selectChildren` (with and without a name)
  and `selectChild`, and the recursive `renameAll`;
- the guards `enforceNoNamespaceMixes`, the zero/one/many rule of
  `selectNode` and `fromNamespaceContextList`;
- `createXMLDeclarationString` and the trailing-newline strip of `asXml`;
- `DefaultNamespaceContext`: its constant tables, `getNamespaceURI`,
  `getPrefixes` and `getPrefix`.

Modules: `Wrappers` (Option, Result, Outcome for null and exceptions), `Dom`
(node values, DOM type codes and names, `StringUtils.isBlank`,
`equalsIgnoreCase`), `DomGuards`, `DomUtils` (the sibling helpers),
`DomRename`, `XmlDeclaration` and `DefaultNamespaceContext`.

The parent whose child list the helpers change in place is the class
`DomUtils.ParentElement`, with the field `childNodes: seq<Node>`. Each helper
is a method with `modifies this`childNodes`. Its `ensures` gives the new child
list in terms of the old one: `InsertAt(old(childNodes), p, e)` for a position
`p` fixed by a specification function (`OrderedPosition`, `AfterPosition`,
`NextElementIndex`). Lemmas next to these functions state what the positions
mean. Children are node values, so a reference to a sibling is its index in
the list. The element a helper inserts is the copy that `importNode` makes,
and as a value that copy is the argument itself.

Points where the behaviour of the code is easy to misread, and where it
differs from its own Javadoc (the model follows the code in each case):

- A name missing from the order list is not simply appended. Every listed
  name then counts as a predecessor. The new element goes before the first
  element child whose name is not listed either
  (`OrderedPositionOfUnlistedName`, `InsertUnlistedBeforeUnlisted`).
- The new element follows every element child ranked at or before it only
  when the element children are already in canonical order. Insertion keeps
  a list in canonical order (`InsertElementKeepsCanonicalOrder`).
- `createXMLDeclarationString` returns a declaration when
  `omit-xml-declaration` is `yes`, and returns "" when that property has any
  other value. This looks reversed, but the code's own unit test expects it,
  so the model does the same.
- The Javadoc of `getNamespaceURI` (DefaultNamespaceContext.java:67) promises
  the default namespace for a prefix that is not found. The code
  (DefaultNamespaceContext.java:72) gives the default namespace only for a
  null or empty prefix, and null for any other unknown prefix
  (`GetNamespaceURI`).
- The Javadoc of `renameAll` (DomUtils.java:1596) speaks of elements or
  attributes. The walk follows `getChildNodes`, which never holds attribute
  nodes, so only elements are renamed. A matching text, comment or CDATA node
  stops the walk (`RenameAllCompletes`).

## Model

| member | source | states |
|---|---|---|
| `DomGuards.EnforceNoNamespaceMixes` | src/main/java/com/dataliquid/commons/xml/DomUtils.java:1181-1187 | fails, with the namespace-mix error, exactly when one URI is blank and the other is not |
| `DomGuards.EnforceNoNamespaceMixesSymmetric` | src/main/java/com/dataliquid/commons/xml/DomUtils.java:1181-1187 | the guard gives the same answer with the two nodes swapped |
| `DomGuards.SelectNode` | src/main/java/com/dataliquid/commons/xml/DomUtils.java:651-664 | succeeds iff there are at most 1 matches; no match gives null, one match gives that node, more than one gives the error carrying the xpath and the count |
| `DomGuards.FromNamespaceContextList` | src/main/java/com/dataliquid/commons/xml/DomUtils.java:1836-1848 | succeeds iff there is at most 1 context; none gives null, one gives that context, more than one gives the illegal-state error |
| `DomUtils.FirstIndexOf` | src/main/java/com/dataliquid/commons/xml/DomUtils.java:1817-1824 | the position of the first occurrence of the name in the order list, or its length when absent; no earlier entry equals the name |
| `DomUtils.PredecessorCount` | src/main/java/com/dataliquid/commons/xml/DomUtils.java:1817-1824 | how many leading entries the loop collects: up to and including the first occurrence, or the whole list when the name is absent |
| `DomUtils.SelectPredecessors` | src/main/java/com/dataliquid/commons/xml/DomUtils.java:1814-1826 | the loop with `break` returns exactly the names `order[0..k]`, where k is the first occurrence of the name, or all names when it is absent |
| `DomUtils.PredecessorsOfListedName` | src/main/java/com/dataliquid/commons/xml/DomUtils.java:1814-1826 | a listed name is its own predecessor; x is a predecessor iff x is listed and first occurs no later than the name |
| `DomUtils.PredecessorsOfUnlistedName` | src/main/java/com/dataliquid/commons/xml/DomUtils.java:1817-1824 | for an unlisted name the predecessor set is every name of the order list |
| `DomUtils.PredecessorsOfNode3` | src/test/java/com/dataliquid/commons/xml/DomUtilsTest.java:1643-1654 | the predecessors of node3 in node1..node4 are exactly node1, node2, node3 |
| `DomUtils.FirstElementNotIn` | src/main/java/com/dataliquid/commons/xml/DomUtils.java:1793-1800 | the first element child in document order whose name is not in the set, never a text/comment/CDATA node; none iff every element child's name is in the set |
| `DomUtils.ParentElement.SelectSuccessorElementFromOrder` | src/main/java/com/dataliquid/commons/xml/DomUtils.java:1788-1802 | the first-match loop returns the first element child whose name is not a predecessor of the new name, or none |
| `DomUtils.SuccessorOfElement2` | src/test/java/com/dataliquid/commons/xml/DomUtilsTest.java:1625-1640 | among element1..element4 ordered alike, the successor of element2 is element3 |
| `DomUtils.OrderedPosition` | src/main/java/com/dataliquid/commons/xml/DomUtils.java:413-418 | the insertion point: every element child before it is a predecessor, and the child at it (if any) is an element that is not |
| `DomUtils.ParentElement.InsertElement` | src/main/java/com/dataliquid/commons/xml/DomUtils.java:413-418 | on a namespace mix it fails and leaves the children unchanged; otherwise the new list is the old one with the element inserted before the successor, or appended when there is none |
| `DomUtils.OrderedPositionByRank` | src/main/java/com/dataliquid/commons/xml/DomUtils.java:1788-1826 | for a listed name, the element goes before the first element child ranked after it, and every element child in front of it is ranked at or before it |
| `DomUtils.InsertElementKeepsCanonicalOrder` | src/main/java/com/dataliquid/commons/xml/DomUtils.java:413-418 | inserting into element children already in canonical order leaves them in canonical order, for a listed and for an unlisted name |
| `DomUtils.OrderedPositionOfUnlistedName` | src/main/java/com/dataliquid/commons/xml/DomUtils.java:1814-1826 | an unlisted name goes before the first element child whose name is also unlisted; it is appended iff every element child is listed |
| `DomUtils.InsertUnlistedBeforeUnlisted` | src/main/java/com/dataliquid/commons/xml/DomUtils.java:1817-1824 | children a, x, c with order a, b, c: the unlisted d goes to position 1, before x, not to the end |
| `DomUtils.InsertElementBetween` | src/test/java/com/dataliquid/commons/xml/DomUtilsTest.java:344-361 | node2 inserted under node1, node3 with order node1..node3 gives node1, node2, node3 |
| `DomUtils.InsertAt` | src/main/java/com/dataliquid/commons/xml/DomUtils.java:452-458 | the list grows by one, the new node is at the insertion point, and the nodes before and after it are the former ones |
| `DomUtils.InsertAtKeepsOthers` | src/main/java/com/dataliquid/commons/xml/DomUtils.java:452-458 | removing the inserted node gives back the former list, so every former child keeps its relative order |
| `DomUtils.ParentElement.AppendElement` | src/main/java/com/dataliquid/commons/xml/DomUtils.java:393-399 | fails and changes nothing on a namespace mix; otherwise the element becomes the last child |
| `DomUtils.ParentElement.InsertElementBefore` | src/main/java/com/dataliquid/commons/xml/DomUtils.java:452-458 | fails and changes nothing on a namespace mix with the parent; otherwise the element is inserted directly before the given child |
| `DomUtils.AfterPosition` | src/main/java/com/dataliquid/commons/xml/DomUtils.java:469-483 | the insertion point lies after the given child, past only non-element nodes, and is an element sibling or the end of the list |
| `DomUtils.ParentElement.InsertElementAfter` | src/main/java/com/dataliquid/commons/xml/DomUtils.java:469-483 | fails and changes nothing on a namespace mix; otherwise the element goes before the next element sibling of the given child, or at the end |
| `DomUtils.ParentElement.InsertElementAsFirst` | src/main/java/com/dataliquid/commons/xml/DomUtils.java:430-441 | with no element child it appends without the namespace check; otherwise it checks namespaces and inserts directly before the first element child, so leading non-element nodes stay in front |
| `DomUtils.SelectElementsEmpty` | src/main/java/com/dataliquid/commons/xml/DomUtils.java:432-433 | the element-children list is empty iff no child is an element |
| `DomUtils.ParentElement.SqueezeInElement` | src/main/java/com/dataliquid/commons/xml/DomUtils.java:532-553 | fails and changes nothing on a namespace mix; otherwise the parent's only child is the new element, whose children are its own followed by all former children of the parent in order |
| `DomUtils.PrevElementIndex` | src/main/java/com/dataliquid/commons/xml/DomUtils.java:493-501 | the nearest element before a position, with only non-elements between; none iff no element precedes it |
| `DomUtils.ParentElement.SelectElementBefore` | src/main/java/com/dataliquid/commons/xml/DomUtils.java:493-501 | the backward sibling walk returns the nearest preceding element sibling, or none |
| `DomUtils.NextElementIndex` | src/main/java/com/dataliquid/commons/xml/DomUtils.java:511-519 | the nearest element at or after a position, with only non-elements before it; none iff there is no such element |
| `DomUtils.ParentElement.SelectElementAfter` | src/main/java/com/dataliquid/commons/xml/DomUtils.java:511-519 | the forward sibling walk returns the nearest following element sibling, or none |
| `DomUtils.Select` | src/main/java/com/dataliquid/commons/xml/DomUtils.java:1078-1092 | a filter returns no more nodes than the list, and every node it returns is a matching child |
| `DomUtils.SelectMembers` | src/main/java/com/dataliquid/commons/xml/DomUtils.java:1084-1090 | a node is in the filtered list iff it is a child and matches |
| `DomUtils.SelectConcat` | src/main/java/com/dataliquid/commons/xml/DomUtils.java:1078-1092 | filtering distributes over concatenation, so the kept nodes stay in document order |
| `DomUtils.ParentElement.Children` | src/main/java/com/dataliquid/commons/xml/DomUtils.java:1078-1092 | the loop returns the child nodes of the given type in document order |
| `DomUtils.ParentElement.SelectChildren` | src/main/java/com/dataliquid/commons/xml/DomUtils.java:1489-1492 | the element children in document order |
| `DomUtils.ParentElement.SelectChildrenNamed` | src/main/java/com/dataliquid/commons/xml/DomUtils.java:1466-1479 | the loop returns the element children with that name in document order |
| `DomUtils.ParentElement.SelectChild` | src/main/java/com/dataliquid/commons/xml/DomUtils.java:1450-1454 | the first element child with that name; null iff no child matches |
| `DomRename.RenameAll` | src/main/java/com/dataliquid/commons/xml/DomUtils.java:1606-1616 | a node keeps its kind; an element whose name equals the old name ignoring case is named to, any other element keeps its name, also when the walk stops below it |
| `DomRename.RenameChildren` | src/main/java/com/dataliquid/commons/xml/DomUtils.java:1612-1615 | the walk over a child list returns as many children as it was given |
| `DomRename.FirstFailure` | src/main/java/com/dataliquid/commons/xml/DomUtils.java:1612-1615 | the first child whose walk stops; every child before it completes |
| `DomRename.RenameAllIsRelabel` | src/main/java/com/dataliquid/commons/xml/DomUtils.java:1596-1616 | a completed walk renames every matching element to the new name and leaves everything else: it equals the reference renaming |
| `DomRename.RenameChildrenIsRelabel` | src/main/java/com/dataliquid/commons/xml/DomUtils.java:1612-1615 | the same for each child of a completed walk over a child list |
| `DomRename.RenameChildrenStopsAtFailure` | src/main/java/com/dataliquid/commons/xml/DomUtils.java:1612-1615 | children before the first failing one are renamed as the reference does, the failing one is walked into, later ones are left as they were; the walk completes iff no child fails |
| `DomRename.RenameAllCompletes` | src/main/java/com/dataliquid/commons/xml/DomUtils.java:1606-1616 | the rename runs to its end iff no text, comment or CDATA node has the old name ignoring case (otherwise renameNode throws) |
| `DomRename.RenameChildrenCompletes` | src/main/java/com/dataliquid/commons/xml/DomUtils.java:1612-1615 | the walk over a child list runs to its end iff no child subtree holds such a node |
| `DomRename.RenameAllKeepsShape` | src/main/java/com/dataliquid/commons/xml/DomUtils.java:1606-1616 | only element names change: structure, namespace URIs and non-element nodes stay, also when the walk stops early |
| `DomRename.RenameChildrenKeepsShape` | src/main/java/com/dataliquid/commons/xml/DomUtils.java:1612-1615 | the same for a list of children |
| `DomRename.RenameAllRemovesName` | src/main/java/com/dataliquid/commons/xml/DomUtils.java:1606-1616 | after a completed rename to a different name, no node of the tree has the old name |
| `DomRename.RenameChildrenRemovesName` | src/main/java/com/dataliquid/commons/xml/DomUtils.java:1612-1615 | the same for every child of a list |
| `DomRename.RenameAllUnmentioned` | src/main/java/com/dataliquid/commons/xml/DomUtils.java:1606-1616 | a tree without the old name is returned unchanged and the walk completes |
| `DomRename.RenameChildrenUnmentioned` | src/main/java/com/dataliquid/commons/xml/DomUtils.java:1612-1615 | the same for a list of children |
| `DomRename.RenameAllIdempotent` | src/main/java/com/dataliquid/commons/xml/DomUtils.java:1606-1616 | running a completed rename again changes nothing |
| `DomRename.RenameAllOfTestTree` | src/test/java/com/dataliquid/commons/xml/DomUtilsTest.java:1374-1393 | both "from" children of root become "to" and keep their text |
| `XmlDeclaration.GetProperty` | src/main/java/com/dataliquid/commons/xml/DomUtils.java:1357-1380 | the stored value of a property when it is set, the given default otherwise |
| `XmlDeclaration.TrimStart` | src/main/java/com/dataliquid/commons/xml/DomUtils.java:1360-1373 | the leading part removed by `trim` consists only of characters up to U+0020, and what remains starts with a later character |
| `XmlDeclaration.TrimEnd` | src/main/java/com/dataliquid/commons/xml/DomUtils.java:1360-1373 | the trailing part removed by `trim` consists only of characters up to U+0020, and what remains ends with a later character |
| `XmlDeclaration.CreateXmlDeclarationString` | src/main/java/com/dataliquid/commons/xml/DomUtils.java:1355-1383 | non-empty iff indent is present and is "yes", and omit-xml-declaration is absent or "yes" (trimmed, case ignored); then it is the declaration with version (default 1.0) and encoding (default UTF-8) |
| `XmlDeclaration.IsYes` | src/main/java/com/dataliquid/commons/xml/DomUtils.java:1360-1373 | `trim().toLowerCase().equals("yes")` holds iff the value is y, e, s in either case with only characters up to U+0020 around them |
| `XmlDeclaration.Declaration` | src/main/java/com/dataliquid/commons/xml/DomUtils.java:1381 | the declaration text: the version sits between `<?xml version="` and `" encoding="`, the encoding between that and `"?>` |
| `XmlDeclaration.IndexOfQuote` | src/main/java/com/dataliquid/commons/xml/DomUtils.java:1381 | helper of the read-back used in `DeclarationRoundTrip`: the first double quote in a text, with none before it, or the text length |
| `XmlDeclaration.DeclarationRoundTrip` | src/main/java/com/dataliquid/commons/xml/DomUtils.java:1381 | reading a declaration back gives its version and encoding, when neither contains a double quote |
| `XmlDeclaration.CreatedDeclarationRoundTrip` | src/main/java/com/dataliquid/commons/xml/DomUtils.java:1379-1381 | a produced declaration reads back as the given or default version and encoding |
| `XmlDeclaration.DeclarationOfTestProperties` | src/test/java/com/dataliquid/commons/xml/DomUtilsTest.java:1164-1179 | indent yes, omit yes, ISO8859-15, 1.2 give `<?xml version="1.2" encoding="ISO8859-15"?>` |
| `XmlDeclaration.StripIndentNewline` | src/main/java/com/dataliquid/commons/xml/DomUtils.java:1339-1342 | the text changes iff indenting is on and it ends in a newline, and then exactly that one newline goes |
| `XmlDeclaration.StripUndoesAppendedNewline` | src/main/java/com/dataliquid/commons/xml/DomUtils.java:1336-1342 | the strip removes exactly one newline appended to indented output; without indent, nothing changes |
| `DefaultNamespaceContext.AddAliases` | src/main/java/com/dataliquid/commons/xml/ns/DefaultNamespaceContext.java:53-60 | the initializer loop gives a list to exactly the URIs of the entries, plus any already in the table |
| `DefaultNamespaceContext.UriTableContents` | src/main/java/com/dataliquid/commons/xml/ns/DefaultNamespaceContext.java:46-61 | the reverse table maps each of the four URIs to the one-element list of its alias, and has no other key |
| `DefaultNamespaceContext.GetNamespaceURI` | src/main/java/com/dataliquid/commons/xml/ns/DefaultNamespaceContext.java:70-73 | a null or empty prefix gives the xmlns namespace; html, xml, xmlns, xs give their fixed URIs; any other prefix gives null |
| `DefaultNamespaceContext.GetPrefixes` | src/main/java/com/dataliquid/commons/xml/ns/DefaultNamespaceContext.java:95-99 | exactly the aliases bound to the URI: one for each known URI, none for an unknown or null URI |
| `DefaultNamespaceContext.GetPrefix` | src/main/java/com/dataliquid/commons/xml/ns/DefaultNamespaceContext.java:82-86 | an alias is returned iff the URI is one of the four, and that alias is bound to it |
| `DefaultNamespaceContext.PrefixRoundTrip` | src/main/java/com/dataliquid/commons/xml/ns/DefaultNamespaceContext.java:70-86 | for each of the four aliases, getPrefix(getNamespaceURI(a)) is a |
| `DefaultNamespaceContext.NamespaceURIRoundTrip` | src/main/java/com/dataliquid/commons/xml/ns/DefaultNamespaceContext.java:70-86 | for each of the four URIs, getNamespaceURI(getPrefix(u)) is u |
| `DefaultNamespaceContext.DefaultNamespaceIsXmlns` | src/main/java/com/dataliquid/commons/xml/ns/DefaultNamespaceContext.java:33-41 | the default for the null and the empty prefix is the xmlns namespace, whose prefix is "xmlns" |

## Left out

- Parsing (`parse*`, `parseResource`), `createDocument` and `createElement`: these are JAXP document-builder calls and file, stream and class-path I/O.
- XPath compilation and evaluation (`selectNodes`, `selectString(s)`, `selectInteger`, `selectBoolean`, `exists`, `iterate`, `evaluateXpath`, `delete` by XPath): these call the Saxon XPath engine. `DomGuards.SelectNode` receives the match list as a parameter.
- Serialisation (`write`, `asXml`, `dump`) and `cloneElement` / `cloneDocument`: these are Saxon transformer output and console printing. The `synchronized (node)` lock is concurrency. Only the declaration string and the newline strip are modelled.
- `validate`: JAXP schema validation, with exceptions swallowed into `false`.
- `importNode`, owner documents and detaching a node from its old parent: the inserted node is a value copy of the argument. `insertElementAsFirst` inserts its argument without importing it, so the DOM's wrong-document error for a node of another document is not modelled.
- Document nodes as parents: `ParentElement` is an element. The `(Element) parent` cast of `insertElement`, which fails for a document, is not modelled. Neither are the DOM's hierarchy rules for documents.
- Accessors with no logic of their own (`getAttribute`, `setAttribute`, `renameNode`, `addNamespace`, `copyAttributes`, `copyChildren`, `append*Text/CDATA/Comment`, `isType` and the other type tests, `isNodeName`, `hasNamespace`) and `XpathException`, which is only an exception class.
- `DomRename.RenameAll`: works on values, not in place. The walk is pre-order and stops at the first failing node, so the partial result is modelled. The DOM's name checks (invalid-character and namespace errors for a bad new name) and the parser-specific case where `renameNode` replaces the element with a new node are not modelled.
- `Dom.EqualsIgnoreCase`: folds ASCII letters only. Java's `equalsIgnoreCase` also folds non-ASCII letters, so `renameAll` matches more names in Java than in the model.
- `XmlDeclaration.IsYes`: lower-cases ASCII letters only. This is still exact for the comparison with "yes", because no non-ASCII character lower-cases to `y`, `e` or `s`. Property defaults of `java.util.Properties` and values that are not strings are not modelled.
- `Dom.JavaWhitespace`: follows the Unicode tables of current Java releases. In these, U+180E is no longer a space separator.
- `DefaultNamespaceContext.GetPrefixes`: returns a sequence where Java returns an iterator. The iteration order of the Java `HashMap` in the static initializer is not modelled. It cannot matter here, because each URI has exactly one alias.
