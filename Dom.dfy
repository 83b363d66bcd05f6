/** The part of the W3C DOM that the sibling helpers of DomUtils observe:
    node values with a type code, a node name and (for elements) a namespace
    URI and an ordered list of child nodes, plus the exceptions the helpers
    raise and the two commons-lang string tests they rely on. */
module Dom {

  /** Node type codes of org.w3c.dom.Node. */
  const ELEMENT_NODE: int := 1
  const TEXT_NODE: int := 3
  const CDATA_SECTION_NODE: int := 4
  const COMMENT_NODE: int := 8

  /** A node as a value. The empty namespace URI stands for a null one (both
      are blank). Attribute nodes never appear among child nodes in the DOM,
      so they are not a case here. */
  datatype Node =
    | Element(name: string, nsUri: string, children: seq<Node>)
    | Text(data: string)
    | Comment(data: string)
    | CData(data: string)

  /** Node.getNodeType(). */
  function NodeType(n: Node): (t: int)
    ensures t == ELEMENT_NODE <==> n.Element?
    ensures t in {ELEMENT_NODE, TEXT_NODE, CDATA_SECTION_NODE, COMMENT_NODE}
  {
    match n
    case Element(_, _, _) => ELEMENT_NODE
    case Text(_) => TEXT_NODE
    case Comment(_) => COMMENT_NODE
    case CData(_) => CDATA_SECTION_NODE
  }

  /** Node.getNodeName(): the tag name of an element, a fixed '#'-name otherwise. */
  function NodeName(n: Node): string
  {
    match n
    case Element(name, _, _) => name
    case Text(_) => "#text"
    case Comment(_) => "#comment"
    case CData(_) => "#cdata-section"
  }

  /** The unchecked exceptions the modelled helpers throw. */
  datatype DomError =
    | NamespaceMix                                // IllegalArgumentException of enforceNoNamespaceMixes
    | MoreThanOneMatch(xpath: string, size: nat)  // IllegalArgumentException of selectNode
    | TooManyNamespaceContexts                    // IllegalStateException of fromNamespaceContextList

  /** java.lang.Character.isWhitespace: the ASCII controls TAB..CR and FS..US,
      and the Unicode space, line and paragraph separators other than the
      no-break spaces U+00A0, U+2007 and U+202F. */
  predicate JavaWhitespace(c: char)
  {
    ('\t' <= c <= '\r') || ('\U{1C}' <= c <= ' ')
    || c == '\U{1680}' || ('\U{2000}' <= c <= '\U{2006}') || ('\U{2008}' <= c <= '\U{200A}')
    || c == '\U{2028}' || c == '\U{2029}' || c == '\U{205F}' || c == '\U{3000}'
  }

  /** StringUtils.isBlank: null (here "") or only whitespace. */
  predicate IsBlank(s: string)
  {
    forall i :: 0 <= i < |s| ==> JavaWhitespace(s[i])
  }

  /** Lower-casing of the ASCII letters A-Z; every other character is kept. */
  function AsciiLowerChar(c: char): (d: char)
    ensures 'A' <= c <= 'Z' ==> 'a' <= d <= 'z' && d as int == c as int + 32
    ensures !('A' <= c <= 'Z') ==> d == c
  {
    if 'A' <= c <= 'Z' then (c as int + 32) as char else c
  }

  function AsciiLower(s: string): (r: string)
    ensures |r| == |s|
    ensures forall i :: 0 <= i < |s| ==> r[i] == AsciiLowerChar(s[i])
  {
    seq(|s|, i requires 0 <= i < |s| => AsciiLowerChar(s[i]))
  }

  /** StringUtils.equalsIgnoreCase on two non-null strings: same length, and
      equal character by character once ASCII letters are lower-cased. */
  predicate EqualsIgnoreCase(a: string, b: string)
  {
    AsciiLower(a) == AsciiLower(b)
  }
}
