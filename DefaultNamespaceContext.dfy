/** DefaultNamespaceContext: a fixed prefix <-> namespace URI table with the
    xmlns namespace as the answer for the empty prefix. A Java null argument
    or result is None. */
module DefaultNamespaceContext {
  import opened Wrappers

  const NAMESPACE_XS: string := "http://www.w3.org/2001/XMLSchema"
  const NAMESPACE_XML: string := "http://www.w3.org/XML/1998/namespace"
  const NAMESPACE_XMLNS: string := "http://www.w3.org/2000/xmlns/"
  const NAMESPACE_HTML: string := "http://www.w3.org/1999/xhtml"

  const NAMESPACE_ALIAS_XS: string := "xs"
  const NAMESPACE_ALIAS_XML: string := "xml"
  const NAMESPACE_ALIAS_XMLNS: string := "xmlns"
  const NAMESPACE_ALIAS_HTML: string := "html"

  const DEFAULT_NS: string := NAMESPACE_XMLNS

  /** The entries of the alias map, in the order the static initializer puts them. */
  const AliasEntries: seq<(string, string)> := [
    (NAMESPACE_ALIAS_HTML, NAMESPACE_HTML),
    (NAMESPACE_ALIAS_XML, NAMESPACE_XML),
    (NAMESPACE_ALIAS_XMLNS, NAMESPACE_XMLNS),
    (NAMESPACE_ALIAS_XS, NAMESPACE_XS)
  ]

  /** The alias map: prefix to namespace URI. */
  const Alias: map<string, string> := map[
    NAMESPACE_ALIAS_HTML := NAMESPACE_HTML,
    NAMESPACE_ALIAS_XML := NAMESPACE_XML,
    NAMESPACE_ALIAS_XMLNS := NAMESPACE_XMLNS,
    NAMESPACE_ALIAS_XS := NAMESPACE_XS
  ]

  /** The static initializer's loop over the alias entries: the list of a URI
      is created when the URI is met first, and the alias is added to it. */
  function AddAliases(table: map<string, seq<string>>, entries: seq<(string, string)>): (r: map<string, seq<string>>)
    ensures forall u :: u in r <==> u in table || exists i :: 0 <= i < |entries| && entries[i].1 == u
    decreases |entries|
  {
    if entries == [] then table
    else
      var (a, u) := entries[0];
      var list := if u in table then table[u] else [];
      var r := AddAliases(table[u := list + [a]], entries[1..]);
      assert forall i :: 0 < i < |entries| ==> entries[i] == entries[1..][i - 1];
      r
  }

  /** The reverse map: namespace URI to the list of its aliases. */
  const Uri: map<string, seq<string>> := AddAliases(map[], AliasEntries)

  /** Each of the four URIs has exactly its own alias; no other URI has a list. */
  lemma UriTableContents()
    ensures Uri == map[
      NAMESPACE_HTML := [NAMESPACE_ALIAS_HTML],
      NAMESPACE_XML := [NAMESPACE_ALIAS_XML],
      NAMESPACE_XMLNS := [NAMESPACE_ALIAS_XMLNS],
      NAMESPACE_XS := [NAMESPACE_ALIAS_XS]
    ]
  {
    var e := AliasEntries;
    var t0: map<string, seq<string>> := map[];
    var nil: seq<string> := [];
    var t1 := map[NAMESPACE_HTML := [NAMESPACE_ALIAS_HTML]];
    var t2 := t1[NAMESPACE_XML := [NAMESPACE_ALIAS_XML]];
    var t3 := t2[NAMESPACE_XMLNS := [NAMESPACE_ALIAS_XMLNS]];
    var t4 := t3[NAMESPACE_XS := [NAMESPACE_ALIAS_XS]];
    assert e[0] == (NAMESPACE_ALIAS_HTML, NAMESPACE_HTML) && NAMESPACE_HTML !in t0;
    assert AddAliases(map[], e) == AddAliases(t1, e[1..]) by {
      assert nil + [NAMESPACE_ALIAS_HTML] == [NAMESPACE_ALIAS_HTML];
      assert t0[NAMESPACE_HTML := nil + [NAMESPACE_ALIAS_HTML]] == t1;
    }
    assert e[1..][0] == (NAMESPACE_ALIAS_XML, NAMESPACE_XML) && NAMESPACE_XML !in t1;
    assert AddAliases(t1, e[1..]) == AddAliases(t2, e[2..]) by {
      assert e[1..][1..] == e[2..];
      assert nil + [NAMESPACE_ALIAS_XML] == [NAMESPACE_ALIAS_XML];
      assert t1[NAMESPACE_XML := nil + [NAMESPACE_ALIAS_XML]] == t2;
    }
    assert e[2..][0] == (NAMESPACE_ALIAS_XMLNS, NAMESPACE_XMLNS) && NAMESPACE_XMLNS !in t2;
    assert AddAliases(t2, e[2..]) == AddAliases(t3, e[3..]) by {
      assert e[2..][1..] == e[3..];
      assert nil + [NAMESPACE_ALIAS_XMLNS] == [NAMESPACE_ALIAS_XMLNS];
      assert t2[NAMESPACE_XMLNS := nil + [NAMESPACE_ALIAS_XMLNS]] == t3;
    }
    assert e[3..][0] == (NAMESPACE_ALIAS_XS, NAMESPACE_XS) && NAMESPACE_XS !in t3;
    assert AddAliases(t3, e[3..]) == AddAliases(t4, e[4..]) by {
      assert e[3..][1..] == e[4..];
      assert nil + [NAMESPACE_ALIAS_XS] == [NAMESPACE_ALIAS_XS];
      assert t3[NAMESPACE_XS := nil + [NAMESPACE_ALIAS_XS]] == t4;
    }
    assert e[4..] == [];
  }

  /** getNamespaceURI: the empty or null prefix gives DEFAULT_NS; otherwise the
      alias map is looked up, and an unknown prefix gives null. */
  function GetNamespaceURI(prefix: Option<string>): (r: Option<string>)
    ensures prefix == None || prefix == Some("") ==> r == Some(DEFAULT_NS)
    ensures prefix == Some(NAMESPACE_ALIAS_HTML) ==> r == Some(NAMESPACE_HTML)
    ensures prefix == Some(NAMESPACE_ALIAS_XML) ==> r == Some(NAMESPACE_XML)
    ensures prefix == Some(NAMESPACE_ALIAS_XMLNS) ==> r == Some(NAMESPACE_XMLNS)
    ensures prefix == Some(NAMESPACE_ALIAS_XS) ==> r == Some(NAMESPACE_XS)
    ensures prefix.Some? && prefix.value !in {"", NAMESPACE_ALIAS_HTML, NAMESPACE_ALIAS_XML, NAMESPACE_ALIAS_XMLNS, NAMESPACE_ALIAS_XS}
      ==> r == None
  {
    match prefix
    case None => Some(DEFAULT_NS)
    case Some(p) => if p == "" then Some(DEFAULT_NS) else if p in Alias then Some(Alias[p]) else None
  }

  /** getPrefixes: the aliases bound to the URI; empty for an unknown or null URI. */
  function GetPrefixes(namespaceURI: Option<string>): (r: seq<string>)
    ensures forall a :: a in r <==> namespaceURI.Some? && a in Alias && Alias[a] == namespaceURI.value
    ensures namespaceURI.Some? && namespaceURI.value in Alias.Values ==> |r| == 1
  {
    UriTableContents();
    match namespaceURI
    case None => []
    case Some(u) => if u in Uri then Uri[u] else []
  }

  /** getPrefix: the first of getPrefixes, or null when there is none. */
  function GetPrefix(namespaceURI: Option<string>): (r: Option<string>)
    ensures r.Some? <==> namespaceURI.Some? && namespaceURI.value in Alias.Values
    ensures r.Some? ==> r.value in Alias && Alias[r.value] == namespaceURI.value
  {
    var prefixes := GetPrefixes(namespaceURI);
    assert |prefixes| > 0 ==> prefixes[0] in prefixes;
    if |prefixes| > 0 then Some(prefixes[0]) else None
  }

  /** Alias -> URI -> alias is the identity on the four aliases. */
  lemma PrefixRoundTrip(a: string)
    requires a in Alias
    ensures GetPrefix(GetNamespaceURI(Some(a))) == Some(a)
  {
  }

  /** URI -> alias -> URI is the identity on the four URIs. */
  lemma NamespaceURIRoundTrip(u: string)
    requires u in Alias.Values
    ensures GetNamespaceURI(GetPrefix(Some(u))) == Some(u)
  {
  }

  /** The default namespace for the empty prefix is the xmlns namespace, whose
      own prefix is "xmlns". */
  lemma DefaultNamespaceIsXmlns()
    ensures GetNamespaceURI(None) == GetNamespaceURI(Some("")) == Some(NAMESPACE_XMLNS)
    ensures GetPrefix(GetNamespaceURI(None)) == Some(NAMESPACE_ALIAS_XMLNS)
  {
    UriTableContents();
  }
}
