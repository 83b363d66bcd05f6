/** The argument checks of DomUtils: the namespace-mix guard of the insertion
    helpers and the zero-one-many cardinality rules of selectNode and
    fromNamespaceContextList. */
module DomGuards {
  import opened Wrappers
  import opened Dom

  /** enforceNoNamespaceMixes: refuses to combine a node whose namespace URI is
      blank with one whose namespace URI is not. */
  function EnforceNoNamespaceMixes(uri1: string, uri2: string): (r: Outcome<DomError>)
    ensures r.Fail? <==> (IsBlank(uri1) && !IsBlank(uri2)) || (!IsBlank(uri1) && IsBlank(uri2))
    ensures r.Fail? ==> r.error == NamespaceMix
  {
    if IsBlank(uri1) != IsBlank(uri2) then Fail(NamespaceMix) else Pass
  }

  /** The guard does not depend on which node is the parent. */
  lemma EnforceNoNamespaceMixesSymmetric(uri1: string, uri2: string)
    ensures EnforceNoNamespaceMixes(uri1, uri2) == EnforceNoNamespaceMixes(uri2, uri1)
  {
  }

  /** selectNode, after the XPath evaluation: no match gives null, one match
      gives that node, more than one throws. */
  function SelectNode<T>(matches: seq<T>, xpath: string): (r: Result<Option<T>, DomError>)
    ensures r.Success? <==> |matches| <= 1
    ensures r == Success(None) <==> matches == []
    ensures (r.Success? && r.value.Some?) <==> |matches| == 1
    ensures |matches| == 1 ==> r.value.value == matches[0]
    ensures r.Failure? ==> r.error == MoreThanOneMatch(xpath, |matches|)
  {
    if |matches| == 1 then Success(Some(matches[0]))
    else if |matches| > 1 then Failure(MoreThanOneMatch(xpath, |matches|))
    else Success(None)
  }

  /** fromNamespaceContextList: no context gives null, one context is passed
      through, more than one throws. */
  function FromNamespaceContextList<T>(contexts: seq<T>): (r: Result<Option<T>, DomError>)
    ensures r.Success? <==> |contexts| <= 1
    ensures r == Success(None) <==> contexts == []
    ensures (r.Success? && r.value.Some?) <==> |contexts| == 1
    ensures |contexts| == 1 ==> r.value.value == contexts[0]
    ensures r.Failure? ==> r.error == TooManyNamespaceContexts
  {
    if |contexts| == 0 then Success(None)
    else if |contexts| > 1 then Failure(TooManyNamespaceContexts)
    else Success(Some(contexts[0]))
  }
}
