/** The two pieces of string logic of DomUtils' serialisation: the XML
    declaration that write() puts in front of indented output, built by
    createXMLDeclarationString from the output properties, and the strip of
    the trailing newline that asXml applies to indented output. */
module XmlDeclaration {
  import opened Wrappers
  import opened Dom

  /** The javax.xml.transform.OutputKeys the declaration reads. */
  const INDENT: string := "indent"
  const OMIT_XML_DECLARATION: string := "omit-xml-declaration"
  const ENCODING: string := "encoding"
  const VERSION: string := "version"

  /** Properties.getProperty(key, default). */
  function GetProperty(props: map<string, string>, key: string, default: string): (v: string)
    ensures key in props ==> v == props[key]
    ensures key !in props ==> v == default
  {
    if key in props then props[key] else default
  }

  /** String.trim, start: drops the leading characters up to U+0020. */
  function TrimStart(s: string): (r: string)
    ensures |r| <= |s| && r == s[|s| - |r|..]
    ensures r == [] || r[0] > ' '
    ensures forall j :: 0 <= j < |s| - |r| ==> s[j] <= ' '
  {
    if s != [] && s[0] <= ' ' then TrimStart(s[1..]) else s
  }

  /** String.trim, end: drops the trailing characters up to U+0020. */
  function TrimEnd(s: string): (r: string)
    ensures |r| <= |s| && r == s[..|r|]
    ensures r == [] || r[|r| - 1] > ' '
    ensures forall j :: |r| <= j < |s| ==> s[j] <= ' '
  {
    if s != [] && s[|s| - 1] <= ' ' then TrimEnd(s[..|s| - 1]) else s
  }

  function Trim(s: string): string
  {
    TrimEnd(TrimStart(s))
  }

  /** Every character is one String.trim drops (at most U+0020). */
  predicate Trimmable(s: string)
  {
    forall k :: 0 <= k < |s| ==> s[k] <= ' '
  }

  lemma {:induction false} TrimStartSkips(pre: string, s: string)
    requires Trimmable(pre) && s != [] && s[0] > ' '
    ensures TrimStart(pre + s) == s
    decreases |pre|
  {
    if pre == [] {
      assert pre + s == s;
    } else {
      assert (pre + s)[0] == pre[0];
      assert (pre + s)[1..] == pre[1..] + s;
      TrimStartSkips(pre[1..], s);
    }
  }

  lemma {:induction false} TrimEndSkips(s: string, post: string)
    requires Trimmable(post) && s != [] && s[|s| - 1] > ' '
    ensures TrimEnd(s + post) == s
    decreases |post|
  {
    if post == [] {
      assert s + post == s;
    } else {
      var t := s + post;
      assert t[|t| - 1] == post[|post| - 1];
      assert t[..|t| - 1] == s + post[..|post| - 1];
      TrimEndSkips(s, post[..|post| - 1]);
    }
  }

  lemma LowerAboveSpace(c: char)
    requires AsciiLowerChar(c) > ' '
    ensures c > ' '
  {
  }

  /** A value that trims and lower-cases to "yes" is y, e, s padded with
      trimmable characters. */
  lemma YesIsPadded(value: string) returns (i: nat)
    requires AsciiLower(Trim(value)) == "yes"
    ensures i + 3 <= |value| && Trimmable(value[..i]) &&
      AsciiLower(value[i..i + 3]) == "yes" && Trimmable(value[i + 3..])
  {
    var t := TrimStart(value);
    var u := TrimEnd(t);
    i := |value| - |t|;
    assert t == value[i..];
    assert |u| == 3 && u == t[..3];
    assert value[i..i + 3] == t[..3];
    assert value[i + 3..] == t[3..];
    assert forall j :: 3 <= j < |t| ==> t[j] <= ' ';
  }

  /** y, e, s in either case, padded with trimmable characters, trims and
      lower-cases to "yes". */
  lemma PaddedIsYes(value: string, i: nat)
    requires i + 3 <= |value| && Trimmable(value[..i])
    requires AsciiLower(value[i..i + 3]) == "yes" && Trimmable(value[i + 3..])
    ensures AsciiLower(Trim(value)) == "yes"
  {
    var core, post := value[i..i + 3], value[i + 3..];
    assert AsciiLower(core)[0] == 'y' && AsciiLower(core)[2] == 's';
    LowerAboveSpace(core[0]);
    LowerAboveSpace(core[2]);
    assert (core + post)[0] == core[0];
    assert value == value[..i] + (core + post);
    TrimStartSkips(value[..i], core + post);
    TrimEndSkips(core, post);
  }

  lemma YesIffPadded(value: string)
    ensures AsciiLower(Trim(value)) == "yes" <==>
      exists i :: 0 <= i <= |value| - 3 && Trimmable(value[..i]) &&
        AsciiLower(value[i..i + 3]) == "yes" && Trimmable(value[i + 3..])
  {
    if AsciiLower(Trim(value)) == "yes" {
      var i := YesIsPadded(value);
    }
    forall i | 0 <= i <= |value| - 3 && Trimmable(value[..i]) &&
        AsciiLower(value[i..i + 3]) == "yes" && Trimmable(value[i + 3..])
      ensures AsciiLower(Trim(value)) == "yes"
    {
      PaddedIsYes(value, i);
    }
  }

  /** value.trim().toLowerCase().equals("yes"). */
  predicate IsYes(value: string)
    ensures IsYes(value) <==>
      exists i :: 0 <= i <= |value| - 3 && Trimmable(value[..i]) &&
        AsciiLower(value[i..i + 3]) == "yes" && Trimmable(value[i + 3..])
  {
    YesIffPadded(value);
    AsciiLower(Trim(value)) == "yes"
  }

  const DECL_START: string := "<?xml version=\""
  const DECL_MIDDLE: string := "\" encoding=\""
  const DECL_END: string := "\"?>"

  /** The declaration for a version and an encoding: each value sits between
      its opening and closing quote. */
  function Declaration(version: string, encoding: string): (r: string)
    ensures |r| == |DECL_START| + |version| + |DECL_MIDDLE| + |encoding| + |DECL_END|
    ensures r[..|DECL_START|] == DECL_START
    ensures r[|DECL_START|..|DECL_START| + |version|] == version
    ensures r[|DECL_START| + |version| + |DECL_MIDDLE|..|r| - |DECL_END|] == encoding
    ensures r[|r| - |DECL_END|..] == DECL_END
  {
    DECL_START + (version + (DECL_MIDDLE + (encoding + DECL_END)))
  }

  /** createXMLDeclarationString: a declaration only when indent is "yes" and
      omit-xml-declaration is absent or "yes" (both trimmed, case ignored);
      version defaults to 1.0 and encoding to UTF-8. */
  function CreateXmlDeclarationString(outputProperties: map<string, string>): (r: string)
    ensures r != "" <==>
      INDENT in outputProperties && IsYes(outputProperties[INDENT]) &&
      (OMIT_XML_DECLARATION in outputProperties ==> IsYes(outputProperties[OMIT_XML_DECLARATION]))
    ensures r != "" ==>
      r == Declaration(GetProperty(outputProperties, VERSION, "1.0"), GetProperty(outputProperties, ENCODING, "UTF-8"))
  {
    if INDENT !in outputProperties || !IsYes(outputProperties[INDENT]) then ""
    else if OMIT_XML_DECLARATION in outputProperties && !IsYes(outputProperties[OMIT_XML_DECLARATION]) then ""
    else
      var encoding := GetProperty(outputProperties, ENCODING, "UTF-8");
      var version := GetProperty(outputProperties, VERSION, "1.0");
      Declaration(version, encoding)
  }

  /** The position of the first double quote in s, or |s|. */
  function IndexOfQuote(s: string): (k: nat)
    ensures k <= |s|
    ensures k < |s| ==> s[k] == '"'
    ensures forall j :: 0 <= j < k ==> s[j] != '"'
  {
    if s == [] then 0 else if s[0] == '"' then 0 else 1 + IndexOfQuote(s[1..])
  }

  /** Reads the version and the encoding back out of a declaration. */
  function ParseDeclaration(s: string): Option<(string, string)>
  {
    if |s| < |DECL_START| || s[..|DECL_START|] != DECL_START then None
    else
      var rest := s[|DECL_START|..];
      var q := IndexOfQuote(rest);
      var tail := rest[q..];
      if |tail| < |DECL_MIDDLE| || tail[..|DECL_MIDDLE|] != DECL_MIDDLE then None
      else
        var rest2 := tail[|DECL_MIDDLE|..];
        var q2 := IndexOfQuote(rest2);
        if rest2[q2..] != DECL_END then None else Some((rest[..q], rest2[..q2]))
  }

  lemma IndexOfQuoteBeforeQuote(a: string, b: string)
    requires '"' !in a && b != [] && b[0] == '"'
    ensures IndexOfQuote(a + b) == |a|
  {
    assert (a + b)[|a|] == '"';
    assert forall j :: 0 <= j < |a| ==> (a + b)[j] == a[j];
  }

  lemma SplitAt(a: string, b: string)
    ensures (a + b)[..|a|] == a && (a + b)[|a|..] == b
  {
  }

  /** A declaration gives back its version and encoding, when neither holds
      a double quote. */
  lemma {:induction false} DeclarationRoundTrip(version: string, encoding: string)
    requires '"' !in version && '"' !in encoding
    ensures ParseDeclaration(Declaration(version, encoding)) == Some((version, encoding))
  {
    var last := encoding + DECL_END;
    var afterVersion := DECL_MIDDLE + last;
    var rest := version + afterVersion;
    SplitAt(DECL_START, rest);
    assert afterVersion[0] == DECL_MIDDLE[0] == '"';
    IndexOfQuoteBeforeQuote(version, afterVersion);
    SplitAt(version, afterVersion);
    SplitAt(DECL_MIDDLE, last);
    assert DECL_END[0] == '"';
    IndexOfQuoteBeforeQuote(encoding, DECL_END);
    SplitAt(encoding, DECL_END);
  }

  /** Whatever createXMLDeclarationString produces names the version and the
      encoding it was given (or their defaults). */
  lemma CreatedDeclarationRoundTrip(outputProperties: map<string, string>)
    requires CreateXmlDeclarationString(outputProperties) != ""
    requires '"' !in GetProperty(outputProperties, VERSION, "1.0")
    requires '"' !in GetProperty(outputProperties, ENCODING, "UTF-8")
    ensures ParseDeclaration(CreateXmlDeclarationString(outputProperties)) ==
      Some((GetProperty(outputProperties, VERSION, "1.0"), GetProperty(outputProperties, ENCODING, "UTF-8")))
  {
    DeclarationRoundTrip(GetProperty(outputProperties, VERSION, "1.0"), GetProperty(outputProperties, ENCODING, "UTF-8"));
  }

  lemma YesIsYes()
    ensures IsYes("yes")
  {
    assert TrimStart("yes") == "yes";
    assert TrimEnd("yes") == "yes";
    var l := AsciiLower("yes");
    assert l[0] == 'y' && l[1] == 'e' && l[2] == 's';
    assert l == "yes";
  }

  /** The properties of the unit test give the declaration with their version and encoding. */
  lemma DeclarationOfTestProperties()
    ensures CreateXmlDeclarationString(map[INDENT := "yes", OMIT_XML_DECLARATION := "yes",
      ENCODING := "ISO8859-15", VERSION := "1.2"])
      == "<?xml version=\"" + "1.2" + "\" encoding=\"" + "ISO8859-15" + "\"?>"
  {
    var props := map[INDENT := "yes", OMIT_XML_DECLARATION := "yes", ENCODING := "ISO8859-15", VERSION := "1.2"];
    assert |INDENT| == 6 && |OMIT_XML_DECLARATION| == 20 && |ENCODING| == 8 && |VERSION| == 7;
    assert props[INDENT] == "yes" && props[OMIT_XML_DECLARATION] == "yes";
    assert GetProperty(props, ENCODING, "UTF-8") == "ISO8859-15";
    assert GetProperty(props, VERSION, "1.0") == "1.2";
    YesIsYes();
  }

  /** asXml on indented output: one trailing newline is dropped. */
  function StripIndentNewline(indent: bool, s: string): (r: string)
    ensures r == s || (indent && r + "\n" == s)
    ensures r != s <==> indent && |s| > 0 && s[|s| - 1] == '\n'
  {
    if indent && |s| > 0 && s[|s| - 1] == '\n' then s[..|s| - 1] else s
  }

  /** The strip takes back exactly the newline a newer serialiser appends. */
  lemma StripUndoesAppendedNewline(s: string)
    ensures StripIndentNewline(true, s + "\n") == s
    ensures StripIndentNewline(false, s) == s
  {
    assert (s + "\n")[..|s|] == s;
  }
}
