/** `OpenXmlContentTypes`: the content type of a part from its URI. */
module ContentTypes {
  import opened Wrappers
  import opened JsObject
  import opened JsString
  import opened NodePath
  import opened Parts

  /**
   * The test `if (table[key])`: a rule exists only for a key that was
   * assigned a defined, non-empty string.
   */
  function Rule(slot: Option<Option<string>>): (r: Option<string>)
    ensures r.Some? <==> slot.Some? && slot.value.Some? && slot.value.value != ""
    ensures r.Some? ==> r.value == slot.value.value
  {
    match slot
    case Some(Some(s)) => if s != "" then Some(s) else None
    case _ => None
  }

  /** `path.extname(uri).slice(1)`: the extension without its dot. */
  function Extension(uri: string): string {
    SliceFrom(Extname(uri), 1)
  }

  /** Thrown by `path.extname` when it is handed `null`. */
  datatype ResolveError = UriNotAString

  /**
   * `defaults` maps extensions, `overrides` maps part URIs, to content types;
   * both default to `{}`.
   */
  datatype Resolver = Resolver(defaults: Dict<Option<string>> := Empty(), overrides: Dict<Option<string>> := Empty()) {

    /**
     * `getContentType(uri)`: the override for `uri`, else the default for its
     * extension, else `null`. Absence is a result, never an error.
     */
    function GetContentType(uri: string): (r: Option<string>)
      ensures r.Some? ==> r.value != ""
      ensures r.Some? ==> r == Rule(overrides.Get(uri)) || r == Rule(defaults.Get(Extension(uri)))
    {
      if Rule(overrides.Get(uri)).Some? then Rule(overrides.Get(uri))
      else if Rule(defaults.Get(Extension(uri))).Some? then Rule(defaults.Get(Extension(uri)))
      else None
    }

    /**
     * `getContentTypeForPart(part)`: the same lookup on `part.uri`. A `null`
     * uri is looked up in `overrides` under `"null"` and then makes
     * `path.extname` throw.
     */
    function GetContentTypeForPart(part: Part): (r: Result<Option<string>, ResolveError>)
      ensures part.uri.Some? ==> r == Success(GetContentType(part.uri.value))
      ensures part.uri.None? ==> (r.Success? <==> Rule(overrides.Get("null")).Some?)
      ensures part.uri.None? && r.Success? ==> r.value == Rule(overrides.Get("null"))
    {
      match part.uri
      case Some(u) => Success(GetContentType(u))
      case None =>
        if Rule(overrides.Get("null")).Some? then Success(Rule(overrides.Get("null")))
        else Failure(UriNotAString)
    }
  }

  /** An override that applies wins, whatever the defaults say. */
  lemma OverrideWins(ct: Resolver, uri: string, s: string)
    requires ct.overrides.Get(uri) == Some(Some(s)) && s != ""
    ensures ct.GetContentType(uri) == Some(s)
  {
  }

  /** Without an applicable override, the default for the extension applies. */
  lemma DefaultWithoutOverride(ct: Resolver, uri: string, s: string)
    requires Rule(ct.overrides.Get(uri)).None?
    requires ct.defaults.Get(Extension(uri)) == Some(Some(s)) && s != ""
    ensures ct.GetContentType(uri) == Some(s)
  {
  }

  /** With neither rule the result is `null`; an empty string counts as no rule. */
  lemma NoRuleIsNull(ct: Resolver, uri: string)
    requires Rule(ct.overrides.Get(uri)).None? && Rule(ct.defaults.Get(Extension(uri))).None?
    ensures ct.GetContentType(uri) == None
  {
  }

  /** The lookup succeeds exactly when one of the two rules applies. */
  lemma ResolvedIff(ct: Resolver, uri: string)
    ensures ct.GetContentType(uri).Some? <==>
              Rule(ct.overrides.Get(uri)).Some? || Rule(ct.defaults.Get(Extension(uri))).Some?
  {
  }

  /** `new OpenXmlContentTypes()` resolves nothing. */
  lemma EmptyResolvesNothing(uri: string)
    ensures Resolver().GetContentType(uri) == None
  {
  }

  /** The last `.` of `stem.ext` is the one before `ext`. */
  lemma {:induction false} LastDotOf(stem: string, ext: string)
    requires '.' !in ext
    ensures LastIndexOf(stem + "." + ext, '.') == |stem|
  {
    var b := stem + "." + ext;
    var d := LastIndexOf(b, '.');
    assert b[|stem|] == '.';
    assert forall k :: |stem| < k < |b| ==> b[k] in ext;
  }

  /** A basename `stem.ext` (a non-empty stem, no dot in `ext`) has the extension `.ext`. */
  lemma PartExtensionOfDotted(stem: string, ext: string)
    requires stem != "" && '.' !in ext && !(stem == "." && ext == "")
    ensures PartExtension(stem + "." + ext) == "." + ext
  {
    LastDotOf(stem, ext);
    var b := stem + "." + ext;
    assert b[|stem|..] == "." + ext;
    if |b| == 2 {
      assert stem == [b[0]] && ext == [];
    }
  }

  /** A basename without a dot, or with only a leading one, has no extension. */
  lemma PartExtensionOfUndotted(b: string)
    requires b != "" && ('.' !in b || (b[0] == '.' && '.' !in b[1..]))
    ensures PartExtension(b) == ""
  {
    if '.' in b {
      assert b == "" + "." + b[1..];
      LastDotOf("", b[1..]);
    }
  }

  /**
   * In a path of segments without separators whose last one is `stem.ext`
   * (a non-empty stem, no dot in `ext`), the extension is `ext`, compared
   * later as it is, case and all.
   */
  lemma ExtensionOfLastSegment(segs: seq<string>, stem: string, ext: string)
    requires |segs| >= 1 && forall i :: 0 <= i < |segs| ==> '/' !in segs[i]
    requires segs[|segs| - 1] == stem + "." + ext
    requires stem != "" && '.' !in ext && !(stem == "." && ext == "")
    ensures Extension(JoinSegments(segs)) == ext
  {
    ExtnameOfLastSegment(segs, stem, ext);
  }

  /** `path.extname` of such a path is `.ext`. */
  lemma ExtnameOfLastSegment(segs: seq<string>, stem: string, ext: string)
    requires |segs| >= 1 && forall i :: 0 <= i < |segs| ==> '/' !in segs[i]
    requires segs[|segs| - 1] == stem + "." + ext
    requires stem != "" && '.' !in ext && !(stem == "." && ext == "")
    ensures Extname(JoinSegments(segs)) == "." + ext
  {
    BasenameOfJoin(segs);
    PartExtensionOfDotted(stem, ext);
  }

  /** A last segment without a dot, or a dotfile such as `.rels`, has no extension. */
  lemma NoExtension(segs: seq<string>)
    requires |segs| >= 1 && forall i :: 0 <= i < |segs| ==> '/' !in segs[i]
    requires var b := segs[|segs| - 1];
      b != "" && ('.' !in b || (b[0] == '.' && '.' !in b[1..]))
    ensures Extension(JoinSegments(segs)) == ""
  {
    BasenameOfJoin(segs);
    PartExtensionOfUndotted(segs[|segs| - 1]);
    assert Extname(JoinSegments(segs)) == "";
  }

  lemma ExtensionOfXmlPart()
    ensures Extension("word/document.xml") == "xml"
  {
    assert JoinSegments(["word", "document.xml"]) == "word/document.xml";
    assert "document.xml" == "document" + "." + "xml";
    ExtensionOfLastSegment(["word", "document.xml"], "document", "xml");
  }

  lemma ExtensionOfRelsPart()
    ensures Extension("word/_rels/document.xml.rels") == "rels"
  {
    assert JoinSegments(["word", "_rels", "document.xml.rels"]) == "word/_rels/document.xml.rels";
    assert "document.xml.rels" == "document.xml" + "." + "rels";
    ExtensionOfLastSegment(["word", "_rels", "document.xml.rels"], "document.xml", "rels");
  }

  lemma DotfileHasNoExtension()
    ensures Extension("_rels/.rels") == ""
  {
    assert JoinSegments(["_rels", ".rels"]) == "_rels/.rels";
    assert ".rels"[1..] == "rels";
    NoExtension(["_rels", ".rels"]);
  }
}
