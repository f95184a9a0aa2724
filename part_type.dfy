/** The part tags and the classification of a content type string. */
module PartTypes {
  import opened Wrappers
  import opened JsString

  /** `OpenXmlPartType.UNKNOWN` and `OpenXmlPartType.XML`. */
  datatype PartType = Unknown | Xml {
    /** The string value each tag stands for. */
    function Tag(): string {
      match this
      case Unknown => "unknown"
      case Xml => "xml"
    }
  }

  /**
   * `fromContentType`: a missing or empty content type is `Unknown`; one whose
   * last three characters, lower-cased, read `xml` is `Xml`; anything else is
   * `Unknown`.
   */
  function FromContentType(contentType: Option<string>): PartType {
    match contentType
    case None => Unknown
    case Some(s) =>
      if s == "" then Unknown
      else if ToLowerCase(SliceLast(s, 3)) == "xml" then Xml
      else Unknown
  }

  /** `Xml` exactly for a content type ending, in any case, in `xml`. */
  lemma FromContentTypeIsXml(contentType: Option<string>)
    ensures FromContentType(contentType) == Xml <==>
              (contentType.Some? && |contentType.value| >= 3 &&
               ToLowerCase(contentType.value[|contentType.value| - 3..]) == "xml")
  {
  }

  /** The two tags are told apart by their strings. */
  lemma TagsDistinct(t: PartType)
    ensures t.Tag() == "xml" <==> t == Xml
  {
  }

  /** Content types shorter than three characters are never XML. */
  lemma ShortIsUnknown(s: string)
    requires |s| < 3
    ensures FromContentType(Some(s)) == Unknown
  {
  }

  /** Only the lower-cased three-character suffix decides the tag. */
  lemma SameSuffixSameTag(s: string, u: string)
    requires |s| >= 3 && |u| >= 3
    requires ToLowerCase(s[|s| - 3..]) == ToLowerCase(u[|u| - 3..])
    ensures FromContentType(Some(s)) == FromContentType(Some(u))
  {
  }

  /** A content type whose last three characters are `xml` in lower case is XML. */
  lemma {:induction false} LowerXmlSuffix(s: string)
    requires |s| >= 3 && s[|s| - 3..] == "xml"
    ensures FromContentType(Some(s)) == Xml
  {
    assert ToLowerCase("xml") == "xml";
  }

  lemma NullAndEmptyAreUnknown()
    ensures FromContentType(None) == Unknown
    ensures FromContentType(Some("")) == Unknown
  {
  }

  lemma XmlExamples()
    ensures FromContentType(Some("application/xml")) == Xml
    ensures FromContentType(Some("application/vnd.openxmlformats-package.relationships+xml")) == Xml
  {
    LowerXmlSuffix("application/xml");
    LowerXmlSuffix("application/vnd.openxmlformats-package.relationships+xml");
  }

  lemma UpperCaseXmlExample()
    ensures FromContentType(Some("TEXT/XML")) == Xml
  {
    assert "TEXT/XML"[5..] == "XML";
    assert ToLowerCase("XML") == "xml";
  }

  lemma PngExample()
    ensures FromContentType(Some("image/png")) == Unknown
  {
    assert "image/png"[6..] == "png";
    assert ToLowerCase("png") == "png";
  }
}
