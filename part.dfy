/** `OpenXmlPart`: one file of a package. */
module Parts {
  import opened Wrappers
  import opened Interfaces
  import opened PartTypes

  /**
   * What a part holds: `null` (the constructor's default), the parsed tree of
   * an XML part, or the raw bytes of any other part.
   */
  datatype PartData = Null | Tree(doc: Document) | Raw(bytes: Bytes)

  /**
   * The constructor's three fields, stored as given; an omitted `uri` or
   * `data` is `null` and an omitted `type` is `UNKNOWN`.
   */
  datatype Part = Part(uri: Option<string> := None, data: PartData := Null, partType: PartType := Unknown)

  /** The property key `obj[part.uri]` uses: JavaScript turns `null` into `"null"`. */
  function UriKey(uri: Option<string>): (k: string)
    ensures uri.Some? ==> k == uri.value
  {
    match uri
    case Some(u) => u
    case None => "null"
  }

  /** A part of type `xml` holds a parsed tree, any other part holds bytes. */
  ghost predicate WellTyped(p: Part) {
    if p.partType == Xml then p.data.Tree? else p.data.Raw?
  }

  /** `new OpenXmlPart()` and `new OpenXmlPart(uri, data, type)`. */
  lemma ConstructorFields(uri: Option<string>, data: PartData, t: PartType)
    ensures Part() == Part(None, Null, Unknown)
    ensures Part(uri).data == Null && Part(uri).partType == Unknown
    ensures Part(uri, data, t).uri == uri && Part(uri, data, t).data == data && Part(uri, data, t).partType == t
  {
  }
}
