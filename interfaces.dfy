/**
 * The two collaborators the core calls but does not implement: the zip
 * archive (a sequence of named entries) and the XML library with the UTF-8
 * codec of Node's `Buffer`.
 */
module Interfaces {
  import opened Wrappers

  newtype Byte = b: int | 0 <= b < 256

  type Bytes = seq<Byte>

  /** One archive entry as the zip layer yields it: its name and raw content. */
  datatype Entry = Entry(name: string, data: Bytes)

  /**
   * A node of the element tree the XML library produces in its non-compact
   * form: an element with a name, its attributes and its ordered children,
   * or a text node (which has no name).
   */
  datatype Node =
    | Element(name: string, attributes: map<string, string>, children: seq<Node>)
    | Text(text: string)
  {
    /** True of an element with the given name; a text node has no name. */
    predicate IsNamed(n: string) {
      Element? && name == n
    }

    /** The attribute's value, or `None` where JavaScript reads `undefined`. */
    function Attribute(a: string): Option<string> {
      if Element? && a in attributes then Some(attributes[a]) else None
    }
  }

  /** A parsed XML document: its top-level nodes (the `elements` array). */
  datatype Document = Document(elements: seq<Node>)

  /**
   * The library calls, passed in because their implementations are not part
   * of this model: `Buffer.toString('utf8')`, `Buffer.from(s, 'utf8')`,
   * `xml2js` (which throws on malformed text, here `None`) and `js2xml`.
   */
  datatype Codec = Codec(
    decodeUtf8: Bytes -> string,
    encodeUtf8: string -> Bytes,
    parse: string -> Option<Document>,
    serialize: Document -> string)
  {
    /**
     * The XML library parses back, through UTF-8, what it serialised from a
     * tree it had parsed. Only parsed trees are asked of it: a tree with two
     * adjacent text nodes, say, serialises to one.
     */
    ghost predicate RoundTrips() {
      forall s :: parse(s).Some? ==> parse(decodeUtf8(encodeUtf8(serialize(parse(s).value)))) == parse(s)
    }
  }
}
