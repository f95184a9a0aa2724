/**
 * `OpenXmlReader`: from the entries of an archive to a package. The zip
 * layer is the entry sequence; the XML and UTF-8 calls come in a `Codec`.
 */
module Reader {
  import opened Wrappers
  import opened Interfaces
  import opened JsObject
  import opened JsString
  import opened NodePath
  import opened PartTypes
  import opened Parts
  import opened ContentTypes
  import opened Relationships
  import opened Packages

  /** The one entry name the reader looks for. */
  const ManifestName := "[Content_Types].xml"

  /**
   * Why a pass fails: no manifest (`getData` of `undefined`), text the XML
   * library rejects, or a relationships document without a root element
   * (`elements[0].elements` of `undefined`).
   */
  datatype ReadError = MissingContentTypes | XmlSyntax(entry: string) | NoRootElement(entry: string)

  // ---------------------------------------------------------------------
  // Content types

  /** `entries.find(e => e.entryName === name)`, as an index. */
  function FindEntry(entries: seq<Entry>, name: string): (r: Option<nat>)
    ensures r.Some? ==> r.value < |entries| && entries[r.value].name == name
    ensures r.Some? ==> forall j :: 0 <= j < r.value ==> entries[j].name != name
    ensures r.None? ==> forall j :: 0 <= j < |entries| ==> entries[j].name != name
  {
    if entries == [] then None
    else if entries[0].name == name then Some(0)
    else match FindEntry(entries[1..], name)
      case None => None
      case Some(j) => Some(j + 1)
  }

  /** `xml2js(entry.getData().toString('utf8'))`, which throws on malformed text. */
  function ParseEntry(e: Entry, codec: Codec): (r: Result<Document, ReadError>)
    ensures r.Failure? <==> codec.parse(codec.decodeUtf8(e.data)).None?
    ensures r.Failure? ==> r.error == XmlSyntax(e.name)
    ensures r.Success? ==> Some(r.value) == codec.parse(codec.decodeUtf8(e.data))
  {
    match codec.parse(codec.decodeUtf8(e.data))
    case None => Failure(XmlSyntax(e.name))
    case Some(d) => Success(d)
  }

  /** The property key `acc[attribute]` uses: JavaScript turns `undefined` into `"undefined"`. */
  function AttributeKey(a: Option<string>): (k: string)
    ensures a.Some? ==> k == a.value
  {
    match a
    case Some(s) => s
    case None => "undefined"
  }

  /** The rule an element contributes: its key attribute and its `ContentType`. */
  function RuleOf(n: Node, keyAttr: string): (string, Option<string>) {
    (AttributeKey(n.Attribute(keyAttr)), n.Attribute("ContentType"))
  }

  /** `nodes.filter(e => e.name === name)` mapped to the rule of each element, in order. */
  function Rules(nodes: seq<Node>, name: string, keyAttr: string): seq<(string, Option<string>)> {
    if nodes == [] then []
    else
      var last := nodes[|nodes| - 1];
      Rules(nodes[..|nodes| - 1], name, keyAttr) + (if last.IsNamed(name) then [RuleOf(last, keyAttr)] else [])
  }

  /**
   * The two folds over the element list they are given: `Default` elements
   * map `Extension` to `ContentType`, `Override` elements map `PartName` to
   * `ContentType`, later duplicates overwrite earlier ones.
   */
  function ContentTypesFromElements(nodes: seq<Node>): Resolver {
    Resolver(FromPairs(Rules(nodes, "Default", "Extension")), FromPairs(Rules(nodes, "Override", "PartName")))
  }

  /**
   * `_contentTypeFromEntries` as written: the first entry named
   * `[Content_Types].xml`, parsed, and the folds applied to the document's
   * top-level elements, where only the `<Types>` root element can be.
   */
  function ContentTypesFromEntriesAsWritten(entries: seq<Entry>, codec: Codec): (r: Result<Resolver, ReadError>)
    ensures r.Failure? && r.error == MissingContentTypes <==>
              forall j :: 0 <= j < |entries| ==> entries[j].name != ManifestName
  {
    match FindEntry(entries, ManifestName)
    case None => Failure(MissingContentTypes)
    case Some(i) =>
      var doc :- ParseEntry(entries[i], codec);
      Success(ContentTypesFromElements(doc.elements))
  }

  /**
   * `_contentTypeFromEntries` with the folds applied to the children of the
   * root element, as the relationships reader does for its files: the
   * `Default` and `Override` elements of a manifest are children of `<Types>`.
   */
  function ContentTypesFromEntries(entries: seq<Entry>, codec: Codec): (r: Result<Resolver, ReadError>)
    ensures r.Failure? && r.error == MissingContentTypes <==>
              forall j :: 0 <= j < |entries| ==> entries[j].name != ManifestName
    ensures r.Failure? && r.error != MissingContentTypes ==>
              r.error == XmlSyntax(ManifestName) || r.error == NoRootElement(ManifestName)
  {
    match FindEntry(entries, ManifestName)
    case None => Failure(MissingContentTypes)
    case Some(i) =>
      var doc :- ParseEntry(entries[i], codec);
      if doc.elements == [] || !doc.elements[0].Element? then Failure(NoRootElement(ManifestName))
      else Success(ContentTypesFromElements(doc.elements[0].children))
  }

  /** For an element of the given name, the last one with a key decides its value. */
  lemma {:induction false} RuleLastWins(nodes: seq<Node>, name: string, keyAttr: string, i: nat)
    requires i < |nodes| && nodes[i].IsNamed(name)
    requires forall j :: i < j < |nodes| && nodes[j].IsNamed(name) ==>
               RuleOf(nodes[j], keyAttr).0 != RuleOf(nodes[i], keyAttr).0
    ensures FromPairs(Rules(nodes, name, keyAttr)).Get(RuleOf(nodes[i], keyAttr).0) ==
              Some(RuleOf(nodes[i], keyAttr).1)
  {
    var n := |nodes| - 1;
    var prefix := Rules(nodes[..n], name, keyAttr);
    if nodes[n].IsNamed(name) {
      FromPairsSnoc(prefix, RuleOf(nodes[n], keyAttr));
    } else {
      assert Rules(nodes, name, keyAttr) == prefix;
    }
    if i < n {
      RuleLastWins(nodes[..n], name, keyAttr, i);
    }
  }

  /** A key that no element of the given name carries has no rule. */
  lemma {:induction false} RuleAbsent(nodes: seq<Node>, name: string, keyAttr: string, k: string)
    requires forall j :: 0 <= j < |nodes| && nodes[j].IsNamed(name) ==> RuleOf(nodes[j], keyAttr).0 != k
    ensures FromPairs(Rules(nodes, name, keyAttr)).Get(k) == None
  {
    if nodes != [] {
      var n := |nodes| - 1;
      var prefix := Rules(nodes[..n], name, keyAttr);
      RuleAbsent(nodes[..n], name, keyAttr, k);
      if nodes[n].IsNamed(name) {
        FromPairsSnoc(prefix, RuleOf(nodes[n], keyAttr));
      } else {
        assert Rules(nodes, name, keyAttr) == prefix;
      }
    }
  }

  /** The `Default` fold: the last `Default` element for an extension gives its content type. */
  lemma DefaultLastWins(nodes: seq<Node>, i: nat)
    requires i < |nodes| && nodes[i].IsNamed("Default")
    requires forall j :: i < j < |nodes| && nodes[j].IsNamed("Default") ==>
               AttributeKey(nodes[j].Attribute("Extension")) != AttributeKey(nodes[i].Attribute("Extension"))
    ensures ContentTypesFromElements(nodes).defaults.Get(AttributeKey(nodes[i].Attribute("Extension"))) ==
              Some(nodes[i].Attribute("ContentType"))
  {
    RuleLastWins(nodes, "Default", "Extension", i);
  }

  /** The `Override` fold: the last `Override` element for a part name gives its content type. */
  lemma OverrideLastWins(nodes: seq<Node>, i: nat)
    requires i < |nodes| && nodes[i].IsNamed("Override")
    requires forall j :: i < j < |nodes| && nodes[j].IsNamed("Override") ==>
               AttributeKey(nodes[j].Attribute("PartName")) != AttributeKey(nodes[i].Attribute("PartName"))
    ensures ContentTypesFromElements(nodes).overrides.Get(AttributeKey(nodes[i].Attribute("PartName"))) ==
              Some(nodes[i].Attribute("ContentType"))
  {
    RuleLastWins(nodes, "Override", "PartName", i);
  }

  /** Elements with any other name (and text nodes) change neither table. */
  lemma OtherElementsIgnored(nodes: seq<Node>, n: Node)
    requires !n.IsNamed("Default") && !n.IsNamed("Override")
    ensures ContentTypesFromElements(nodes + [n]) == ContentTypesFromElements(nodes)
  {
    assert (nodes + [n])[..|nodes|] == nodes;
    assert Rules(nodes + [n], "Default", "Extension") == Rules(nodes, "Default", "Extension");
    assert Rules(nodes + [n], "Override", "PartName") == Rules(nodes, "Override", "PartName");
  }

  // ---------------------------------------------------------------------
  // Relationships

  /** The filter of `_relationshipsFromEntries`: extension or basename `.rels`, in any case. */
  predicate IsRelationshipsEntry(name: string) {
    ToLowerCase(Extname(name)) == ".rels" || ToLowerCase(Basename(name)) == ".rels"
  }

  /**
   * The context of a relationships file: `path.join(path.dirname(name), '..')`,
   * with `.` (the package root) as `null`.
   */
  function RelsContext(name: string): (c: Option<string>)
    ensures c != Some(".")
  {
    var d := JoinParent(Dirname(name));
    if d == "." then None else Some(d)
  }

  /** `nodes.filter(e => e.name === name)` */
  function ElementsNamed(nodes: seq<Node>, name: string): (r: seq<Node>)
    ensures |r| <= |nodes|
    ensures forall k :: 0 <= k < |r| ==> r[k].IsNamed(name)
  {
    if nodes == [] then []
    else
      var last := nodes[|nodes| - 1];
      ElementsNamed(nodes[..|nodes| - 1], name) + (if last.IsNamed(name) then [last] else [])
  }

  /** The relationship one `Relationship` element declares, in a file with context `ctx`. */
  function RelationshipOf(n: Node, ctx: Option<string>): Relationship {
    Relationship(n.Attribute("Id"), n.Attribute("Type"), n.Attribute("Target"), ctx)
  }

  /** The `forEach` over the root's children: one relationship per `Relationship` element, in order. */
  function RelationshipsOf(children: seq<Node>, ctx: Option<string>): (r: seq<Relationship>)
    ensures |r| == |ElementsNamed(children, "Relationship")|
    ensures forall k :: 0 <= k < |r| ==> r[k].context == ctx
  {
    var es := ElementsNamed(children, "Relationship");
    seq(|es|, k requires 0 <= k < |es| => RelationshipOf(es[k], ctx))
  }

  /** The filter keeps a single node exactly when it has the name. */
  lemma ElementsNamedSingle(n: Node, name: string)
    ensures ElementsNamed([n], name) == if n.IsNamed(name) then [n] else []
  {
    assert [n][..0] == [];
  }

  /** The filter distributes over concatenation: it keeps every matching node, in order. */
  lemma {:induction false} ElementsNamedAppend(a: seq<Node>, b: seq<Node>, name: string)
    ensures ElementsNamed(a + b, name) == ElementsNamed(a, name) + ElementsNamed(b, name)
    decreases |b|
  {
    if b == [] {
      assert a + b == a;
    } else {
      assert (a + b)[..|a + b| - 1] == a + b[..|b| - 1];
      ElementsNamedAppend(a, b[..|b| - 1], name);
    }
  }

  /** A single `Relationship` element gives its `Id`, `Type` and `Target` with the file's context. */
  lemma RelationshipsOfSingle(n: Node, ctx: Option<string>)
    ensures RelationshipsOf([n], ctx)
            == if n.IsNamed("Relationship")
               then [Relationship(n.Attribute("Id"), n.Attribute("Type"), n.Attribute("Target"), ctx)]
               else []
  {
    ElementsNamedSingle(n, "Relationship");
  }

  /** The relationships of `a + b` are those of `a` followed by those of `b`. */
  lemma RelationshipsOfAppend(a: seq<Node>, b: seq<Node>, ctx: Option<string>)
    ensures RelationshipsOf(a + b, ctx) == RelationshipsOf(a, ctx) + RelationshipsOf(b, ctx)
  {
    ElementsNamedAppend(a, b, "Relationship");
    var ra, rb := RelationshipsOf(a, ctx), RelationshipsOf(b, ctx);
    var ea := ElementsNamed(a, "Relationship");
    var eb := ElementsNamed(b, "Relationship");
    forall k | 0 <= k < |ra + rb|
      ensures RelationshipsOf(a + b, ctx)[k] == (ra + rb)[k]
    {
      if k < |ra| {
        assert (ea + eb)[k] == ea[k];
      } else {
        assert (ea + eb)[k] == eb[k - |ea|];
      }
    }
  }

  /** A parsed relationships file: its entry name, its document and its context. */
  datatype RelsFile = RelsFile(name: string, doc: Document, context: Option<string>)

  /**
   * The `filter` stage: the entries whose names `keep` accepts (the reader
   * passes `IsRelationshipsEntry`), in entry order.
   */
  function RelsEntries(entries: seq<Entry>, keep: string -> bool): (r: seq<Entry>)
    ensures |r| <= |entries|
    ensures forall k :: 0 <= k < |r| ==> keep(r[k].name)
  {
    if entries == [] then []
    else (if keep(entries[0].name) then [entries[0]] else []) + RelsEntries(entries[1..], keep)
  }

  /**
   * The `map` stage: every relationships entry parsed and given its context
   * (`contextOf`, which the reader instantiates with `RelsContext`), before
   * any relationship is read. The first parse failure is thrown.
   */
  function ParseRelsFiles(rels: seq<Entry>, codec: Codec, contextOf: string -> Option<string>): (r: Result<seq<RelsFile>, ReadError>)
    ensures r.Success? ==> |r.value| == |rels|
  {
    if rels == [] then Success([])
    else match ParseEntry(rels[0], codec)
      case Failure(err) => Failure(err)
      case Success(doc) =>
        var rest := ParseRelsFiles(rels[1..], codec, contextOf);
        if rest.Failure? then rest
        else Success([RelsFile(rels[0].name, doc, contextOf(rels[0].name))] + rest.value)
  }

  /** The relationships of one file: the `Relationship` children of its root element. */
  function FileRelationships(f: RelsFile): Result<seq<Relationship>, ReadError> {
    if f.doc.elements == [] || !f.doc.elements[0].Element? then Failure(NoRootElement(f.name))
    else Success(RelationshipsOf(f.doc.elements[0].children, f.context))
  }

  /** The `reduce` stage: the files' relationships concatenated in file order. */
  function Flatten(files: seq<RelsFile>): Result<seq<Relationship>, ReadError> {
    if files == [] then Success([])
    else match FileRelationships(files[0])
      case Failure(err) => Failure(err)
      case Success(first) =>
        var rest := Flatten(files[1..]);
        if rest.Failure? then rest else Success(first + rest.value)
  }

  /** `_relationshipsFromEntries` */
  function RelationshipsFromEntries(entries: seq<Entry>, codec: Codec): Result<seq<Relationship>, ReadError> {
    var files :- ParseRelsFiles(RelsEntries(entries, IsRelationshipsEntry), codec, RelsContext);
    Flatten(files)
  }

  /** Flattening keeps file order: the relationships of `a + b` are those of `a`, then those of `b`. */
  lemma {:induction false} FlattenAppend(a: seq<RelsFile>, b: seq<RelsFile>)
    requires Flatten(a).Success? && Flatten(b).Success?
    ensures Flatten(a + b) == Success(Flatten(a).value + Flatten(b).value)
  {
    if a != [] {
      assert (a + b)[0] == a[0];
      assert (a + b)[1..] == a[1..] + b;
      var first := FileRelationships(a[0]).value;
      assert FileRelationships(a[0]).Success?;
      assert Flatten(a[1..]).Success?;
      FlattenAppend(a[1..], b);
      assert Flatten(a[1..] + b).Success?;
      assert Flatten(a) == Success(first + Flatten(a[1..]).value);
      assert Flatten(a + b) == Success(first + Flatten(a[1..] + b).value);
      assert Flatten(a + b) == Success(first + (Flatten(a[1..]).value + Flatten(b).value));
      assert first + (Flatten(a[1..]).value + Flatten(b).value) == Flatten(a).value + Flatten(b).value;
    } else {
      assert a + b == b;
      assert Flatten(a).value + Flatten(b).value == Flatten(b).value;
    }
  }

  /** Filtering keeps entry order. */
  lemma {:induction false} RelsEntriesAppend(a: seq<Entry>, b: seq<Entry>, keep: string -> bool)
    ensures RelsEntries(a + b, keep) == RelsEntries(a, keep) + RelsEntries(b, keep)
  {
    if a != [] {
      assert (a + b)[0] == a[0];
      assert (a + b)[1..] == a[1..] + b;
      RelsEntriesAppend(a[1..], b, keep);
    } else {
      assert a + b == b;
    }
  }

  /** Parsing keeps order: the files of `a + b` are those of `a`, then those of `b`. */
  lemma {:induction false} ParseRelsFilesAppend(a: seq<Entry>, b: seq<Entry>, codec: Codec, contextOf: string -> Option<string>)
    requires ParseRelsFiles(a, codec, contextOf).Success? && ParseRelsFiles(b, codec, contextOf).Success?
    ensures ParseRelsFiles(a + b, codec, contextOf) ==
              Success(ParseRelsFiles(a, codec, contextOf).value + ParseRelsFiles(b, codec, contextOf).value)
  {
    var rb := ParseRelsFiles(b, codec, contextOf).value;
    if a != [] {
      var ab := a + b;
      assert ab[0] == a[0];
      assert ab[1..] == a[1..] + b;
      ParseRelsFilesFirst(a, codec, contextOf);
      ParseRelsFilesAppend(a[1..], b, codec, contextOf);
      ParseRelsFilesFirst(ab, codec, contextOf);
      var f := RelsFile(a[0].name, ParseEntry(a[0], codec).value, contextOf(a[0].name));
      var ra := ParseRelsFiles(a[1..], codec, contextOf).value;
      assert [f] + (ra + rb) == ([f] + ra) + rb;
    } else {
      assert a + b == b;
      assert [] + rb == rb;
    }
  }

  /** The parse of a non-empty list of files: the first file, then the rest. */
  lemma ParseRelsFilesFirst(s: seq<Entry>, codec: Codec, contextOf: string -> Option<string>)
    requires s != []
    ensures ParseRelsFiles(s, codec, contextOf).Success? <==>
              ParseEntry(s[0], codec).Success? && ParseRelsFiles(s[1..], codec, contextOf).Success?
    ensures ParseRelsFiles(s, codec, contextOf).Success? ==>
              ParseRelsFiles(s, codec, contextOf).value ==
                [RelsFile(s[0].name, ParseEntry(s[0], codec).value, contextOf(s[0].name))] + ParseRelsFiles(s[1..], codec, contextOf).value
  {
  }

  /**
   * The relationships of `a + b` are those of `a` followed by those of `b`:
   * files in entry order, relationships in declaration order, none dropped
   * or merged.
   */
  lemma RelationshipsAppend(a: seq<Entry>, b: seq<Entry>, codec: Codec)
    requires RelationshipsFromEntries(a, codec).Success? && RelationshipsFromEntries(b, codec).Success?
    ensures RelationshipsFromEntries(a + b, codec) ==
              Success(RelationshipsFromEntries(a, codec).value + RelationshipsFromEntries(b, codec).value)
  {
    var keep := IsRelationshipsEntry;
    RelsEntriesAppend(a, b, keep);
    ParseRelsFilesAppend(RelsEntries(a, keep), RelsEntries(b, keep), codec, RelsContext);
    FlattenAppend(ParseRelsFiles(RelsEntries(a, keep), codec, RelsContext).value,
                  ParseRelsFiles(RelsEntries(b, keep), codec, RelsContext).value);
  }

  /** A relationships file that cannot be parsed in `a` fails the parse of `a + b`. */
  lemma {:induction false} ParseRelsFilesPrefixFailure(a: seq<Entry>, b: seq<Entry>, codec: Codec, contextOf: string -> Option<string>)
    requires ParseRelsFiles(a, codec, contextOf).Failure?
    ensures ParseRelsFiles(a + b, codec, contextOf).Failure?
  {
    assert (a + b)[0] == a[0];
    if ParseEntry(a[0], codec).Success? {
      assert (a + b)[1..] == a[1..] + b;
      ParseRelsFilesPrefixFailure(a[1..], b, codec, contextOf);
    }
  }

  /** A relationships file that cannot be parsed in `b` fails the parse of `a + b`. */
  lemma {:induction false} ParseRelsFilesSuffixFailure(a: seq<Entry>, b: seq<Entry>, codec: Codec, contextOf: string -> Option<string>)
    requires ParseRelsFiles(b, codec, contextOf).Failure?
    ensures ParseRelsFiles(a + b, codec, contextOf).Failure?
  {
    if a == [] {
      assert a + b == b;
    } else {
      assert (a + b)[0] == a[0];
      assert (a + b)[1..] == a[1..] + b;
      ParseRelsFilesSuffixFailure(a[1..], b, codec, contextOf);
    }
  }

  /** A file of `a` without a root element fails the flattening of `a + b`. */
  lemma {:induction false} FlattenPrefixFailure(a: seq<RelsFile>, b: seq<RelsFile>)
    requires Flatten(a).Failure?
    ensures Flatten(a + b).Failure?
  {
    assert (a + b)[0] == a[0];
    if FileRelationships(a[0]).Success? {
      assert (a + b)[1..] == a[1..] + b;
      FlattenPrefixFailure(a[1..], b);
    }
  }

  /** A file of `b` without a root element fails the flattening of `a + b`. */
  lemma {:induction false} FlattenSuffixFailure(a: seq<RelsFile>, b: seq<RelsFile>)
    requires Flatten(b).Failure?
    ensures Flatten(a + b).Failure?
  {
    if a == [] {
      assert a + b == b;
    } else {
      assert (a + b)[0] == a[0];
      assert (a + b)[1..] == a[1..] + b;
      FlattenSuffixFailure(a[1..], b);
    }
  }

  /** One unreadable relationships file in `a` fails the whole pass over `a + b`. */
  lemma RelationshipsPrefixFailure(a: seq<Entry>, b: seq<Entry>, codec: Codec)
    requires RelationshipsFromEntries(a, codec).Failure?
    ensures RelationshipsFromEntries(a + b, codec).Failure?
  {
    var keep := IsRelationshipsEntry;
    var ra, rb := RelsEntries(a, keep), RelsEntries(b, keep);
    RelsEntriesAppend(a, b, keep);
    if ParseRelsFiles(ra, codec, RelsContext).Failure? {
      ParseRelsFilesPrefixFailure(ra, rb, codec, RelsContext);
    } else if ParseRelsFiles(rb, codec, RelsContext).Failure? {
      ParseRelsFilesSuffixFailure(ra, rb, codec, RelsContext);
    } else {
      ParseRelsFilesAppend(ra, rb, codec, RelsContext);
      FlattenPrefixFailure(ParseRelsFiles(ra, codec, RelsContext).value, ParseRelsFiles(rb, codec, RelsContext).value);
    }
  }

  /** One unreadable relationships file in `b` fails the whole pass over `a + b`. */
  lemma RelationshipsSuffixFailure(a: seq<Entry>, b: seq<Entry>, codec: Codec)
    requires RelationshipsFromEntries(b, codec).Failure?
    ensures RelationshipsFromEntries(a + b, codec).Failure?
  {
    var keep := IsRelationshipsEntry;
    var ra, rb := RelsEntries(a, keep), RelsEntries(b, keep);
    RelsEntriesAppend(a, b, keep);
    if ParseRelsFiles(ra, codec, RelsContext).Failure? {
      ParseRelsFilesPrefixFailure(ra, rb, codec, RelsContext);
    } else if ParseRelsFiles(rb, codec, RelsContext).Failure? {
      ParseRelsFilesSuffixFailure(ra, rb, codec, RelsContext);
    } else {
      ParseRelsFilesAppend(ra, rb, codec, RelsContext);
      FlattenSuffixFailure(ParseRelsFiles(ra, codec, RelsContext).value, ParseRelsFiles(rb, codec, RelsContext).value);
    }
  }

  /** An entry that is not a relationships file contributes no relationship. */
  lemma OtherEntryHasNoRelationships(e: Entry, codec: Codec)
    requires !IsRelationshipsEntry(e.name)
    ensures RelationshipsFromEntries([e], codec) == Success([])
  {
    assert [e][1..] == [];
    assert RelsEntries([e], IsRelationshipsEntry) == [];
  }

  /** A relationships entry the XML library rejects fails the whole pass. */
  lemma MalformedRelsEntryFails(e: Entry, codec: Codec)
    requires IsRelationshipsEntry(e.name) && ParseEntry(e, codec).Failure?
    ensures RelationshipsFromEntries([e], codec) == Failure(XmlSyntax(e.name))
  {
    assert [e][1..] == [];
    assert RelsEntries([e], IsRelationshipsEntry) == [e];
  }

  /**
   * A parsed relationships entry contributes the `Relationship` children of
   * its root element, each carrying that element's `Id`, `Type` and `Target`
   * and the file's context; without a root element the pass fails.
   */
  lemma RelsEntryRelationships(e: Entry, codec: Codec)
    requires IsRelationshipsEntry(e.name) && ParseEntry(e, codec).Success?
    ensures var doc := ParseEntry(e, codec).value;
            RelationshipsFromEntries([e], codec) ==
              if doc.elements == [] || !doc.elements[0].Element? then Failure(NoRootElement(e.name))
              else Success(RelationshipsOf(doc.elements[0].children, RelsContext(e.name)))
  {
    assert [e][1..] == [];
    assert RelsEntries([e], IsRelationshipsEntry) == [e];
    var f := RelsFile(e.name, ParseEntry(e, codec).value, RelsContext(e.name));
    assert ParseRelsFiles([e], codec, RelsContext) == Success([f] + []);
    assert [f][1..] == [];
    var first := FileRelationships(f);
    if first.Success? {
      assert Flatten([f][1..]) == Success([]);
      assert Flatten([f]) == Success(first.value + []);
      assert first.value + [] == first.value;
    }
  }

  /** A file whose last segment ends in `.rels`, in any case, after a non-empty stem is a relationships file. */
  lemma RelsExtensionSelected(segs: seq<string>, stem: string, ext: string)
    requires |segs| >= 1 && forall i :: 0 <= i < |segs| ==> '/' !in segs[i]
    requires segs[|segs| - 1] == stem + "." + ext && stem != "" && '.' !in ext
    requires ToLowerCase(ext) == "rels"
    ensures IsRelationshipsEntry(JoinSegments(segs))
  {
    ExtnameOfLastSegment(segs, stem, ext);
    LowerDotted(ext);
  }

  /** A file whose last segment is `.rels` (the package relationships) is a relationships file. */
  lemma RelsBasenameSelected(segs: seq<string>)
    requires |segs| >= 1 && forall i :: 0 <= i < |segs| ==> '/' !in segs[i]
    requires segs[|segs| - 1] == ".rels"
    ensures IsRelationshipsEntry(JoinSegments(segs))
  {
    BasenameOfJoin(segs);
    BasenameRelsSelected(JoinSegments(segs));
  }

  /** A name whose basename is `.rels` passes the filter's second test. */
  lemma BasenameRelsSelected(name: string)
    requires Basename(name) == ".rels"
    ensures IsRelationshipsEntry(name)
  {
    LowerDotted("rels");
  }

  /** Lower-casing `.ext` lower-cases `ext` and keeps the dot. */
  lemma LowerDotted(ext: string)
    requires ToLowerCase(ext) == "rels"
    ensures ToLowerCase("." + ext) == ".rels"
  {
    var d := "." + ext;
    assert forall k :: 1 <= k < |d| ==> d[k] == ext[k - 1];
    assert ToLowerCase(d)[0] == '.';
    assert ToLowerCase(d)[1..] == ToLowerCase(ext);
  }

  /** A relationships file two or more directories deep describes the directory above its own. */
  lemma ContextOfNestedRels(segs: seq<string>)
    requires PlainPath(segs) && |segs| >= 3
    ensures RelsContext(JoinSegments(segs)) == Some(JoinSegments(segs[..|segs| - 2]))
  {
    JoinParentOfDirname(segs);
    var kept := segs[..|segs| - 2];
    assert PlainSegment(kept[0]);
    if |kept| >= 2 {
      assert forall i :: 0 <= i < |kept| ==> kept[i] != "" by {
        forall i | 0 <= i < |kept| ensures kept[i] != "" { assert PlainSegment(kept[i]); }
      }
      JoinEnds(kept);
    }
  }

  /** A relationships file one directory deep (such as `_rels/.rels`) belongs to the package root. */
  lemma ContextOfRootRels(segs: seq<string>)
    requires PlainPath(segs) && |segs| == 2
    ensures RelsContext(JoinSegments(segs)) == None
  {
    JoinParentOfDirname(segs);
  }

  /** A relationships file at the archive root gets the context `..`. */
  lemma ContextOfTopLevelRels(segs: seq<string>)
    requires PlainPath(segs) && |segs| == 1
    ensures RelsContext(JoinSegments(segs)) == Some("..")
  {
    JoinParentOfDirname(segs);
  }

  lemma ContextOfDocumentRels()
    ensures RelsContext("word/_rels/document.xml.rels") == Some("word")
  {
    var nested := ["word", "_rels", "document.xml.rels"];
    DocumentRelsSegments(nested);
    ContextOfNestedRels(nested);
    assert nested[..1] == ["word"];
  }

  /** `word/_rels/document.xml.rels` is made of three plain segments. */
  lemma DocumentRelsSegments(nested: seq<string>)
    requires nested == ["word", "_rels", "document.xml.rels"]
    ensures PlainPath(nested) && JoinSegments(nested) == "word/_rels/document.xml.rels"
  {
    assert JoinSegments(nested[2..]) == "document.xml.rels";
    assert JoinSegments(nested[1..]) == "_rels/document.xml.rels";
    DocumentRelsPlain(nested);
  }

  lemma DocumentRelsPlain(nested: seq<string>)
    requires nested == ["word", "_rels", "document.xml.rels"]
    ensures PlainPath(nested)
  {
    assert PlainSegment(nested[0]) && PlainSegment(nested[1]) && PlainSegment(nested[2]);
  }

  lemma ContextOfPackageRels()
    ensures RelsContext("_rels/.rels") == None
  {
    var root := ["_rels", ".rels"];
    assert JoinSegments(root[1..]) == ".rels";
    assert JoinSegments(root) == "_rels/.rels";
    assert PlainSegment("_rels") && PlainSegment(".rels");
    ContextOfRootRels(root);
  }

  // ---------------------------------------------------------------------
  // The manifest's rules, as written and as intended

  /**
   * A manifest: the `<Types>` root element, with its attributes (a
   * conforming one carries `xmlns`), holding the given rules.
   */
  function Manifest(attrs: map<string, string>, rules: seq<Node>): Document {
    Document([Element("Types", attrs, rules)])
  }

  /** `<Default Extension="xml" ContentType="application/xml"/>` */
  const XmlDefault: Node := Element("Default", map["Extension" := "xml", "ContentType" := "application/xml"], [])

  /**
   * As written, the folds never see a manifest's rules: whatever the
   * `<Types>` element holds, both tables come out empty, so every part has
   * no content type and is read as raw bytes.
   */
  lemma ManifestRulesIgnoredAsWritten(entries: seq<Entry>, codec: Codec, attrs: map<string, string>, rules: seq<Node>)
    requires FindEntry(entries, ManifestName).Some?
    requires ParseEntry(entries[FindEntry(entries, ManifestName).value], codec) == Success(Manifest(attrs, rules))
    ensures ContentTypesFromEntriesAsWritten(entries, codec) == Success(Resolver(Empty(), Empty()))
    ensures forall uri :: ContentTypesFromEntriesAsWritten(entries, codec).value.GetContentType(uri) == None
  {
    var top := Manifest(attrs, rules).elements;
    assert top[..0] == [];
    assert Rules(top, "Default", "Extension") == [];
    assert Rules(top, "Override", "PartName") == [];
    forall uri ensures Resolver(Empty(), Empty()).GetContentType(uri) == None {
      EmptyResolvesNothing(uri);
    }
  }

  /** With the rules read from the root's children, a manifest's rules are the tables. */
  lemma ManifestRulesRead(entries: seq<Entry>, codec: Codec, attrs: map<string, string>, rules: seq<Node>)
    requires FindEntry(entries, ManifestName).Some?
    requires ParseEntry(entries[FindEntry(entries, ManifestName).value], codec) == Success(Manifest(attrs, rules))
    ensures ContentTypesFromEntries(entries, codec) == Success(ContentTypesFromElements(rules))
  {
  }

  /**
   * The smallest manifest that shows the difference: one `Default` rule for
   * `xml`. As written `word/document.xml` has no content type; as intended
   * it is `application/xml`.
   */
  lemma XmlDefaultExample(entries: seq<Entry>, codec: Codec, attrs: map<string, string>)
    requires FindEntry(entries, ManifestName).Some?
    requires ParseEntry(entries[FindEntry(entries, ManifestName).value], codec) == Success(Manifest(attrs, [XmlDefault]))
    ensures ContentTypesFromEntriesAsWritten(entries, codec).Success?
    ensures ContentTypesFromEntriesAsWritten(entries, codec).value.GetContentType("word/document.xml") == None
    ensures ContentTypesFromEntries(entries, codec).Success?
    ensures ContentTypesFromEntries(entries, codec).value.GetContentType("word/document.xml") == Some("application/xml")
  {
    ManifestRulesIgnoredAsWritten(entries, codec, attrs, [XmlDefault]);
    ManifestRulesRead(entries, codec, attrs, [XmlDefault]);
    XmlDefaultTables();
  }

  /** The tables read from one `xml` Default give `word/document.xml` the type `application/xml`. */
  lemma XmlDefaultTables()
    ensures ContentTypesFromElements([XmlDefault]).GetContentType("word/document.xml") == Some("application/xml")
  {
    var ct := ContentTypesFromElements([XmlDefault]);
    DefaultLastWins([XmlDefault], 0);
    assert ct.defaults.Get("xml") == Some(Some("application/xml"));
    RuleAbsent([XmlDefault], "Override", "PartName", "word/document.xml");
    ExtensionOfXmlPart();
    DefaultWithoutOverride(ct, "word/document.xml", "application/xml");
  }

  // ---------------------------------------------------------------------
  // Parts

  /**
   * The lookup in `_partsFromEntries`' callback: the part type of the
   * content type of a name.
   */
  function PartTypeOf(ct: Resolver): string -> PartType {
    name => TypeOfName(ct, name)
  }

  /** The part type `fromContentType` gives for the content type of `name`. */
  function TypeOfName(ct: Resolver, name: string): PartType {
    FromContentType(ct.GetContentType(name))
  }

  /**
   * One element of `_partsFromEntries`: the part's type is looked up by
   * its name (`typeOf`, which the reader instantiates with `PartTypeOf`);
   * an XML part is parsed, any other part keeps the entry's bytes.
   */
  function PartFromEntry(e: Entry, typeOf: string -> PartType, codec: Codec): Result<Part, ReadError> {
    var t := typeOf(e.name);
    if t == Xml then
      var doc :- ParseEntry(e, codec);
      Success(Part(Some(e.name), Tree(doc), t))
    else Success(Part(Some(e.name), Raw(e.data), t))
  }

  /**
   * A part read from an entry carries the entry's name and the type of its
   * content type; it fails only when it is XML and does not parse; an XML
   * part holds the parsed tree, any other part the entry's bytes.
   */
  lemma PartFromEntrySpec(e: Entry, typeOf: string -> PartType, codec: Codec)
    ensures var r := PartFromEntry(e, typeOf, codec);
            var t := typeOf(e.name);
            (r.Failure? <==> t == Xml && ParseEntry(e, codec).Failure?) &&
            (r.Failure? ==> r.error == XmlSyntax(e.name)) &&
            (r.Success? ==> r.value.uri == Some(e.name) && r.value.partType == t && WellTyped(r.value)) &&
            (r.Success? && t == Xml ==> r.value.data == Tree(ParseEntry(e, codec).value)) &&
            (r.Success? && t != Xml ==> r.value.data == Raw(e.data))
  {
  }

  /** `_partsFromEntries`: one part per entry, in entry order; the first parse failure is thrown. */
  function PartsFromEntries(entries: seq<Entry>, typeOf: string -> PartType, codec: Codec): (r: Result<seq<Part>, ReadError>)
    ensures r.Success? ==> |r.value| == |entries|
  {
    if entries == [] then Success([])
    else match PartFromEntry(entries[0], typeOf, codec)
      case Failure(err) => Failure(err)
      case Success(p) =>
        var rest := PartsFromEntries(entries[1..], typeOf, codec);
        if rest.Failure? then rest else Success([p] + rest.value)
  }

  /** Each part is the one read from the entry at its position. */
  lemma {:induction false} PartsFromEntriesEach(entries: seq<Entry>, typeOf: string -> PartType, codec: Codec)
    requires PartsFromEntries(entries, typeOf, codec).Success?
    ensures forall k :: 0 <= k < |entries| ==>
              PartFromEntry(entries[k], typeOf, codec) == Success(PartsFromEntries(entries, typeOf, codec).value[k])
  {
    if entries != [] {
      var rest := PartsFromEntries(entries[1..], typeOf, codec);
      PartsFromEntriesEach(entries[1..], typeOf, codec);
      var r := PartsFromEntries(entries, typeOf, codec).value;
      assert r == [PartFromEntry(entries[0], typeOf, codec).value] + rest.value;
      forall k | 1 <= k < |entries|
        ensures PartFromEntry(entries[k], typeOf, codec) == Success(r[k])
      {
        assert entries[k] == entries[1..][k - 1] && r[k] == rest.value[k - 1];
      }
    }
  }

  /** A failure is that of the first entry whose part cannot be read. */
  lemma {:induction false} PartsFromEntriesFailure(entries: seq<Entry>, typeOf: string -> PartType, codec: Codec, i: nat)
    requires i < |entries| && PartFromEntry(entries[i], typeOf, codec).Failure?
    requires forall j :: 0 <= j < i ==> PartFromEntry(entries[j], typeOf, codec).Success?
    ensures PartsFromEntries(entries, typeOf, codec) == Failure(PartFromEntry(entries[i], typeOf, codec).error)
  {
    if i > 0 {
      assert forall j :: 0 <= j < i - 1 ==> entries[1..][j] == entries[j + 1];
      PartsFromEntriesFailure(entries[1..], typeOf, codec, i - 1);
    }
  }

  /** The key and slot `_partsArrayToMap` stores for each part. */
  function PartPairs(parts: seq<Part>): (r: seq<(string, Option<Part>)>)
    ensures |r| == |parts|
    ensures forall k :: 0 <= k < |parts| ==> r[k] == (UriKey(parts[k].uri), Some(parts[k]))
  {
    seq(|parts|, k requires 0 <= k < |parts| => (UriKey(parts[k].uri), Some(parts[k])))
  }

  /** `_partsArrayToMap`: each part under its URI, a later part overwriting an earlier one. */
  function PartsArrayToMap(parts: seq<Part>): Dict<Option<Part>> {
    FromPairs(PartPairs(parts))
  }

  /**
   * The map holds exactly the parts' URIs, each naming a part carrying that
   * URI, which is the last part with it.
   */
  lemma PartsMapLookup(parts: seq<Part>, key: string)
    ensures PartsArrayToMap(parts).Get(key).Some? <==> exists k :: 0 <= k < |parts| && UriKey(parts[k].uri) == key
    ensures PartsArrayToMap(parts).Get(key).Some? ==>
              var slot := PartsArrayToMap(parts).Get(key).value;
              slot.Some? && UriKey(slot.value.uri) == key && slot.value in parts
  {
    var pairs := PartPairs(parts);
    FromPairsPresent(pairs, key);
    if PartsArrayToMap(parts).Get(key).Some? {
      FromPairsValueFrom(pairs, key);
      var i :| 0 <= i < |pairs| && pairs[i] == (key, PartsArrayToMap(parts).Get(key).value);
      assert pairs[i] == (UriKey(parts[i].uri), Some(parts[i]));
    }
    if exists k :: 0 <= k < |parts| && UriKey(parts[k].uri) == key {
      var k :| 0 <= k < |parts| && UriKey(parts[k].uri) == key;
      assert pairs[k].0 == key;
    }
  }

  /** The last part with a given URI is the one the map keeps. */
  lemma PartsMapLastWins(parts: seq<Part>, i: nat)
    requires i < |parts|
    requires forall j :: i < j < |parts| ==> UriKey(parts[j].uri) != UriKey(parts[i].uri)
    ensures PartsArrayToMap(parts).Get(UriKey(parts[i].uri)) == Some(Some(parts[i]))
  {
    FromPairsLastWins(PartPairs(parts), i);
  }

  /** With distinct URIs the map's keys are the URIs in part order. */
  lemma PartsMapKeys(parts: seq<Part>)
    requires forall i, j :: 0 <= i < j < |parts| ==> UriKey(parts[i].uri) != UriKey(parts[j].uri)
    ensures |PartsArrayToMap(parts).keys| == |parts|
    ensures forall i :: 0 <= i < |parts| ==> PartsArrayToMap(parts).keys[i] == UriKey(parts[i].uri)
  {
    FromPairsKeys(PartPairs(parts));
  }

  // ---------------------------------------------------------------------
  // The whole pass

  /** What `fromBuffer` stores in the new package's three fields. */
  datatype PackageState = PackageState(contentTypes: Resolver, parts: Dict<Option<Part>>, relationships: seq<Relationship>)

  /**
   * `fromBuffer`'s three stages in their order: content types, then parts
   * (which need them), then relationships. The first failure is the result.
   */
  function Read(entries: seq<Entry>, codec: Codec): (r: Result<PackageState, ReadError>)
    ensures r.Success? ==> r.value.parts.Valid()
  {
    var ct :- ContentTypesFromEntries(entries, codec);
    var parts :- PartsFromEntries(entries, PartTypeOf(ct), codec);
    var rels :- RelationshipsFromEntries(entries, codec);
    Success(PackageState(ct, PartsArrayToMap(parts), rels))
  }

  /** The package read holds no removed slot: every key names a part. */
  lemma ReadSlotsFilled(entries: seq<Entry>, codec: Codec, k: string)
    requires Read(entries, codec).Success?
    ensures var parts := Read(entries, codec).value.parts;
            parts.Get(k).Some? ==> parts.Get(k).value.Some? && UriKey(parts.Get(k).value.value.uri) == k
  {
    ReadStages(entries, codec);
    var ct := Read(entries, codec).value.contentTypes;
    PartsMapLookup(PartsFromEntries(entries, PartTypeOf(ct), codec).value, k);
  }

  /** What `Read` stores: the parts read with the content types it stores. */
  lemma ReadStages(entries: seq<Entry>, codec: Codec)
    requires Read(entries, codec).Success?
    ensures var s := Read(entries, codec).value;
            ContentTypesFromEntries(entries, codec) == Success(s.contentTypes) &&
            PartsFromEntries(entries, PartTypeOf(s.contentTypes), codec).Success? &&
            s.parts == PartsArrayToMap(PartsFromEntries(entries, PartTypeOf(s.contentTypes), codec).value) &&
            RelationshipsFromEntries(entries, codec) == Success(s.relationships)
  {
  }

  /**
   * Every entry becomes a part under its own name, typed by its content
   * type; with distinct names the parts are in entry order.
   */
  lemma PartsMapOfEntries(entries: seq<Entry>, typeOf: string -> PartType, codec: Codec, parts: seq<Part>)
    requires PartsFromEntries(entries, typeOf, codec) == Success(parts)
    requires forall i, j :: 0 <= i < j < |entries| ==> entries[i].name != entries[j].name
    ensures |parts| == |entries|
    ensures forall i :: 0 <= i < |entries| ==> PartFromEntry(entries[i], typeOf, codec) == Success(parts[i])
    ensures |PartsArrayToMap(parts).keys| == |entries|
    ensures forall i :: 0 <= i < |entries| ==> PartsArrayToMap(parts).keys[i] == entries[i].name
    ensures forall i :: 0 <= i < |entries| ==> PartsArrayToMap(parts).Get(entries[i].name) == Some(Some(parts[i]))
  {
    PartsNamed(entries, typeOf, codec, parts);
    PartsMapKeys(parts);
    forall i | 0 <= i < |entries| ensures PartsArrayToMap(parts).Get(entries[i].name) == Some(Some(parts[i])) {
      PartsMapLastWins(parts, i);
    }
  }

  /** The parts read from entries carry the entries' names. */
  lemma PartsNamed(entries: seq<Entry>, typeOf: string -> PartType, codec: Codec, parts: seq<Part>)
    requires PartsFromEntries(entries, typeOf, codec) == Success(parts)
    ensures |parts| == |entries|
    ensures forall i :: 0 <= i < |parts| ==> PartFromEntry(entries[i], typeOf, codec) == Success(parts[i])
    ensures forall i :: 0 <= i < |parts| ==> UriKey(parts[i].uri) == entries[i].name
  {
    PartsFromEntriesEach(entries, typeOf, codec);
    forall i | 0 <= i < |parts| ensures UriKey(parts[i].uri) == entries[i].name {
      PartFromEntrySpec(entries[i], typeOf, codec);
    }
  }

  /** Without a `[Content_Types].xml` entry the pass fails before reading any part. */
  lemma ReadWithoutManifest(entries: seq<Entry>, codec: Codec)
    requires forall j :: 0 <= j < |entries| ==> entries[j].name != ManifestName
    ensures Read(entries, codec) == Failure(MissingContentTypes)
  {
    assert ContentTypesFromEntries(entries, codec) == Failure(MissingContentTypes);
  }

  /**
   * With distinct entry names, the i-th key of the package read is the i-th
   * entry's name, and it holds a part with that URI whose type is
   * `fromContentType(getContentType(name))`: the parsed tree for an XML part,
   * the entry's bytes for any other.
   */
  lemma ReadPart(entries: seq<Entry>, codec: Codec, i: nat)
    requires Read(entries, codec).Success? && i < |entries|
    requires forall a, b :: 0 <= a < b < |entries| ==> entries[a].name != entries[b].name
    ensures var s := Read(entries, codec).value;
            |s.parts.keys| == |entries| && s.parts.keys[i] == entries[i].name
    ensures var s := Read(entries, codec).value;
            var slot := s.parts.Get(entries[i].name);
            var t := FromContentType(s.contentTypes.GetContentType(entries[i].name));
            slot.Some? && slot.value.Some? &&
            slot.value.value.uri == Some(entries[i].name) && slot.value.value.partType == t &&
            (t == Xml ==> ParseEntry(entries[i], codec).Success? &&
                          slot.value.value.data == Tree(ParseEntry(entries[i], codec).value)) &&
            (t != Xml ==> slot.value.value.data == Raw(entries[i].data))
  {
    ReadStages(entries, codec);
    var ct := Read(entries, codec).value.contentTypes;
    var typeOf := PartTypeOf(ct);
    var parts := PartsFromEntries(entries, typeOf, codec).value;
    PartsMapOfEntries(entries, typeOf, codec, parts);
    PartFromEntrySpec(entries[i], typeOf, codec);
    assert typeOf(entries[i].name) == FromContentType(ct.GetContentType(entries[i].name));
  }

  /**
   * `OpenXmlReader.fromBuffer`: a new package whose three fields are set
   * from the archive's entries.
   */
  method FromBuffer(entries: seq<Entry>, codec: Codec) returns (r: Result<Package, ReadError>)
    ensures r.Failure? <==> Read(entries, codec).Failure?
    ensures r.Failure? ==> r.error == Read(entries, codec).error
    ensures r.Success? ==> fresh(r.value) && r.value.Valid() && r.value.contentTypes.Some?
    ensures r.Success? ==>
              Read(entries, codec) == Success(PackageState(r.value.contentTypes.value, r.value.parts, r.value.relationships))
  {
    var res := Read(entries, codec);
    if res.Failure? {
      return Failure(res.error);
    }
    var s := res.value;
    var pkg := new Package();
    pkg.contentTypes := Some(s.contentTypes);
    pkg.parts := s.parts;
    pkg.relationships := s.relationships;
    r := Success(pkg);
  }
}
