# openxml-node: the package model, in Dafny

This project models the core of `openxml-node`: the in-memory model of an
Open Packaging Conventions container (ECMA-376 Part 2), and the two passes
between the entries of a zip archive and a package. It covers:

- **Content types** (`OpenXmlContentTypes`). A resolver holds two plain
  objects. `overrides` maps part URIs and `defaults` maps file extensions.
  `getContentType` tries the override, then the default for the
  extension, then gives `null`.
- **Part types** (`OpenXmlPartType`). `fromContentType` is a suffix test
  on the media type. It gives one of two tags, `xml` or `unknown`.
- **Parts and relationships** (`OpenXmlPart`, `OpenXmlRelationship`).
  These are constructor-only records with their defaults.
- **The package** (`OpenXmlPackage`). A class whose part table is updated
  in place by `addPart` and `removePartWithUri`. Removing a part stores
  `undefined` and keeps the key.
- **The reader** (`OpenXmlReader.fromBuffer`):
  - finds `[Content_Types].xml` and folds its `Default`/`Override`
    elements into the two tables;
  - turns every entry into one part, then folds the parts into a table
    keyed by URI;
  - selects the relationships files, gives each one a context, and
    flattens their `Relationship` elements in order.
- **The writer** (`OpenXmlWriter.toBuffer`). A loop over the part table's
  keys that emits one archive entry per part: re-serialised XML for `xml`
  parts, the raw bytes for others.

## How the JavaScript is represented

The model keeps these JavaScript behaviours:

- **Objects.** A plain object used as a dictionary is a `JsObject.Dict`.
  Its keys are kept in insertion order, the order `Object.keys` reports,
  and assigning an existing key keeps that key's position.
- **Removed parts.** The package's table holds `Option<Part>`. A removed
  part is `None` (`undefined`) under a key that is still listed, so
  "exists" means present and `Some`.
- **Key coercion.** JavaScript turns a `null` uri into the key `"null"`
  and a missing attribute (`undefined`) into the key `"undefined"`. The
  model does the same (`Parts.UriKey`, `Reader.AttributeKey`).
- **Truthiness.** The truthiness tests of `getContentType` make an empty
  string count as no rule (`ContentTypes.Rule`).
- **Node's `path` module.** `basename`, `extname`, `dirname` and
  `join(d, '..')` with its `normalize` are modelled on POSIX (`NodePath`).
  So are `toLowerCase` (for ASCII letters) and `slice` (`JsString`).
- **Outside libraries.** The zip archive is a sequence of named byte
  strings (`Interfaces.Entry`). The XML library and the UTF-8 conversions
  of `Buffer` are four functions in a `Codec` that is passed in. The one
  property assumed of them, and only where stated, is
  `Codec.RoundTrips()`: a tree the library parsed, once serialised,
  parses back to itself.
- **Failures.** A JavaScript exception is a `Failure` value:
  - `ReadError` for the reader;
  - `WriteError` for the writer, including parts the model refuses to
    hand to the libraries (see Left out);
  - `PackageError` for the part table;
  - `ResolveError` for a `null` uri handed to `path.extname`.

The package's methods are imperative (`Packages.Package`). Each one is
proved against the pure functions `Added` and `Removed`. The writer's
`forEach` is a `while` loop (`Writer.ToBuffer`) proved equal to the
function `Writer.Write`. `fromBuffer` is a method that fills a fresh
`Package` from the function `Reader.Read`. The `Default`/`Override`
folds, the parts fold and the relationships pipeline are functions.

The main results are in `RoundTrip`. They are about `Reader.Read`, which
uses the corrected manifest fold (see Findings):

- **Writing what was read** (`WriteAfterRead`) emits one entry per
  archive entry, in order and under the same name.
- **Reading that output again** (`ReadWriteRead`) gives the same package,
  and writing it again gives the same entries.

`WriteAfterRead` needs distinct entry names. `ReadWriteRead` needs
distinct entry names and a round-tripping codec.

## Model

| member | source | states |
|---|---|---|
| ContentTypes.Rule | src/openXmlContentTypes.js:43-47 | a table entry counts as a rule exactly when it holds a defined, non-empty string, which is then the rule |
| ContentTypes.Resolver.GetContentType | src/openXmlContentTypes.js:42-51 | a result is never the empty string and is the override for the uri or the default for its extension |
| ContentTypes.Resolver.GetContentTypeForPart | src/openXmlContentTypes.js:63-65 | for a part with a uri it is `getContentType(part.uri)`; a `null` uri succeeds only through an override stored under `"null"`, and then returns that override; otherwise it fails |
| ContentTypes.OverrideWins | src/openXmlContentTypes.js:43-45 | a non-empty override is returned whatever the defaults hold |
| ContentTypes.DefaultWithoutOverride | src/openXmlContentTypes.js:46-49 | with no applicable override, the non-empty default for the uri's extension is returned |
| ContentTypes.NoRuleIsNull | src/openXmlContentTypes.js:50 | with neither rule the result is `null`, not an error |
| ContentTypes.ResolvedIff | src/openXmlContentTypes.js:42-51 | a content type is found exactly when one of the two rules applies |
| ContentTypes.EmptyResolvesNothing | src/openXmlContentTypes.js:27-30 | a default-constructed resolver gives `null` for every uri |
| ContentTypes.Extension | src/openXmlContentTypes.js:46 | `path.extname(uri).slice(1)`; no contract of its own, specified by `ExtensionOfLastSegment`, `PartExtensionOfDotted`, `PartExtensionOfUndotted` and `NoExtension` |
| ContentTypes.PartExtensionOfDotted | src/openXmlContentTypes.js:46 | a last path part `stem.ext` with a non-empty stem has the extension `.ext` |
| ContentTypes.PartExtensionOfUndotted | src/openXmlContentTypes.js:46 | a last path part with no dot, or only a leading one, has no extension |
| ContentTypes.ExtensionOfLastSegment | src/openXmlContentTypes.js:46 | the extension looked up is the text after the last dot of the last segment, case kept |
| ContentTypes.ExtnameOfLastSegment | src/openXmlReader.js:91 | `path.extname` of a path whose last segment is `stem.ext` is `.ext` |
| ContentTypes.NoExtension | src/openXmlContentTypes.js:46 | names without a dot and dotfiles such as `.rels` are looked up under `""` |
| ContentTypes.ExtensionOfXmlPart | src/openXmlContentTypes.js:46 | `word/document.xml` has the extension `xml` |
| ContentTypes.ExtensionOfRelsPart | src/openXmlContentTypes.js:46 | `word/_rels/document.xml.rels` has the extension `rels` |
| ContentTypes.DotfileHasNoExtension | src/openXmlContentTypes.js:46 | `_rels/.rels` has the extension `""` |
| PartTypes.FromContentType | src/openXmlPartType.js:19-31 | `fromContentType`; no contract of its own, specified by `FromContentTypeIsXml` and the lemmas below |
| PartTypes.FromContentTypeIsXml | src/openXmlPartType.js:19-31 | the tag is `xml` if and only if the content type is a string of at least three characters whose last three, lower-cased, read `xml`; otherwise it is `unknown` |
| PartTypes.TagsDistinct | src/openXmlPartType.js:6-7 | the two tags are told apart by their strings; only `XML` is `'xml'` |
| PartTypes.ShortIsUnknown | src/openXmlPartType.js:26 | strings shorter than three characters are `unknown` |
| PartTypes.SameSuffixSameTag | src/openXmlPartType.js:26 | two strings with the same lower-cased three-character suffix get the same tag |
| PartTypes.LowerXmlSuffix | src/openXmlPartType.js:26-28 | a string ending in lower-case `xml` is `xml` |
| PartTypes.NullAndEmptyAreUnknown | src/openXmlPartType.js:22-24 | `null` and `""` are `unknown` |
| PartTypes.XmlExamples | src/openXmlPartType.js:26-28 | `application/xml` and the relationships media type are `xml` |
| PartTypes.UpperCaseXmlExample | src/openXmlPartType.js:26-28 | `TEXT/XML` is `xml` |
| PartTypes.PngExample | src/openXmlPartType.js:29-30 | `image/png` is `unknown` |
| Parts.UriKey | src/openXmlReader.js:175 | a part with a uri is stored under that uri |
| Parts.ConstructorFields | src/openXmlPart.js:19-23 | the fields are stored as given; an omitted uri or data is `null` and an omitted type is `unknown` |
| Relationships.ConstructorFields | src/openXmlRelationship.js:16-21 | the four fields are stored as given; omitted ones are `null`, and a `null` context is the package root |
| Packages.Exists | src/openXmlPackage.js:37-39 | `!!parts[uri]`: the key holds a part; no contract of its own, it is the test `Added` and `Removed` are stated with |
| Packages.Added | src/openXmlPackage.js:48-55 | fails with a duplicate error exactly when the uri exists; otherwise the slot holds the part and every other key reads as before |
| Packages.Removed | src/openXmlPackage.js:77-83 | fails exactly when the uri does not exist; otherwise the slot is `undefined`, the uri no longer exists, other keys and the key order are unchanged |
| Packages.ReAddAfterRemove | src/openXmlPackage.js:37-55 | a removed uri can be added again, and its part returns to the key's old position |
| Packages.RemoveAfterAdd | src/openXmlPackage.js:48-83 | a part just added can be removed, after which its uri does not exist |
| Packages.Package.constructor | src/openXmlPackage.js:13-17 | a new package has no content types, no parts and no relationships |
| Packages.Package.PartExistsWithUri | src/openXmlPackage.js:37-39 | `partExistsWithUri(uri)` reads the package's table through `Exists`; no contract of its own, used in the ensures of `AddPart` and `RemovePartWithUri` |
| Packages.Package.PartExists | src/openXmlPackage.js:26-28 | `partExists(p)` is `partExistsWithUri(p.uri)` |
| Packages.Package.AddPart | src/openXmlPackage.js:48-55 | fails, changing nothing, when the part exists; otherwise the table is `Added(old table, part)` and the part exists |
| Packages.Package.RemovePart | src/openXmlPackage.js:65-67 | behaves as `removePartWithUri(part.uri)` |
| Packages.Package.RemovePartWithUri | src/openXmlPackage.js:77-83 | fails, changing nothing, when the uri does not exist; otherwise the table is `Removed(old table, uri)` with the same key order |
| JsObject.Dict.Put | src/openXmlReader.js:58 | the key reads as the new value, every other key reads as before, a present key keeps its position and a new key is appended |
| JsObject.Empty | src/openXmlReader.js:60 | `{}` has no keys and reads `undefined` everywhere |
| JsObject.FromPairsAbsent | src/openXmlReader.js:54-60 | a key no pair assigns reads as `undefined` |
| JsObject.FromPairsLastWins | src/openXmlReader.js:54-60 | a key reads as the value of the last pair that assigns it |
| JsObject.FromPairsPresent | src/openXmlReader.js:54-60 | a key is present exactly when some pair assigns it |
| JsObject.FromPairsKeys | src/openXmlReader.js:54-60 | with distinct keys, the key order is the order of the pairs |
| JsObject.FromPairsValueFrom | src/openXmlReader.js:54-60 | every value read back was assigned by a pair under that key |
| JsString.ToLowerCase | src/openXmlPartType.js:26 | lower-cases each character in place (ASCII letters) and keeps the length |
| JsString.SliceLast | src/openXmlPartType.js:26 | `slice(-n)` is the last `n` characters, or the whole string when shorter |
| JsString.SliceFrom | src/openXmlContentTypes.js:46 | `slice(1)` drops the first character, or gives `""` for a shorter string |
| NodePath.BasenameOfJoin | src/openXmlReader.js:92 | the basename of a path of separator-free segments is its last segment |
| NodePath.DirnameOfPlain | src/openXmlReader.js:103 | `dirname` drops the last segment of a plain relative path, or gives `.` for a single segment |
| NodePath.JoinParentOfDot | src/openXmlReader.js:103 | `path.join('.', '..')` is `..` |
| NodePath.JoinParentOfPlain | src/openXmlReader.js:103 | `path.join(d, '..')` drops the last segment of a plain path `d`, or gives `.` |
| NodePath.JoinParentOfDirname | src/openXmlReader.js:103 | `path.join(path.dirname(name), '..')` drops the last two segments of a plain path (`..` for one segment, `.` for two) |
| Reader.FindEntry | src/openXmlReader.js:42-45 | the index found is the first entry with that name; none exists when nothing is found |
| Reader.ParseEntry | src/openXmlReader.js:47-48 | fails, naming the entry, exactly when the XML library rejects its UTF-8 text; otherwise gives the parsed document |
| Reader.AttributeKey | src/openXmlReader.js:55-58 | a present attribute is used as the key as it is |
| Reader.ContentTypesFromEntriesAsWritten | src/openXmlReader.js:40-75 | as written: fails with a missing-manifest error exactly when no entry is named `[Content_Types].xml`; the folds are applied to the document's top-level elements |
| Reader.ContentTypesFromEntries | src/openXmlReader.js:40-75 | fails with a missing-manifest error exactly when no entry is named `[Content_Types].xml`; any other failure is a parse or missing-root error of the manifest |
| Reader.ContentTypesFromElements | src/openXmlReader.js:50-72 | the two `reduce` folds over a list of elements; no contract of its own, specified by `RuleLastWins`, `RuleAbsent`, `DefaultLastWins`, `OverrideLastWins` and `OtherElementsIgnored` |
| Reader.RuleLastWins | src/openXmlReader.js:54-60 | for elements of a name, the last one with a key decides that key's content type |
| Reader.RuleAbsent | src/openXmlReader.js:50-72 | a key no element of that name carries has no rule |
| Reader.DefaultLastWins | src/openXmlReader.js:50-60 | the last `Default` for an extension gives its content type |
| Reader.OverrideLastWins | src/openXmlReader.js:62-72 | the last `Override` for a part name gives its content type |
| Reader.OtherElementsIgnored | src/openXmlReader.js:50-72 | elements with any other name, and text nodes, change neither table |
| Reader.IsRelationshipsEntry | src/openXmlReader.js:89-95 | the relationships filter; no contract of its own, specified by `RelsExtensionSelected`, `RelsBasenameSelected` and `BasenameRelsSelected` |
| Reader.RelsExtensionSelected | src/openXmlReader.js:89-95 | a name whose last segment ends in `.rels`, in any case, after a non-empty stem is a relationships file |
| Reader.RelsBasenameSelected | src/openXmlReader.js:89-95 | a name whose last segment is `.rels` is a relationships file |
| Reader.BasenameRelsSelected | src/openXmlReader.js:92-94 | any name whose basename is `.rels` passes the filter |
| Reader.LowerDotted | src/openXmlReader.js:91 | a `.ext` whose `ext` lower-cases to `rels` lower-cases to `.rels` |
| Reader.RelsContext | src/openXmlReader.js:102-108 | the context is never `.`: the package root is `null` |
| Reader.ContextOfNestedRels | src/openXmlReader.js:102-108 | for a plain path of three or more segments the context is the path without its last two segments |
| Reader.ContextOfRootRels | src/openXmlReader.js:102-108 | a two-segment relationships file such as `_rels/.rels` has the context `null` |
| Reader.ContextOfTopLevelRels | src/openXmlReader.js:102-108 | a one-segment relationships file has the context `..` |
| Reader.ContextOfDocumentRels | src/openXmlReader.js:102-108 | `word/_rels/document.xml.rels` has the context `word` |
| Reader.ContextOfPackageRels | src/openXmlReader.js:102-108 | `_rels/.rels` has the context `null` |
| Reader.ElementsNamed | src/openXmlReader.js:118-120 | keeps only elements of the given name, never more than given |
| Reader.ElementsNamedSingle | src/openXmlReader.js:118-120 | a single node is kept exactly when it has the name |
| Reader.ElementsNamedAppend | src/openXmlReader.js:118-120 | the filter of `a + b` is the filter of `a` followed by that of `b`: every matching node is kept, in order |
| Reader.RelationshipsOf | src/openXmlReader.js:117-128 | one relationship per `Relationship` child, each with the file's context |
| Reader.RelationshipsOfSingle | src/openXmlReader.js:121-127 | a `Relationship` element gives exactly one relationship, with its `Id`, `Type` and `Target` attributes and the file's context; any other element gives none |
| Reader.RelationshipsOfAppend | src/openXmlReader.js:117-128 | the relationships of children `a + b` are those of `a` followed by those of `b`, in declaration order |
| Reader.RelsEntries | src/openXmlReader.js:88-95 | every entry kept is one the filter accepts |
| Reader.ParseRelsFiles | src/openXmlReader.js:96-114 | on success, one parsed file per selected entry |
| Reader.RelsEntriesAppend | src/openXmlReader.js:88-95 | the filter keeps entry order |
| Reader.ParseRelsFilesAppend | src/openXmlReader.js:96-114 | parsing keeps entry order |
| Reader.FileRelationships | src/openXmlReader.js:116-128 | one file's relationships, failing without a root element; no contract of its own, specified by `RelsEntryRelationships` |
| Reader.Flatten | src/openXmlReader.js:115-131 | the `reduce` over the parsed files; no contract of its own, specified by `FlattenAppend`, `FlattenPrefixFailure` and `FlattenSuffixFailure` |
| Reader.FlattenAppend | src/openXmlReader.js:115-131 | the reduce concatenates the files' relationships in file order |
| Reader.RelationshipsFromEntries | src/openXmlReader.js:87-132 | `_relationshipsFromEntries`; no contract of its own, specified by `RelationshipsAppend`, `RelsEntryRelationships`, `OtherEntryHasNoRelationships`, `MalformedRelsEntryFails` and the two `Relationships…Failure` lemmas |
| Reader.RelationshipsAppend | src/openXmlReader.js:87-132 | the relationships of `a + b` are those of `a` followed by those of `b`: none dropped, merged or reordered |
| Reader.ParseRelsFilesFirst | src/openXmlReader.js:96-114 | the parse of a non-empty list succeeds exactly when its first file and the rest do, and is then the first file followed by the rest |
| Reader.ParseRelsFilesPrefixFailure | src/openXmlReader.js:96-99 | a file of `a` that cannot be parsed fails the parse of `a + b` |
| Reader.ParseRelsFilesSuffixFailure | src/openXmlReader.js:96-99 | a file of `b` that cannot be parsed fails the parse of `a + b` |
| Reader.FlattenPrefixFailure | src/openXmlReader.js:115-117 | a file of `a` without a root element fails the flattening of `a + b` |
| Reader.FlattenSuffixFailure | src/openXmlReader.js:115-117 | a file of `b` without a root element fails the flattening of `a + b` |
| Reader.RelationshipsPrefixFailure | src/openXmlReader.js:87-132 | a failing relationships file in `a` fails the whole pass over `a + b`, whatever `b` holds |
| Reader.RelationshipsSuffixFailure | src/openXmlReader.js:87-132 | a failing relationships file in `b` fails the whole pass over `a + b`, whatever `a` holds |
| Reader.OtherEntryHasNoRelationships | src/openXmlReader.js:89-95 | an entry that is not a relationships file contributes nothing |
| Reader.MalformedRelsEntryFails | src/openXmlReader.js:99 | a relationships entry the XML library rejects fails the pass |
| Reader.RelsEntryRelationships | src/openXmlReader.js:115-131 | a relationships file contributes its root's `Relationship` children in order, with their `Id`, `Type`, `Target` and its context; without a root element the pass fails |
| Reader.ManifestRulesIgnoredAsWritten | src/openXmlReader.js:50-72 | as written, a manifest's rules never reach the tables, whatever attributes (such as `xmlns`) the `<Types>` root carries: every uri has no content type |
| Reader.ManifestRulesRead | src/openXmlReader.js:40-75 | read from the root's children, the manifest's rules are the tables, whatever attributes the root carries |
| Reader.XmlDefaultExample | src/openXmlReader.js:50-62 | with one `xml` default, `word/document.xml` has no content type as written and `application/xml` as intended |
| Reader.XmlDefaultTables | src/openXmlReader.js:50-62 | the tables read from one `xml` default give `word/document.xml` the type `application/xml` |
| Reader.PartFromEntry | src/openXmlReader.js:146-160 | the body of the `map` in `_partsFromEntries`; no contract of its own, specified by `PartFromEntrySpec` |
| Reader.PartFromEntrySpec | src/openXmlReader.js:146-160 | a part carries the entry's name and the type of its content type; it fails only for an XML part that does not parse; XML parts hold the tree, others the entry's bytes |
| Reader.PartsFromEntries | src/openXmlReader.js:145-161 | on success, exactly one part per entry |
| Reader.PartsFromEntriesEach | src/openXmlReader.js:146-160 | the i-th part is the one read from the i-th entry |
| Reader.PartsFromEntriesFailure | src/openXmlReader.js:145-161 | a failure is that of the first entry that cannot be read |
| Reader.PartsArrayToMap | src/openXmlReader.js:173-178 | `_partsArrayToMap`; no contract of its own, specified by `PartsMapLookup`, `PartsMapLastWins` and `PartsMapKeys` |
| Reader.PartPairs | src/openXmlReader.js:174-177 | each part is assigned under its uri, in order |
| Reader.PartsMapLookup | src/openXmlReader.js:173-178 | a key is present exactly when some part has that uri, and it holds a part with that uri taken from the array |
| Reader.PartsMapLastWins | src/openXmlReader.js:174-177 | when uris repeat, the last part with a uri is the one kept |
| Reader.PartsMapKeys | src/openXmlReader.js:173-178 | with distinct uris, the keys are the uris in part order |
| Reader.PartsNamed | src/openXmlReader.js:146-159 | every part's uri is its entry's name |
| Reader.PartsMapOfEntries | src/openXmlReader.js:145-178 | with distinct names, the table's keys are the entry names in order, each holding the part read from that entry |
| Reader.Read | src/openXmlReader.js:194-209 | the part table of a package read holds no duplicate key and no slot without a key |
| Reader.ReadStages | src/openXmlReader.js:200-206 | a package read stores the content types, the parts typed by them and the relationships, each stage having succeeded |
| Reader.ReadSlotsFilled | src/openXmlReader.js:173-178 | no key of a package read holds a removed slot, and each holds a part with that uri |
| Reader.ReadWithoutManifest | src/openXmlReader.js:41-47 | without a `[Content_Types].xml` entry the pass fails |
| Reader.ReadPart | src/openXmlReader.js:145-161 | with distinct names, the i-th key is the i-th entry's name and holds a part with that uri, typed `fromContentType(getContentType(name))`, holding the parsed tree if XML and the bytes otherwise |
| Reader.FromBuffer | src/openXmlReader.js:194-209 | fails exactly when `Read` does, with its error; otherwise a fresh, valid package whose three fields are what `Read` gives |
| Writer.PartBytes | src/openXmlWriter.js:24-29 | the data written for a writable part; no contract of its own, specified through the ensures of `EntryFor` and by `RoundTrip.EntryForReadPart` |
| Writer.EntryFor | src/openXmlWriter.js:21-31 | a key's entry is written exactly when its slot holds a writable part; it is named by `part.uri` and holds the UTF-8 serialised tree for an `xml` part and the part's bytes otherwise; a removed slot fails |
| Writer.Write | src/openXmlWriter.js:19-35 | `toBuffer` as a function of the part table; no contract of its own, specified by `EntriesForShape`, `EntriesForFirstFailure` and `RemovedSlotFails`, and equal to the loop `ToBuffer` |
| Writer.EntriesFor | src/openXmlWriter.js:21-32 | on success, one entry per key |
| Writer.EntriesForShape | src/openXmlWriter.js:21-32 | the loop succeeds exactly when every key's entry can be written, and then the i-th entry is that of the i-th key |
| Writer.EntriesForFirstFailure | src/openXmlWriter.js:21-31 | the failure reported is that of the first key that cannot be written |
| Writer.EntriesForPrefixFailure | src/openXmlWriter.js:21-32 | once a key fails, the later keys do not change the result |
| Writer.RemovedSlotFails | src/openXmlWriter.js:21-25 | writing a package from which a part was removed fails |
| Writer.ToBuffer | src/openXmlWriter.js:19-35 | the loop's result is `Write(package.parts)`; the package is not modified |
| RoundTrip.Rewritten | src/openXmlWriter.js:24-31 | the rewritten entry keeps the entry's name |
| RoundTrip.RewrittenAll | src/openXmlWriter.js:21-31 | one rewritten entry per entry |
| RoundTrip.EntryForReadPart | src/openXmlWriter.js:24-31 | the entry written for a part read from `e` is `e` with an XML part's tree re-serialised |
| RoundTrip.WriteRewritten | src/openXmlWriter.js:21-31 | when each key's entry is the rewritten entry at its position, the writer emits the rewritten entries |
| RoundTrip.WriteAfterRead | src/openXmlWriter.js:21-31 | for distinct names, writing what was read succeeds and emits the entries in order and under their names, XML parts re-serialised and other parts unchanged |
| RoundTrip.FindEntrySameNames | src/openXmlReader.js:42-45 | the manifest lookup depends only on the entry names |
| RoundTrip.ContentTypesSame | src/openXmlReader.js:40-75 | the content types depend only on the names and parses |
| RoundTrip.PartsSame | src/openXmlReader.js:145-161 | the parts depend only on the part read from each entry |
| RoundTrip.RelsFilesSame | src/openXmlReader.js:88-114 | the parsed relationships files depend only on the names and parses |
| RoundTrip.RelationshipsSame | src/openXmlReader.js:87-132 | the relationships depend only on the names and parses |
| RoundTrip.ReadSame | src/openXmlReader.js:194-209 | two archives with the same names, parses and parts read as the same package |
| RoundTrip.RewrittenReadsAlike | src/openXmlReader.js:147-157 | with a round-tripping codec, a rewritten entry parses and reads as the original |
| RoundTrip.ReadRewritten | src/openXmlReader.js:194-209 | reading the rewritten entries gives the package the first read gave |
| RoundTrip.ReadWriteRead | src/openXmlWriter.js:19-35 | for distinct names and a round-tripping codec, read, write and read again gives the same package, and writing it again gives the same entries |

## Left out

- The zip layer (AdmZip construction, entry iteration, compression,
  `addFile`, `toBuffer`) is not modelled. An archive is a sequence of
  named byte strings, and the writer's result is the sequence of entries
  it adds.
- When two parts share a uri, the zip library may handle repeated
  `addFile` names in its own way. This model keeps both entries in
  order.
- The XML library (`xml2js`, `js2xml` and their options) and `Buffer`'s
  UTF-8 conversion are outside the model. They are passed in as the
  functions of a `Codec`. The only property assumed of them, and only in
  the round-trip lemmas, is that a tree the library parsed, once
  serialised, parses back to itself (`Codec.RoundTrips`). It is not asked
  of arbitrary trees, which xml-js does not return unchanged (two adjacent
  text nodes serialise to one).
- The trees are modelled as always having `elements` and `attributes`,
  even though xml-js may omit these members when they are empty. A tree
  holds only element and text nodes: the `declaration` and the comment,
  processing-instruction and CDATA nodes that xml-js also produces are not
  modelled, so `Codec.RoundTrips` is assumed over this narrower tree.
- Reader.RelsEntryRelationships: the model reads as contributing nothing
  a relationships file whose root element has no children, and reads a
  `Relationship` element with no attributes as a relationship whose `Id`,
  `Type` and `Target` are all absent. In the source these make the read
  fail. xml-js leaves out an empty `elements` or `attributes` member, so
  `cur.data.elements[0].elements.filter` (src/openXmlReader.js:117) or
  `element.attributes['Id']` (src/openXmlReader.js:122-124) throws a
  `TypeError`, and `fromBuffer` rejects.
- Reader.ContentTypesFromEntries: the model reads a manifest with
  missing members as giving empty tables, or tables keyed `"undefined"`,
  where the source throws. Both `Reader.ContentTypesFromEntriesAsWritten`
  and the corrected fold do this. xml-js leaves out an empty `elements`
  or `attributes` member, so the manifest's top-level
  `contentTypeData.elements` (src/openXmlReader.js:50), the children of a
  childless `<Types/>` under the corrected fold, or the attributes of a
  `Default`/`Override` without attributes (src/openXmlReader.js:55-56,
  67-68) are `undefined` and the read fails with a `TypeError`.
- Parts.Part: the source's `type` is any string, but a part's type here
  is `Xml` or `Unknown`. Every type other than `'xml'` is modelled as
  `Unknown`. This keeps the writer's behaviour, since it tests only
  `part.type === 'xml'` (src/openXmlWriter.js:24).
- Disk I/O (`fromFile`, `fromFileSync`, `toFile`, `toFileSync`) and the
  Promise plumbing are file-system calls around `fromBuffer`/`toBuffer`,
  so they are left out.
- Writer.EntryFor: refuses three kinds of part with `NotWritable` where
  src/openXmlWriter.js:21-31 checks nothing and hands the part to the
  libraries. These are a part whose data is `null` (the default of
  `new OpenXmlPart(uri)`), a part whose data is of the other kind for its
  type (a buffer in an `xml` part goes to `js2xml`, a tree in any other
  part goes to `addFile`), and a part whose uri is `null` (passed to
  `addFile(null, …)`). What the zip and XML libraries then do is outside
  the model.
- Exception types and message texts are not kept. Each failure is a value
  that names its cause and the entry or key. The wrong variable in the
  message of `removePartWithUri` (src/openXmlPackage.js:80) is not
  modelled.
- Keys inherited from `Object.prototype` (`constructor`, `toString`, and
  so on) are not modelled. With them, a lookup such as
  `overrides['constructor']` would find a function.
- Integer-like keys, which `Object.keys` lists first in numeric order,
  are not modelled. Keys are kept in plain insertion order.
- `JsString.ToLowerCase` maps only the ASCII letters. Full Unicode case
  mapping is outside the model. Strings are sequences of characters, not
  UTF-16 code units.
- `NodePath` models the POSIX functions only for the relative,
  `/`-separated names an archive holds. Windows separators are not
  modelled. The lemmas about `dirname` and `join` are stated for plain
  segments (no `.`, `..` or empty segment).
- `Reader.Read` uses the corrected manifest fold (see Findings). The
  as-written fold is kept beside it, with its consequence proved.

## Findings

| source | as written | input that shows it | evidently intended | confidence | as-written member | corrected member |
|---|---|---|---|---|---|---|
| src/openXmlReader.js:50-72 | the `Default`/`Override` folds filter `contentTypeData.elements`, the document's top level, which holds only the `<Types>` root element | a manifest `<Types><Default Extension="xml" ContentType="application/xml"/></Types>`: `word/document.xml` gets no content type, so every part is read as raw bytes | fold the root element's children, `contentTypeData.elements[0].elements`, as the relationships reader does at line 117 | not executed | Reader.ContentTypesFromEntriesAsWritten (shown by Reader.ManifestRulesIgnoredAsWritten and Reader.XmlDefaultExample) | Reader.ContentTypesFromEntries (proved by Reader.ManifestRulesRead and Reader.XmlDefaultExample) |

A further mismatch, recorded but not modelled as a finding: OPC manifests
name parts by absolute `PartName` values (`/word/document.xml`), while
archive entry names are relative (`word/document.xml`). The reader stores
each `Override` under its `PartName` (src/openXmlReader.js:67-70) and
looks parts up by entry name (src/openXmlReader.js:147). So even with the
corrected fold, no `Override` of a conforming package applies, and only
the `Default` rules take effect. The model reproduces this lookup as
written (not executed).
