/**
 * Reading an archive, writing the package back and reading the result
 * again: what the writer emits for a package the reader built, and why a
 * second read gives the same package.
 */
module RoundTrip {
  import opened Wrappers
  import opened Interfaces
  import opened JsObject
  import opened PartTypes
  import opened Parts
  import opened ContentTypes
  import opened Reader
  import opened Writer

  ghost predicate DistinctNames(entries: seq<Entry>) {
    forall i, j :: 0 <= i < j < |entries| ==> entries[i].name != entries[j].name
  }

  /**
   * The entry the writer emits for a part read from `e`: an XML part's
   * tree serialised again, any other part's bytes as they were.
   */
  function Rewritten(e: Entry, typeOf: string -> PartType, codec: Codec): (r: Entry)
    ensures r.name == e.name
  {
    if typeOf(e.name) == Xml then
      match ParseEntry(e, codec)
      case Success(doc) => Entry(e.name, codec.encodeUtf8(codec.serialize(doc)))
      case Failure(_) => e
    else e
  }

  function RewrittenAll(entries: seq<Entry>, typeOf: string -> PartType, codec: Codec): (r: seq<Entry>)
    ensures |r| == |entries|
  {
    seq(|entries|, i requires 0 <= i < |entries| => Rewritten(entries[i], typeOf, codec))
  }

  /** The entry written for a part read from `e` is `e` rewritten. */
  lemma EntryForReadPart(e: Entry, typeOf: string -> PartType, codec: Codec, p: Part)
    requires PartFromEntry(e, typeOf, codec) == Success(p)
    ensures EntryFor(e.name, Some(Some(p)), codec) == Success(Rewritten(e, typeOf, codec))
  {
    PartFromEntrySpec(e, typeOf, codec);
    TagsDistinct(p.partType);
  }

  /**
   * Writing what was read emits one entry per archive entry, in order and
   * under the same name: XML parts re-serialised, other parts unchanged.
   */
  lemma WriteAfterRead(entries: seq<Entry>, codec: Codec)
    requires Read(entries, codec).Success? && DistinctNames(entries)
    ensures var s := Read(entries, codec).value;
            Write(s.parts, codec) == Success(RewrittenAll(entries, PartTypeOf(s.contentTypes), codec))
  {
    var s := Read(entries, codec).value;
    var typeOf := PartTypeOf(s.contentTypes);
    ReadStages(entries, codec);
    var parts := PartsFromEntries(entries, typeOf, codec).value;
    PartsMapOfEntries(entries, typeOf, codec, parts);
    var m := PartsArrayToMap(parts);
    forall i | 0 <= i < |entries|
      ensures EntryFor(m.keys[i], m.Get(m.keys[i]), codec) == Success(Rewritten(entries[i], typeOf, codec))
    {
      EntryForReadPart(entries[i], typeOf, codec, parts[i]);
    }
    WriteRewritten(entries, typeOf, m, codec);
  }

  /** The shape of the writer's output, with the facts about the read parts given. */
  lemma WriteRewritten(entries: seq<Entry>, typeOf: string -> PartType, parts: Dict<Option<Part>>, codec: Codec)
    requires |parts.keys| == |entries|
    requires forall i :: 0 <= i < |entries| ==>
               EntryFor(parts.keys[i], parts.Get(parts.keys[i]), codec) == Success(Rewritten(entries[i], typeOf, codec))
    ensures Write(parts, codec) == Success(RewrittenAll(entries, typeOf, codec))
  {
    EntriesForShape(parts.keys, parts, codec);
    assert Write(parts, codec).Success?;
    var out := Write(parts, codec).value;
    assert |out| == |parts.keys|;
    forall i | 0 <= i < |out| ensures out[i] == RewrittenAll(entries, typeOf, codec)[i] {
      assert Success(out[i]) == EntryFor(parts.keys[i], parts.Get(parts.keys[i]), codec);
    }
    assert out == RewrittenAll(entries, typeOf, codec);
  }

  // ---------------------------------------------------------------------
  // The three stages see entries only through a few observations.

  /** Same names, position by position. */
  ghost predicate SameNames(a: seq<Entry>, b: seq<Entry>) {
    |a| == |b| && forall i :: 0 <= i < |a| ==> a[i].name == b[i].name
  }

  /** Same names and the same parse of every entry. */
  ghost predicate SameParses(a: seq<Entry>, b: seq<Entry>, codec: Codec) {
    SameNames(a, b) && forall i :: 0 <= i < |a| ==> ParseEntry(a[i], codec) == ParseEntry(b[i], codec)
  }

  lemma {:induction false} FindEntrySameNames(a: seq<Entry>, b: seq<Entry>, name: string)
    requires SameNames(a, b)
    ensures FindEntry(a, name) == FindEntry(b, name)
  {
    if a != [] {
      assert SameNames(a[1..], b[1..]) by {
        forall i | 0 <= i < |a[1..]| ensures a[1..][i].name == b[1..][i].name {
          assert a[1..][i] == a[i + 1] && b[1..][i] == b[i + 1];
        }
      }
      FindEntrySameNames(a[1..], b[1..], name);
    }
  }

  lemma ContentTypesSame(a: seq<Entry>, b: seq<Entry>, codec: Codec)
    requires SameParses(a, b, codec)
    ensures ContentTypesFromEntries(a, codec) == ContentTypesFromEntries(b, codec)
  {
    FindEntrySameNames(a, b, ManifestName);
  }

  lemma {:induction false} PartsSame(a: seq<Entry>, b: seq<Entry>, typeOf: string -> PartType, codec: Codec)
    requires |a| == |b|
    requires forall i :: 0 <= i < |a| ==> PartFromEntry(a[i], typeOf, codec) == PartFromEntry(b[i], typeOf, codec)
    ensures PartsFromEntries(a, typeOf, codec) == PartsFromEntries(b, typeOf, codec)
  {
    if a != [] {
      assert forall i :: 0 <= i < |a[1..]| ==> a[1..][i] == a[i + 1] && b[1..][i] == b[i + 1];
      PartsSame(a[1..], b[1..], typeOf, codec);
    }
  }

  lemma {:induction false} RelsFilesSame(a: seq<Entry>, b: seq<Entry>, codec: Codec, keep: string -> bool, contextOf: string -> Option<string>)
    requires SameParses(a, b, codec)
    ensures ParseRelsFiles(RelsEntries(a, keep), codec, contextOf) == ParseRelsFiles(RelsEntries(b, keep), codec, contextOf)
  {
    if a != [] {
      assert SameParses(a[1..], b[1..], codec) by {
        forall i | 0 <= i < |a[1..]|
          ensures a[1..][i].name == b[1..][i].name && ParseEntry(a[1..][i], codec) == ParseEntry(b[1..][i], codec)
        {
          assert a[1..][i] == a[i + 1] && b[1..][i] == b[i + 1];
        }
      }
      RelsFilesSame(a[1..], b[1..], codec, keep, contextOf);
      var ra := RelsEntries(a[1..], keep);
      var rb := RelsEntries(b[1..], keep);
      if keep(a[0].name) {
        assert RelsEntries(a, keep) == [a[0]] + ra;
        assert RelsEntries(b, keep) == [b[0]] + rb;
        assert ([a[0]] + ra)[0] == a[0] && ([a[0]] + ra)[1..] == ra;
        assert ([b[0]] + rb)[0] == b[0] && ([b[0]] + rb)[1..] == rb;
      } else {
        assert RelsEntries(a, keep) == ra;
        assert RelsEntries(b, keep) == rb;
      }
    }
  }

  lemma RelationshipsSame(a: seq<Entry>, b: seq<Entry>, codec: Codec)
    requires SameParses(a, b, codec)
    ensures RelationshipsFromEntries(a, codec) == RelationshipsFromEntries(b, codec)
  {
    RelsFilesSame(a, b, codec, IsRelationshipsEntry, RelsContext);
  }

  /** The reader gives the same package for two archives it cannot tell apart. */
  lemma ReadSame(a: seq<Entry>, b: seq<Entry>, codec: Codec)
    requires SameParses(a, b, codec)
    requires ContentTypesFromEntries(a, codec).Success? ==>
               var typeOf := PartTypeOf(ContentTypesFromEntries(a, codec).value);
               forall i :: 0 <= i < |a| ==> PartFromEntry(a[i], typeOf, codec) == PartFromEntry(b[i], typeOf, codec)
    ensures Read(a, codec) == Read(b, codec)
  {
    ContentTypesSame(a, b, codec);
    if ContentTypesFromEntries(a, codec).Success? {
      PartsSame(a, b, PartTypeOf(ContentTypesFromEntries(a, codec).value), codec);
    }
    RelationshipsSame(a, b, codec);
  }

  // ---------------------------------------------------------------------
  // Read, write, read

  /**
   * With a codec whose serialised trees parse back to themselves, a
   * rewritten entry reads as the original did: same name, same parse, same
   * part.
   */
  lemma RewrittenReadsAlike(e: Entry, typeOf: string -> PartType, codec: Codec)
    requires codec.RoundTrips()
    ensures ParseEntry(Rewritten(e, typeOf, codec), codec) == ParseEntry(e, codec)
    ensures PartFromEntry(Rewritten(e, typeOf, codec), typeOf, codec) == PartFromEntry(e, typeOf, codec)
  {
    PartFromEntrySpec(e, typeOf, codec);
    PartFromEntrySpec(Rewritten(e, typeOf, codec), typeOf, codec);
    if typeOf(e.name) == Xml && ParseEntry(e, codec).Success? {
      var doc := ParseEntry(e, codec).value;
      assert codec.parse(codec.decodeUtf8(e.data)) == Some(doc);
      assert codec.parse(codec.decodeUtf8(codec.encodeUtf8(codec.serialize(doc)))) == Some(doc);
    }
  }

  /** Reading the rewritten entries gives the package the first read gave. */
  lemma ReadRewritten(entries: seq<Entry>, codec: Codec)
    requires codec.RoundTrips() && Read(entries, codec).Success?
    ensures Read(RewrittenAll(entries, PartTypeOf(Read(entries, codec).value.contentTypes), codec), codec) == Read(entries, codec)
  {
    var ct := Read(entries, codec).value.contentTypes;
    var typeOf := PartTypeOf(ct);
    ReadStages(entries, codec);
    var out := RewrittenAll(entries, typeOf, codec);
    forall i | 0 <= i < |entries|
      ensures out[i].name == entries[i].name
      ensures ParseEntry(out[i], codec) == ParseEntry(entries[i], codec)
      ensures PartFromEntry(out[i], typeOf, codec) == PartFromEntry(entries[i], typeOf, codec)
    {
      RewrittenReadsAlike(entries[i], typeOf, codec);
    }
    assert SameParses(out, entries, codec);
    ContentTypesSame(out, entries, codec);
    assert ContentTypesFromEntries(out, codec) == Success(ct);
    ReadSame(out, entries, codec);
  }

  /**
   * Reading an archive, writing the package and reading the written
   * entries gives the package the first read gave, and writing that again
   * gives the same entries.
   */
  lemma ReadWriteRead(entries: seq<Entry>, codec: Codec)
    requires codec.RoundTrips() && DistinctNames(entries) && Read(entries, codec).Success?
    ensures Write(Read(entries, codec).value.parts, codec).Success?
    ensures var out := Write(Read(entries, codec).value.parts, codec).value;
            Read(out, codec) == Read(entries, codec) &&
            Write(Read(out, codec).value.parts, codec) == Success(out)
  {
    WriteAfterRead(entries, codec);
    ReadRewritten(entries, codec);
  }
}
