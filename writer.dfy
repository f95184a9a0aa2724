/**
 * `OpenXmlWriter`: from a package's parts to the entries of an archive.
 * The archive is the entry sequence handed to the zip library, one
 * `addFile` per part.
 */
module Writer {
  import opened Wrappers
  import opened Interfaces
  import opened JsObject
  import opened PartTypes
  import opened Parts
  import opened Packages

  /**
   * Why `toBuffer` fails: the key's slot holds no part (a removed part, so
   * `part.data` is read from `undefined`), or the part cannot be written
   * (no URI, or data of the wrong kind for its type).
   */
  datatype WriteError = RemovedPart(key: string) | NotWritable(key: string)

  /** A part `addFile` can take: it has a URI and the data its type calls for. */
  predicate Writable(p: Part) {
    p.uri.Some? && (if p.partType.Tag() == "xml" then p.data.Tree? else p.data.Raw?)
  }

  /**
   * The bytes written for a part: the serialised tree, UTF-8 encoded, for
   * a part whose type is `xml`, and the part's own bytes for any other.
   */
  function PartBytes(p: Part, codec: Codec): Bytes
    requires Writable(p)
  {
    if p.partType.Tag() == "xml" then codec.encodeUtf8(codec.serialize(p.data.doc)) else p.data.bytes
  }

  /** The body of the `forEach`: the entry written for one key of `package.parts`. */
  function EntryFor(key: string, slot: Option<Option<Part>>, codec: Codec): (r: Result<Entry, WriteError>)
    ensures r.Success? <==> slot.Some? && slot.value.Some? && Writable(slot.value.value)
    ensures r.Success? ==> r == Success(Entry(slot.value.value.uri.value, PartBytes(slot.value.value, codec)))
    ensures r.Failure? && (slot.None? || slot.value.None?) ==> r.error == RemovedPart(key)
    ensures r.Failure? && slot.Some? && slot.value.Some? ==> r.error == NotWritable(key)
  {
    match slot
    case None => Failure(RemovedPart(key))
    case Some(None) => Failure(RemovedPart(key))
    case Some(Some(p)) =>
      if Writable(p) then Success(Entry(p.uri.value, PartBytes(p, codec))) else Failure(NotWritable(key))
  }

  /** The entries written for the given keys, in order; the first failure stops the loop. */
  function EntriesFor(keys: seq<string>, parts: Dict<Option<Part>>, codec: Codec): (r: Result<seq<Entry>, WriteError>)
    ensures r.Success? ==> |r.value| == |keys|
  {
    if keys == [] then Success([])
    else
      var k := keys[|keys| - 1];
      match EntriesFor(keys[..|keys| - 1], parts, codec)
      case Failure(err) => Failure(err)
      case Success(init) =>
        match EntryFor(k, parts.Get(k), codec)
        case Failure(err) => Failure(err)
        case Success(e) => Success(init + [e])
  }

  /** `toBuffer`: one entry per key of `package.parts`, in `Object.keys` order. */
  function Write(parts: Dict<Option<Part>>, codec: Codec): Result<seq<Entry>, WriteError> {
    EntriesFor(parts.keys, parts, codec)
  }

  /**
   * The writer succeeds exactly when every key's slot holds a writable part,
   * and then writes, for the i-th key, its part under the part's URI.
   */
  lemma {:induction false} EntriesForShape(keys: seq<string>, parts: Dict<Option<Part>>, codec: Codec)
    ensures EntriesFor(keys, parts, codec).Success? <==>
              forall i :: 0 <= i < |keys| ==> EntryFor(keys[i], parts.Get(keys[i]), codec).Success?
    ensures EntriesFor(keys, parts, codec).Success? ==>
              forall i :: 0 <= i < |keys| ==> Success(EntriesFor(keys, parts, codec).value[i]) == EntryFor(keys[i], parts.Get(keys[i]), codec)
  {
    if keys != [] {
      var n := |keys| - 1;
      EntriesForShape(keys[..n], parts, codec);
      assert forall i :: 0 <= i < n ==> keys[..n][i] == keys[i];
      if EntriesFor(keys, parts, codec).Success? {
        var init := EntriesFor(keys[..n], parts, codec).value;
        var e := EntryFor(keys[n], parts.Get(keys[n]), codec).value;
        assert EntriesFor(keys, parts, codec).value == init + [e];
      }
    }
  }

  /** The failure reported is that of the first key whose part cannot be written. */
  lemma {:induction false} EntriesForFirstFailure(keys: seq<string>, parts: Dict<Option<Part>>, codec: Codec, i: nat)
    requires i < |keys| && EntryFor(keys[i], parts.Get(keys[i]), codec).Failure?
    requires forall j :: 0 <= j < i ==> EntryFor(keys[j], parts.Get(keys[j]), codec).Success?
    ensures EntriesFor(keys, parts, codec) == Failure(EntryFor(keys[i], parts.Get(keys[i]), codec).error)
  {
    var n := |keys| - 1;
    if i < n {
      EntriesForFirstFailure(keys[..n], parts, codec, i);
    } else {
      EntriesForShape(keys[..n], parts, codec);
      assert forall j :: 0 <= j < n ==> keys[..n][j] == keys[j];
    }
  }

  /** Writing a package from which a part was removed fails: its key is still listed. */
  lemma RemovedSlotFails(parts: Dict<Option<Part>>, uri: string, codec: Codec)
    requires parts.Valid() && Removed(parts, uri).Success?
    ensures Write(Removed(parts, uri).value, codec).Failure?
  {
    var after := Removed(parts, uri).value;
    assert uri in after.keys;
    var i :| 0 <= i < |after.keys| && after.keys[i] == uri;
    EntriesForShape(after.keys, after, codec);
  }

  /**
   * `OpenXmlWriter.toBuffer`: the `forEach` over `Object.keys(package.parts)`
   * adding one file per key.
   */
  method ToBuffer(pkg: Package, codec: Codec) returns (r: Result<seq<Entry>, WriteError>)
    ensures r == Write(pkg.parts, codec)
  {
    var keys := pkg.parts.keys;
    var out: seq<Entry> := [];
    var i := 0;
    while i < |keys|
      invariant 0 <= i <= |keys|
      invariant EntriesFor(keys[..i], pkg.parts, codec) == Success(out)
    {
      var e := EntryFor(keys[i], pkg.parts.Get(keys[i]), codec);
      assert keys[..i + 1][..i] == keys[..i];
      if e.Failure? {
        r := Failure(e.error);
        EntriesForPrefixFailure(keys, pkg.parts, codec, i + 1);
        return;
      }
      out := out + [e.value];
      i := i + 1;
    }
    assert keys[..i] == keys;
    r := Success(out);
  }

  /** A failure on a prefix of the keys is the failure for all of them. */
  lemma {:induction false} EntriesForPrefixFailure(keys: seq<string>, parts: Dict<Option<Part>>, codec: Codec, m: nat)
    requires m <= |keys| && EntriesFor(keys[..m], parts, codec).Failure?
    ensures EntriesFor(keys, parts, codec) == EntriesFor(keys[..m], parts, codec)
    decreases |keys| - m
  {
    if m < |keys| {
      var m1 := m + 1;
      assert keys[..m1][..m] == keys[..m];
      EntriesForPrefixFailure(keys, parts, codec, m1);
    } else {
      assert keys[..m] == keys;
    }
  }
}
