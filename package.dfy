/** `OpenXmlPackage`: the parts, content types and relationships of one package. */
module Packages {
  import opened Wrappers
  import opened JsObject
  import opened Parts
  import opened ContentTypes
  import opened Relationships

  /** The errors `addPart` and `removePartWithUri` throw. */
  datatype PackageError = DuplicatePart(uri: string) | PartNotFound(uri: string)

  /**
   * `!!parts[uri]`: the key holds a part. A key never assigned, and a key
   * whose part was removed (it then holds `undefined`), do not.
   */
  predicate Exists(parts: Dict<Option<Part>>, uri: string) {
    parts.Get(uri).Some? && parts.Get(uri).value.Some?
  }

  /** The part table after `addPart(p)`, or the error it throws. */
  function Added(parts: Dict<Option<Part>>, p: Part): (r: Result<Dict<Option<Part>>, PackageError>)
    ensures r.Failure? <==> Exists(parts, UriKey(p.uri))
    ensures r.Failure? ==> r.error == DuplicatePart(UriKey(p.uri))
    ensures r.Success? ==> r.value.Get(UriKey(p.uri)) == Some(Some(p)) && Exists(r.value, UriKey(p.uri))
    ensures r.Success? ==> forall k :: k != UriKey(p.uri) ==> r.value.Get(k) == parts.Get(k)
    ensures r.Success? && parts.Valid() ==> r.value.Valid()
  {
    var k := UriKey(p.uri);
    if Exists(parts, k) then Failure(DuplicatePart(k)) else Success(parts.Put(k, Some(p)))
  }

  /** The part table after `removePartWithUri(uri)`, or the error it throws. */
  function Removed(parts: Dict<Option<Part>>, uri: string): (r: Result<Dict<Option<Part>>, PackageError>)
    ensures r.Failure? <==> !Exists(parts, uri)
    ensures r.Failure? ==> r.error == PartNotFound(uri)
    ensures r.Success? ==> r.value.Get(uri) == Some(None) && !Exists(r.value, uri)
    ensures r.Success? ==> forall k :: k != uri ==> r.value.Get(k) == parts.Get(k)
    ensures r.Success? && parts.Valid() ==> r.value.Valid() && r.value.keys == parts.keys
  {
    if !Exists(parts, uri) then Failure(PartNotFound(uri)) else Success(parts.Put(uri, None))
  }

  /**
   * A removed URI can be added again, and the part goes back to the position
   * its key had (the key was never deleted).
   */
  lemma ReAddAfterRemove(parts: Dict<Option<Part>>, p: Part)
    requires parts.Valid() && Exists(parts, UriKey(p.uri))
    ensures Removed(parts, UriKey(p.uri)).Success?
    ensures var back := Added(Removed(parts, UriKey(p.uri)).value, p);
      back.Success? && back.value.keys == parts.keys && back.value.Get(UriKey(p.uri)) == Some(Some(p))
  {
  }

  /** A part just added can be removed, after which its URI no longer exists. */
  lemma RemoveAfterAdd(parts: Dict<Option<Part>>, p: Part)
    requires !Exists(parts, UriKey(p.uri))
    ensures Added(parts, p).Success?
    ensures var gone := Removed(Added(parts, p).value, UriKey(p.uri));
      gone.Success? && !Exists(gone.value, UriKey(p.uri))
  {
  }

  class Package {
    /** `{}` (not a resolver) until the reader stores one: `None`. */
    var contentTypes: Option<Resolver>
    var parts: Dict<Option<Part>>
    var relationships: seq<Relationship>

    ghost predicate Valid()
      reads this
    {
      parts.Valid()
    }

    /** A new package has no parts and no relationships. */
    constructor()
      ensures Valid()
      ensures contentTypes == None && parts.keys == [] && relationships == []
      ensures forall k :: !Exists(parts, k)
    {
      contentTypes := None;
      parts := Empty();
      relationships := [];
    }

    /** `partExistsWithUri(uri)` */
    predicate PartExistsWithUri(uri: string)
      reads this
    {
      Exists(parts, uri)
    }

    /** `partExists(part)`: the same test on the part's URI. */
    predicate PartExists(part: Part)
      reads this
      ensures PartExists(part) == PartExistsWithUri(UriKey(part.uri))
    {
      PartExistsWithUri(UriKey(part.uri))
    }

    /**
     * `addPart(part)`: stores the part under its URI, or fails when a part
     * with that URI exists, changing nothing.
     */
    method AddPart(part: Part) returns (r: Outcome<PackageError>)
      requires Valid()
      modifies this
      ensures Valid()
      ensures contentTypes == old(contentTypes) && relationships == old(relationships)
      ensures r.Fail? <==> old(PartExists(part))
      ensures r.Fail? ==> r.error == DuplicatePart(UriKey(part.uri)) && parts == old(parts)
      ensures r.Pass? ==> Added(old(parts), part) == Success(parts)
      ensures r.Pass? ==> PartExists(part) && parts.Get(UriKey(part.uri)) == Some(Some(part))
    {
      if PartExists(part) {
        return Fail(DuplicatePart(UriKey(part.uri)));
      }
      parts := parts.Put(UriKey(part.uri), Some(part));
      return Pass;
    }

    /** `removePart(part)`: `removePartWithUri(part.uri)`. */
    method RemovePart(part: Part) returns (r: Outcome<PackageError>)
      requires Valid()
      modifies this
      ensures Valid()
      ensures contentTypes == old(contentTypes) && relationships == old(relationships)
      ensures r.Fail? <==> !old(PartExists(part))
      ensures r.Fail? ==> r.error == PartNotFound(UriKey(part.uri)) && parts == old(parts)
      ensures r.Pass? ==> Removed(old(parts), UriKey(part.uri)) == Success(parts)
    {
      r := RemovePartWithUri(UriKey(part.uri));
    }

    /**
     * `removePartWithUri(uri)`: leaves `undefined` under the key, or fails
     * when no part with that URI exists, changing nothing.
     */
    method RemovePartWithUri(uri: string) returns (r: Outcome<PackageError>)
      requires Valid()
      modifies this
      ensures Valid()
      ensures contentTypes == old(contentTypes) && relationships == old(relationships)
      ensures r.Fail? <==> !old(PartExistsWithUri(uri))
      ensures r.Fail? ==> r.error == PartNotFound(uri) && parts == old(parts)
      ensures r.Pass? ==> Removed(old(parts), uri) == Success(parts)
      ensures r.Pass? ==> !PartExistsWithUri(uri) && parts.keys == old(parts.keys)
    {
      if !PartExistsWithUri(uri) {
        return Fail(PartNotFound(uri));
      }
      parts := parts.Put(uri, None);
      return Pass;
    }
  }
}
