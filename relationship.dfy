/** `OpenXmlRelationship`: one link declared in a relationships part. */
module Relationships {
  import opened Wrappers

  /**
   * The constructor's four fields, stored as given with no validation; each
   * omitted argument is `null`. (`type` is a reserved word here, hence
   * `relType`.)
   */
  datatype Relationship = Relationship(
    id: Option<string> := None,
    relType: Option<string> := None,
    target: Option<string> := None,
    context: Option<string> := None)
  {
    /** A `null` context stands for the package root. */
    predicate FromPackageRoot() {
      context.None?
    }
  }

  /** `new OpenXmlRelationship()` and `new OpenXmlRelationship(id, type, target, context)`. */
  lemma ConstructorFields(id: Option<string>, t: Option<string>, target: Option<string>, context: Option<string>)
    ensures Relationship() == Relationship(None, None, None, None)
    ensures Relationship().FromPackageRoot()
    ensures var r := Relationship(id, t, target, context);
      r.id == id && r.relType == t && r.target == target && r.context == context
  {
  }
}
