/** Identifiers of stored documents (domain/models/database_id.go). */
module DatabaseId {
  import opened Outcomes

  type DatabaseId = string

  /** The only accepted non-empty identifier length. */
  const IdLength: nat := 40

  /** The wrapped error "id '<id>' is not valid: length must be 40". */
  datatype IdError = WrongLength(id: string)

  /** DatabaseID.Validate: the empty identifier passes, every other one must
      have exactly 40 characters; the content is not inspected. */
  function Validate(id: DatabaseId): (r: Option<IdError>)
    ensures r == None <==> |id| == 0 || |id| == IdLength
    ensures r.Some? ==> r.value.id == id
  {
    if |id| > 0 && |id| != IdLength then Some(WrongLength(id)) else None
  }

  /** Validity depends on the length alone: any two identifiers of the same
      length are accepted or refused together. */
  lemma ValidityIsLengthOnly(a: DatabaseId, b: DatabaseId)
    requires |a| == |b|
    ensures Validate(a).None? <==> Validate(b).None?
  {
  }
}
