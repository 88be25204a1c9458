/** Attachments of the older domain package (domain/attachment.go): the
    request carries a clear-text URL instead of the file content; the stored
    attachment is checked as in the current model package, whose identifier,
    MIME type and URL checks stand for the domain package's own. */
module AttachmentLegacy {
  import opened Outcomes
  import DatabaseId
  import Rsa
  import M = AttachmentModels

  /** A stored attachment; Size is a uint64 here. */
  datatype Attachment = Attachment(
    id: DatabaseId.DatabaseId,
    emailId: DatabaseId.DatabaseId,
    createdAt: M.Time,
    validUntil: M.Time,
    url: Rsa.EncryptedBuffer,
    size: nat,
    mimeType: string,
    sha512: Option<string>,
    insecure: bool)

  /** The request's own `url` (clear text) hides the attachment's encrypted one. */
  datatype AttachmentRequest = AttachmentRequest(attachment: Attachment, url: string)

  datatype RequestError = EmptyUrl | InvalidUrl

  /** AttachmentRequest.Validate: an empty URL is reported as empty and is not
      parsed; any other URL must parse (`urlParses` stands for url.Parse). */
  function ValidateRequest(a: AttachmentRequest, urlParses: string -> bool): (errs: seq<RequestError>)
    ensures errs == [] <==> a.url != "" && urlParses(a.url)
    ensures a.url == "" ==> errs == [EmptyUrl]
    ensures |errs| <= 1
  {
    if a.url == "" then [EmptyUrl]
    else if !urlParses(a.url) then [InvalidUrl]
    else []
  }

  /** AttachmentRequest.Encrypt: the router encrypts the clear URL; the value
      receiver keeps the result from the caller, who sees only the error. */
  function EncryptRequest(a: AttachmentRequest, routerAnswer: Result<Rsa.EncryptedBuffer, string>): (err: Option<M.EncryptionError>)
    ensures err.None? <==> routerAnswer.Ok?
    ensures routerAnswer.Err? ==> err == Some(M.EncryptionError(routerAnswer.error))
  {
    if routerAnswer.Ok? then None else Some(M.EncryptionError(routerAnswer.error))
  }

  function Fields(a: Attachment): M.CheckedFields
  {
    M.CheckedFields(a.id, a.emailId, a.createdAt, a.size, a.mimeType, a.sha512)
  }

  /** Attachment.Validate, with the same inverted expiry test as the current
      package: an expiry in the future is refused. */
  function Validate(a: Attachment, now: M.Time, parsesAsMediaType: string -> bool): (errs: seq<M.AttachmentError>)
    ensures (M.ValidUntilRejected in errs) <==> M.Before(now, a.validUntil)
    ensures errs == [] ==> a.size != 0 && a.mimeType != "" && !M.IsZeroTime(a.createdAt)
    ensures M.InCheckOrder(errs)
  {
    M.Checks(Fields(a), M.Before(now, a.validUntil), parsesAsMediaType)
  }

  /** The check the message "date cannot be in the past" describes. */
  function ValidateIntended(a: Attachment, now: M.Time, parsesAsMediaType: string -> bool): (errs: seq<M.AttachmentError>)
    ensures (M.ValidUntilRejected in errs) <==> M.Before(a.validUntil, now)
    ensures M.InCheckOrder(errs)
  {
    M.Checks(Fields(a), M.Before(a.validUntil, now), parsesAsMediaType)
  }
}
