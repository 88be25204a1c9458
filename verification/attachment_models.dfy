/** Attachments of the current model package (domain/models/attachment.go
    and mime_type.go): the unencrypted request, its encryption step and the
    structural check of a stored attachment. */
module AttachmentModels {
  import opened Outcomes
  import DatabaseId
  import Rsa

  /** An instant, counted from Go's zero time (instant 0 is time.Time{}). */
  datatype Time = Time(instant: int)

  predicate IsZeroTime(t: Time) { t.instant == 0 }

  /** now.Before(t). */
  predicate Before(now: Time, t: Time) { now.instant < t.instant }

  /** A stored attachment; URL and Name are encrypted, SHA512 is an optional
      pointer, Size a uint32. */
  datatype Attachment = Attachment(
    id: DatabaseId.DatabaseId,
    emailId: DatabaseId.DatabaseId,
    createdAt: Time,
    validUntil: Time,
    url: Rsa.EncryptedBuffer,
    name: Rsa.EncryptedBuffer,
    contentId: string,
    disposition: string,
    size: nat,
    mimeType: string,
    sha512: Option<string>,
    insecure: bool)

  /** An attachment still in clear: the stored fields plus the file content. */
  datatype AttachmentRequest = AttachmentRequest(attachment: Attachment, buffer: string, filename: string)

  /** AttachmentRequest.Validate: the one check is that the content is not empty. */
  datatype RequestError = EmptyBuffer

  function ValidateRequest(a: AttachmentRequest): (errs: seq<RequestError>)
    ensures errs == [] <==> |a.buffer| > 0
    ensures errs != [] ==> errs == [EmptyBuffer]
  {
    if |a.buffer| == 0 then [EmptyBuffer] else []
  }

  /** The error of a failed encryption: "failed to encrypt models.AttachmentRequest: <cause>". */
  datatype EncryptionError = EncryptionError(cause: string)

  /** AttachmentRequest.Encrypt asks the router to encrypt the attachment's
      URL under `algorithm`; `routerAnswer` is that answer.  The receiver is a
      value, so the encrypted URL lands in a copy: the caller sees only the
      error. */
  function EncryptRequest(a: AttachmentRequest, routerAnswer: Result<Rsa.EncryptedBuffer, string>): (err: Option<EncryptionError>)
    ensures err.None? <==> routerAnswer.Ok?
    ensures routerAnswer.Err? ==> err == Some(EncryptionError(routerAnswer.error))
  {
    if routerAnswer.Ok? then None else Some(EncryptionError(routerAnswer.error))
  }

  /** MimeType.Validate: the empty type passes; any other must parse as a
      media type (`parsesAsMediaType` stands for mime.ParseMediaType). */
  function ValidateMimeType(m: string, parsesAsMediaType: string -> bool): (ok: bool)
    ensures m == "" ==> ok
    ensures m != "" ==> (ok <==> parsesAsMediaType(m))
  {
    m == "" || parsesAsMediaType(m)
  }

  /** The entries of Attachment.Validate's error list, in the order checked. */
  datatype AttachmentError =
    | InvalidId(idError: DatabaseId.IdError)
    | InvalidEmailId(emailIdError: DatabaseId.IdError)
    | EmptyCreatedAt
    | ValidUntilRejected
    | ZeroSize
    | EmptyMimeType
    | InvalidMimeType
    | EmptySha512

  /** Position of an entry in the check order. */
  function Rank(e: AttachmentError): nat
  {
    match e
    case InvalidId(_) => 0
    case InvalidEmailId(_) => 1
    case EmptyCreatedAt => 2
    case ValidUntilRejected => 3
    case ZeroSize => 4
    case EmptyMimeType => 5
    case InvalidMimeType => 6
    case EmptySha512 => 7
  }

  /** Entries in strictly increasing check order: each check reports at most once. */
  predicate InCheckOrder(errs: seq<AttachmentError>)
  {
    forall i, j :: 0 <= i < j < |errs| ==> Rank(errs[i]) < Rank(errs[j])
  }

  /** The checks come in strictly increasing check order. */
  predicate RanksIncrease(checks: seq<(bool, AttachmentError)>)
  {
    forall i, j :: 0 <= i < j < |checks| ==> Rank(checks[i].1) < Rank(checks[j].1)
  }

  /** The error list a sequence of checks collects: the entry of every
      check that fails, in the order of the checks. */
  function Collect(checks: seq<(bool, AttachmentError)>): (errs: seq<AttachmentError>)
    ensures |errs| <= |checks|
  {
    if checks == [] then []
    else if checks[0].0 then [checks[0].1] + Collect(checks[1..])
    else Collect(checks[1..])
  }

  /** An entry is collected exactly when some check reports it. */
  lemma {:induction false} CollectMembers(checks: seq<(bool, AttachmentError)>)
    ensures forall e :: e in Collect(checks) <==> (true, e) in checks
  {
    if checks != [] {
      CollectMembers(checks[1..]);
      assert checks == [checks[0]] + checks[1..];
    }
  }

  /** Checks that all rank above lo collect only entries that do. */
  lemma {:induction false} CollectAbove(checks: seq<(bool, AttachmentError)>, lo: int)
    requires forall k :: 0 <= k < |checks| ==> lo < Rank(checks[k].1)
    ensures forall e :: e in Collect(checks) ==> lo < Rank(e)
  {
    if checks != [] {
      CollectAbove(checks[1..], lo);
    }
  }

  /** Checks in check order collect their entries in check order. */
  lemma {:induction false} CollectOrdered(checks: seq<(bool, AttachmentError)>)
    requires RanksIncrease(checks)
    ensures InCheckOrder(Collect(checks))
  {
    if checks != [] {
      var rest := checks[1..];
      assert RanksIncrease(rest) by {
        forall i, j | 0 <= i < j < |rest|
          ensures Rank(rest[i].1) < Rank(rest[j].1)
        {
          assert rest[i] == checks[i + 1] && rest[j] == checks[j + 1];
        }
      }
      CollectOrdered(rest);
      if checks[0].0 {
        forall k | 0 <= k < |rest|
          ensures Rank(checks[0].1) < Rank(rest[k].1)
        {
          assert rest[k] == checks[k + 1];
        }
        CollectAbove(rest, Rank(checks[0].1));
        var c := Collect(rest);
        var errs := [checks[0].1] + c;
        forall i, j | 0 <= i < j < |errs|
          ensures Rank(errs[i]) < Rank(errs[j])
        {
          assert errs[j] == c[j - 1];
          if i > 0 {
            assert errs[i] == c[i - 1];
          } else {
            assert c[j - 1] in c;
          }
        }
      }
    }
  }

  /** The fields Attachment.Validate inspects besides the expiry. */
  datatype CheckedFields = CheckedFields(
    id: DatabaseId.DatabaseId,
    emailId: DatabaseId.DatabaseId,
    createdAt: Time,
    size: nat,
    mimeType: string,
    sha512: Option<string>)

  function Fields(a: Attachment): CheckedFields
  {
    CheckedFields(a.id, a.emailId, a.createdAt, a.size, a.mimeType, a.sha512)
  }

  /** The eight checks in the order the source runs them, with `expiryFails`
      as the expiry test: shared by the as-written and the intended Validate,
      which differ only there. */
  function CheckList(a: CheckedFields, expiryFails: bool, parsesAsMediaType: string -> bool): (checks: seq<(bool, AttachmentError)>)
    ensures RanksIncrease(checks)
  {
    [ (DatabaseId.Validate(a.id).Some?, InvalidId(DatabaseId.WrongLength(a.id))),
      (DatabaseId.Validate(a.emailId).Some?, InvalidEmailId(DatabaseId.WrongLength(a.emailId))),
      (IsZeroTime(a.createdAt), EmptyCreatedAt),
      (expiryFails, ValidUntilRejected),
      (a.size == 0, ZeroSize),
      (a.mimeType == "", EmptyMimeType),
      (!ValidateMimeType(a.mimeType, parsesAsMediaType), InvalidMimeType),
      (a.sha512 == Some(""), EmptySha512) ]
  }

  function Checks(a: CheckedFields, expiryFails: bool, parsesAsMediaType: string -> bool): (errs: seq<AttachmentError>)
    ensures InCheckOrder(errs)
    ensures (ValidUntilRejected in errs) <==> expiryFails
    ensures (EmptyMimeType in errs) <==> a.mimeType == ""
    ensures (InvalidMimeType in errs) <==> !ValidateMimeType(a.mimeType, parsesAsMediaType)
    ensures errs == [] <==> (DatabaseId.Validate(a.id).None? && DatabaseId.Validate(a.emailId).None?
                             && !IsZeroTime(a.createdAt) && !expiryFails && a.size != 0 && a.mimeType != ""
                             && ValidateMimeType(a.mimeType, parsesAsMediaType) && a.sha512 != Some(""))
  {
    var checks := CheckList(a, expiryFails, parsesAsMediaType);
    var errs := Collect(checks);
    CollectMembers(checks);
    CollectOrdered(checks);
    assert checks[0].0 == DatabaseId.Validate(a.id).Some?;
    assert checks[1].0 == DatabaseId.Validate(a.emailId).Some?;
    assert checks[2].0 == IsZeroTime(a.createdAt);
    assert checks[4].0 == (a.size == 0);
    assert checks[7].0 == (a.sha512 == Some(""));
    assert checks[3] == (expiryFails, ValidUntilRejected);
    assert checks[5] == (a.mimeType == "", EmptyMimeType);
    assert checks[6] == (!ValidateMimeType(a.mimeType, parsesAsMediaType), InvalidMimeType);
    assert errs == [] <==> forall i :: 0 <= i < |checks| ==> !checks[i].0 by {
      if errs != [] {
        assert errs[0] in errs;
      }
      forall i | 0 <= i < |checks| && checks[i].0 ensures errs != [] {
        assert checks[i].1 in errs;
      }
    }
    errs
  }

  /** Attachment.Validate as written: the expiry is refused when `now` is
      BEFORE it, that is when it lies in the future, with the message "date
      cannot be in the past". */
  function Validate(a: Attachment, now: Time, parsesAsMediaType: string -> bool): (errs: seq<AttachmentError>)
    ensures (ValidUntilRejected in errs) <==> Before(now, a.validUntil)
    ensures InCheckOrder(errs)
  {
    Checks(Fields(a), Before(now, a.validUntil), parsesAsMediaType)
  }

  /** The expiry test the message describes: an expiry already in the past
      is refused. */
  function ValidateIntended(a: Attachment, now: Time, parsesAsMediaType: string -> bool): (errs: seq<AttachmentError>)
    ensures (ValidUntilRejected in errs) <==> Before(a.validUntil, now)
    ensures InCheckOrder(errs)
  {
    Checks(Fields(a), Before(a.validUntil, now), parsesAsMediaType)
  }

  /** An empty mime type is reported once, as empty, and not as unparsable. */
  lemma EmptyMimeTypeReportedOnce(a: Attachment, now: Time, parsesAsMediaType: string -> bool)
    requires a.mimeType == ""
    ensures EmptyMimeType in Validate(a, now, parsesAsMediaType)
    ensures InvalidMimeType !in Validate(a, now, parsesAsMediaType)
  {
  }

  /** As written, an attachment that expires tomorrow is refused and one that
      expired yesterday passes the expiry check. */
  lemma ExpiryCheckIsInverted(a: Attachment, now: Time, parsesAsMediaType: string -> bool)
    ensures a.validUntil == Time(now.instant + 86400) ==> ValidUntilRejected in Validate(a, now, parsesAsMediaType)
    ensures a.validUntil == Time(now.instant - 86400) ==> ValidUntilRejected !in Validate(a, now, parsesAsMediaType)
    ensures a.validUntil == Time(now.instant + 86400) ==> ValidUntilRejected !in ValidateIntended(a, now, parsesAsMediaType)
    ensures a.validUntil == Time(now.instant - 86400) ==> ValidUntilRejected in ValidateIntended(a, now, parsesAsMediaType)
  {
  }
}
