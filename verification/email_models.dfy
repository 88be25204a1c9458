/** E-mails of the model package (domain/models/email.go): the clear-text
    envelope the SMTP front end fills, the partially encrypted request of API
    users, and the stored, encrypted e-mail. */
module EmailModels {
  import opened Outcomes
  import Address
  import DatabaseId
  import Rsa
  import M = AttachmentModels

  /** Size units, uint32 in the source. */
  const KB: nat := 1024
  const MB: nat := 1024 * KB
  const GB: nat := 1024 * MB

  /** The clear-text envelope received from outside letter.me. */
  datatype UnencryptedEmail = UnencryptedEmail(
    from: Address.Address,
    toList: seq<Address.Address>,
    attachments: seq<M.AttachmentRequest>,
    inlines: seq<M.AttachmentRequest>,
    title: string,
    text: string,
    html: string)

  /** NewUnencryptedEmail: an envelope with every field empty (the source
      only pre-sizes the buffers' capacities). */
  function NewUnencryptedEmail(): (e: UnencryptedEmail)
    ensures e.from == "" && e.toList == [] && e.attachments == [] && e.inlines == []
    ensures e.title == "" && e.text == "" && e.html == ""
  {
    UnencryptedEmail("", [], [], [], "", "", "")
  }

  /** A processed, encrypted e-mail; From, ToList, Title and Body are pointers
      that may be nil, ReadCount a uint8, BodyLength a uint32. */
  datatype Email = Email(
    id: DatabaseId.DatabaseId,
    createdAt: M.Time,
    validUntil: M.Time,
    readCount: nat,
    from: Option<Rsa.EncryptedBuffer>,
    toList: Option<Rsa.EncryptedBuffer>,
    to: Address.Address,
    title: Option<Rsa.EncryptedBuffer>,
    body: Option<Rsa.EncryptedBuffer>,
    bodyLength: nat,
    attachments: seq<M.Attachment>,
    insecure: bool,
    originConfirmed: bool)

  /** A request from an API user: sender and recipients still in clear, and
      the embedded Email that Encrypt fills. */
  datatype InternalEmailRequest = InternalEmailRequest(
    email: Email,
    from: Address.Address,
    toList: seq<Address.Address>,
    attachments: seq<M.AttachmentRequest>)

  /** What InternalEmailRequest.Encrypt hands to the router's EncryptAlgorithm. */
  datatype Payload =
    | SenderAddress(address: Address.Address)
    | RecipientList(addresses: seq<Address.Address>)
    | AttachmentUrl(url: Rsa.EncryptedBuffer)

  /** "failed to encrypt *models.InternalEmailRequest: <cause>". */
  datatype RequestEncryptionError =
    | RouterFailed(message: string)
    | AttachmentFailed(cause: M.EncryptionError)

  /** The attachments Encrypt appends, and the error that stops it. */
  function EncryptedAttachments(reqs: seq<M.AttachmentRequest>, encrypt: Payload -> Result<Rsa.EncryptedBuffer, string>)
    : (r: (seq<M.Attachment>, Option<RequestEncryptionError>))
    ensures |r.0| <= |reqs|
    ensures r.1.None? ==> |r.0| == |reqs|
    ensures r.1.Some? ==> r.1.value.AttachmentFailed?
  {
    if reqs == [] then ([], None)
    else
      match M.EncryptRequest(reqs[0], encrypt(AttachmentUrl(reqs[0].attachment.url)))
      case Some(e) => ([], Some(AttachmentFailed(e)))
      case None =>
        var rest := EncryptedAttachments(reqs[1..], encrypt);
        ([reqs[0].attachment] + rest.0, rest.1)
  }

  /** Encrypt appends each request's own attachment, unchanged and in order,
      up to the first one whose URL the router fails to encrypt; it fails
      exactly when some URL fails, and then reports that one. */
  lemma EncryptedAttachmentsInOrder(reqs: seq<M.AttachmentRequest>, encrypt: Payload -> Result<Rsa.EncryptedBuffer, string>)
    ensures var r := EncryptedAttachments(reqs, encrypt);
      && |r.0| <= |reqs|
      && (forall i :: 0 <= i < |r.0| ==> r.0[i] == reqs[i].attachment)
      && (r.1.None? <==> forall i :: 0 <= i < |reqs| ==> encrypt(AttachmentUrl(reqs[i].attachment.url)).Ok?)
      && (r.1.None? ==> |r.0| == |reqs|)
      && (r.1.Some? ==> |r.0| < |reqs| && encrypt(AttachmentUrl(reqs[|r.0|].attachment.url)).Err?
                        && r.1 == Some(AttachmentFailed(M.EncryptionError(encrypt(AttachmentUrl(reqs[|r.0|].attachment.url)).error))))
  {
    EncryptedAttachmentsKeep(reqs, encrypt);
    EncryptedAttachmentsStop(reqs, encrypt);
  }

  /** The attachments appended are the requests' own, in order. */
  lemma {:induction false} EncryptedAttachmentsKeep(reqs: seq<M.AttachmentRequest>, encrypt: Payload -> Result<Rsa.EncryptedBuffer, string>)
    ensures |EncryptedAttachments(reqs, encrypt).0| <= |reqs|
    ensures forall i :: 0 <= i < |EncryptedAttachments(reqs, encrypt).0| ==> EncryptedAttachments(reqs, encrypt).0[i] == reqs[i].attachment
  {
    if reqs != [] {
      EncryptedAttachmentsKeep(reqs[1..], encrypt);
    }
  }

  /** Where and why the attachments stop: after all of them when every URL
      is encrypted, otherwise at the first URL that fails, with its error. */
  lemma {:induction false} EncryptedAttachmentsStop(reqs: seq<M.AttachmentRequest>, encrypt: Payload -> Result<Rsa.EncryptedBuffer, string>)
    ensures var r := EncryptedAttachments(reqs, encrypt);
      && (r.1.None? <==> forall i :: 0 <= i < |reqs| ==> encrypt(AttachmentUrl(reqs[i].attachment.url)).Ok?)
      && (r.1.None? ==> |r.0| == |reqs|)
      && (r.1.Some? ==> |r.0| < |reqs| && encrypt(AttachmentUrl(reqs[|r.0|].attachment.url)).Err?
                        && r.1 == Some(AttachmentFailed(M.EncryptionError(encrypt(AttachmentUrl(reqs[|r.0|].attachment.url)).error))))
  {
    if reqs != [] {
      var rest := reqs[1..];
      EncryptedAttachmentsStop(rest, encrypt);
      if encrypt(AttachmentUrl(reqs[0].attachment.url)).Ok? {
        assert forall i :: 0 <= i < |rest| ==> rest[i] == reqs[i + 1];
        var r := EncryptedAttachments(rest, encrypt);
        assert EncryptedAttachments(reqs, encrypt) == ([reqs[0].attachment] + r.0, r.1);
        if r.1.None? {
          forall i | 0 <= i < |reqs|
            ensures encrypt(AttachmentUrl(reqs[i].attachment.url)).Ok?
          {
            if i > 0 {
              assert reqs[i] == rest[i - 1];
            }
          }
        }
      }
    }
  }

  /** InternalEmailRequest.Encrypt: encrypts the sender, then the recipient
      list, then each attachment, writing into the embedded Email as it goes
      and stopping at the first failure; what was written before the failure
      stays.  Attachments are appended to those already present. */
  method EncryptRequest(m: InternalEmailRequest, encrypt: Payload -> Result<Rsa.EncryptedBuffer, string>)
    returns (m': InternalEmailRequest, err: Option<RequestEncryptionError>)
    ensures m'.from == m.from && m'.toList == m.toList && m'.attachments == m.attachments
    ensures encrypt(SenderAddress(m.from)).Err? ==>
      err == Some(RouterFailed(encrypt(SenderAddress(m.from)).error)) && m' == m
    ensures encrypt(SenderAddress(m.from)).Ok? ==> m'.email.from == Some(encrypt(SenderAddress(m.from)).value)
    ensures encrypt(SenderAddress(m.from)).Ok? && encrypt(RecipientList(m.toList)).Err? ==>
      err == Some(RouterFailed(encrypt(RecipientList(m.toList)).error)) && m'.email == m.email.(from := m'.email.from)
    ensures encrypt(SenderAddress(m.from)).Ok? && encrypt(RecipientList(m.toList)).Ok? ==>
      var (appended, failure) := EncryptedAttachments(m.attachments, encrypt);
      err == failure
      && m'.email == m.email.(from := Some(encrypt(SenderAddress(m.from)).value),
                              toList := Some(encrypt(RecipientList(m.toList)).value),
                              attachments := m.email.attachments + appended)
  {
    var fromAnswer := encrypt(SenderAddress(m.from));
    if fromAnswer.Err? {
      return m, Some(RouterFailed(fromAnswer.error));
    }
    var email := m.email.(from := Some(fromAnswer.value));
    var toAnswer := encrypt(RecipientList(m.toList));
    if toAnswer.Err? {
      return m.(email := email), Some(RouterFailed(toAnswer.error));
    }
    email := email.(toList := Some(toAnswer.value));
    var added, failure := EncryptAttachments(m.attachments, encrypt);
    return m.(email := email.(attachments := m.email.attachments + added)), failure;
  }

  /** The attachment loop of InternalEmailRequest.Encrypt. */
  method EncryptAttachments(reqs: seq<M.AttachmentRequest>, encrypt: Payload -> Result<Rsa.EncryptedBuffer, string>)
    returns (added: seq<M.Attachment>, err: Option<RequestEncryptionError>)
    ensures (added, err) == EncryptedAttachments(reqs, encrypt)
  {
    added := [];
    var i := 0;
    assert reqs[0..] == reqs;
    assert [] + EncryptedAttachments(reqs, encrypt).0 == EncryptedAttachments(reqs, encrypt).0;
    while i < |reqs|
      invariant 0 <= i <= |reqs|
      invariant EncryptedAttachments(reqs, encrypt)
        == var rest := EncryptedAttachments(reqs[i..], encrypt); (added + rest.0, rest.1)
    {
      var failure := M.EncryptRequest(reqs[i], encrypt(AttachmentUrl(reqs[i].attachment.url)));
      assert reqs[i..][1..] == reqs[i + 1..];
      if failure.Some? {
        assert added + [] == added;
        return added, Some(AttachmentFailed(failure.value));
      }
      ghost var rest := EncryptedAttachments(reqs[i + 1..], encrypt);
      assert added + ([reqs[i].attachment] + rest.0) == (added + [reqs[i].attachment]) + rest.0;
      added := added + [reqs[i].attachment];
      i := i + 1;
    }
    assert reqs[i..] == [];
    assert added + [] == added;
    return added, None;
  }

  /** Entries of InternalEmailRequest.Validate's error list. */
  datatype RequestFieldError =
    | FromInvalid(fromError: Address.AddressError)
    | ToInvalid(index: nat, toError: Address.AddressError)
    | AttachmentInvalid(index: nat, attachmentError: M.RequestError)

  /** The entries for the recipients from position `start` on, one per
      invalid address, in list order. */
  function ToListErrors(toList: seq<Address.Address>, start: nat): (errs: seq<RequestFieldError>)
    requires start <= |toList|
    ensures forall e :: e in errs ==> e.ToInvalid? && start <= e.index < |toList| && Address.Validate(toList[e.index]) == Some(e.toError)
    ensures forall i :: start <= i < |toList| && Address.Validate(toList[i]).Some? ==> ToInvalid(i, Address.Validate(toList[i]).value) in errs
    ensures forall i, j :: 0 <= i < j < |errs| ==> errs[i].index < errs[j].index
    decreases |toList| - start
  {
    if start == |toList| then []
    else
      var rest := ToListErrors(toList, start + 1);
      match Address.Validate(toList[start])
      case Some(e) => [ToInvalid(start, e)] + rest
      case None => rest
  }

  /** The entries for the attachments from position `start` on. */
  function AttachmentErrors(attachments: seq<M.AttachmentRequest>, start: nat): (errs: seq<RequestFieldError>)
    requires start <= |attachments|
    ensures forall e :: e in errs ==> e.AttachmentInvalid? && start <= e.index < |attachments| && M.ValidateRequest(attachments[e.index]) != []
    ensures forall i :: start <= i < |attachments| && M.ValidateRequest(attachments[i]) != [] ==> AttachmentInvalid(i, M.EmptyBuffer) in errs
    ensures forall i, j :: 0 <= i < j < |errs| ==> errs[i].index < errs[j].index
    decreases |attachments| - start
  {
    if start == |attachments| then []
    else
      var rest := AttachmentErrors(attachments, start + 1);
      if M.ValidateRequest(attachments[start]) != [] then [AttachmentInvalid(start, M.EmptyBuffer)] + rest else rest
  }

  lemma ToListErrorsEmpty(toList: seq<Address.Address>)
    ensures ToListErrors(toList, 0) == [] <==> forall i :: 0 <= i < |toList| ==> Address.Validate(toList[i]).None?
  {
    var errs := ToListErrors(toList, 0);
    if errs != [] {
      assert errs[0] in errs;
    }
  }

  lemma AttachmentErrorsEmpty(attachments: seq<M.AttachmentRequest>)
    ensures AttachmentErrors(attachments, 0) == [] <==> forall i :: 0 <= i < |attachments| ==> |attachments[i].buffer| > 0
  {
    var errs := AttachmentErrors(attachments, 0);
    if errs != [] {
      assert errs[0] in errs;
    }
  }

  /** InternalEmailRequest.Validate: every invalid field is reported, sender
      first, then recipients, then attachments; nothing stops the checks. */
  function ValidateRequest(e: InternalEmailRequest): (errs: seq<RequestFieldError>)
    ensures errs == [] <==>
      (Address.Validate(e.from).None?
       && (forall i :: 0 <= i < |e.toList| ==> Address.Validate(e.toList[i]).None?)
       && (forall i :: 0 <= i < |e.attachments| ==> |e.attachments[i].buffer| > 0))
    ensures Address.Validate(e.from).Some? ==> errs[0] == FromInvalid(Address.Validate(e.from).value)
  {
    var fromErrs := if Address.Validate(e.from).Some? then [FromInvalid(Address.Validate(e.from).value)] else [];
    ToListErrorsEmpty(e.toList);
    AttachmentErrorsEmpty(e.attachments);
    fromErrs + ToListErrors(e.toList, 0) + AttachmentErrors(e.attachments, 0)
  }

  /** Entries of Email.Validate's error list. */
  datatype EmailError = InvalidId(idError: DatabaseId.IdError) | EmptyTo | EmptyTitle | EmptyFrom | EmptyToList | EmptyEmail

  /** Email.Validate's outcome: the list it returns, or the panic of reading
      the buffer of a nil Title or From. */
  datatype EmailCheck = Checked(errs: seq<EmailError>) | NilTitle | NilFrom

  /** Email.Validate.  Title and From are dereferenced unconditionally, Title
      first; ToList is only compared with nil, so an empty encrypted list
      passes; a body length of 0 is accepted when there are attachments. */
  function ValidateEmail(e: Email): (r: EmailCheck)
    ensures e.title.None? <==> r == NilTitle
    ensures e.title.Some? && e.from.None? <==> r == NilFrom
    ensures r == Checked([]) <==>
      (e.title.Some? && e.from.Some? && DatabaseId.Validate(e.id).None? && |e.to| > 0
       && |e.title.value.buffer| > 0 && |e.from.value.buffer| > 0 && e.toList.Some?
       && (e.bodyLength > 0 || |e.attachments| > 0))
    ensures r.Checked? ==> (EmptyEmail in r.errs <==> e.bodyLength == 0 && |e.attachments| == 0)
  {
    if e.title.None? then NilTitle
    else if e.from.None? then NilFrom
    else
      var idCheck := DatabaseId.Validate(e.id);
      Checked(
        (if idCheck.Some? then [InvalidId(idCheck.value)] else [])
        + (if |e.to| == 0 then [EmptyTo] else [])
        + (if |e.title.value.buffer| == 0 then [EmptyTitle] else [])
        + (if |e.from.value.buffer| == 0 then [EmptyFrom] else [])
        + (if e.toList.None? then [EmptyToList] else [])
        + (if e.bodyLength == 0 && |e.attachments| == 0 then [EmptyEmail] else []))
  }
}
