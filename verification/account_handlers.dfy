/** The decision logic of two message handlers of the account service
    (account_ms/handler): the decoded request and the lookup's answer are
    inputs, and the handler maps them to a response or a wrapped error. */
module AccountHandlers {
  import opened Outcomes

  /** The two base errors of the handler package. */
  datatype BaseError = ErrDecode | ErrInternal

  /** errors.Wrap(base, message): the message is the underlying error's text
      and errors.Is still finds the base. */
  datatype HandlerError = Wrapped(base: BaseError, message: string)

  predicate Is(e: HandlerError, base: BaseError)
  {
    e.base == base
  }

  /** What a lookup returns as error: mongo.ErrNotFound or anything else. */
  datatype LookupError = NotFound | Failed(message: string)

  /** A handler's two results: a response value and an error. */
  datatype Reply<T> = Reply(response: Option<T>, err: Option<HandlerError>)

  /** contracts.CheckEmailResponse. */
  datatype CheckEmailResponse = CheckEmailResponse(exists_: bool)

  /** verifyEmailExistence: a body that does not decode never reaches the
      lookup; otherwise exactly one lookup is made with the decoded address,
      and its error alone decides the reply. */
  function VerifyEmailExistence<K>(body: Result<string, string>, lookup: string -> Result<K, LookupError>): (r: Reply<CheckEmailResponse>)
    ensures body.Err? ==> r == Reply(None, Some(Wrapped(ErrDecode, body.error)))
    ensures body.Ok? && lookup(body.value).Ok? ==> r == Reply(Some(CheckEmailResponse(true)), None)
    ensures body.Ok? && lookup(body.value) == Err(NotFound) ==> r == Reply(Some(CheckEmailResponse(false)), None)
    ensures r.err.None? <==> r.response.Some?
    ensures r.err.Some? && Is(r.err.value, ErrInternal) <==> body.Ok? && lookup(body.value).Err? && lookup(body.value).error.Failed?
  {
    match body
    case Err(e) => Reply(None, Some(Wrapped(ErrDecode, e)))
    case Ok(address) =>
      match lookup(address)
      case Ok(_) => Reply(Some(CheckEmailResponse(true)), None)
      case Err(NotFound) => Reply(Some(CheckEmailResponse(false)), None)
      case Err(Failed(m)) => Reply(None, Some(Wrapped(ErrInternal, m)))
  }

  /** contracts.GetAccountInfoResponse: the empty response has no info. */
  datatype GetAccountInfoResponse<I> = GetAccountInfoResponse(info: Option<I>)

  /** getAccountPublicInfo: the same mapping, answering with the looked-up
      info, or an empty response when the account is not found. */
  function GetAccountPublicInfo<I>(body: Result<string, string>, lookup: string -> Result<I, LookupError>): (r: Reply<GetAccountInfoResponse<I>>)
    ensures body.Err? ==> r == Reply(None, Some(Wrapped(ErrDecode, body.error)))
    ensures body.Ok? && lookup(body.value).Ok? ==> r == Reply(Some(GetAccountInfoResponse(Some(lookup(body.value).value))), None)
    ensures body.Ok? && lookup(body.value) == Err(NotFound) ==> r == Reply(Some(GetAccountInfoResponse(None)), None)
    ensures r.err.None? <==> r.response.Some?
    ensures r.err.Some? && Is(r.err.value, ErrInternal) <==> body.Ok? && lookup(body.value).Err? && lookup(body.value).error.Failed?
  {
    match body
    case Err(e) => Reply(None, Some(Wrapped(ErrDecode, e)))
    case Ok(address) =>
      match lookup(address)
      case Ok(info) => Reply(Some(GetAccountInfoResponse(Some(info))), None)
      case Err(NotFound) => Reply(Some(GetAccountInfoResponse(None)), None)
      case Err(Failed(m)) => Reply(None, Some(Wrapped(ErrInternal, m)))
  }

  /** Over the same lookup, the two handlers fail alike, and an account
      exists exactly when the info response carries info. */
  lemma HandlersAgree<I>(body: Result<string, string>, lookup: string -> Result<I, LookupError>)
    ensures VerifyEmailExistence(body, lookup).err == GetAccountPublicInfo(body, lookup).err
    ensures VerifyEmailExistence(body, lookup).response.Some? ==>
              VerifyEmailExistence(body, lookup).response.value.exists_ ==
              GetAccountPublicInfo(body, lookup).response.value.info.Some?
  {
  }
}
