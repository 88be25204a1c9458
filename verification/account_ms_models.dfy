/** Request checks of the account service (account_ms/models). */
module AccountMsModels {
  import opened Outcomes
  import Address
  import Rsa

  /** The only domain the service creates accounts in. */
  const HomeDomain: string := "letter.me"

  /** Why a field was refused. */
  datatype FieldCause = BadAddress(cause: Address.AddressError) | ExternalAddress(address: string)

  /** The empty-field and invalid-field errors. */
  datatype RequestError = EmptyField(field: string) | InvalidField(field: string, cause: FieldCause)

  /** A check either passes, fails with the first error, or faults on a nil
      public-key pointer. */
  datatype Verdict = Accepted | Rejected(error: RequestError) | NilKeyFault

  /** CreateAccountRequest: the public key is a pointer. */
  datatype CreateAccountRequest = CreateAccountRequest(address: Address.Address, publicKey: Option<Rsa.PublicKey>)

  /** The address passes the syntax check and lives in letter.me. */
  predicate IsHomeAddress(a: Address.Address)
  {
    Address.Validate(a).None? && Address.Domain(a) == HomeDomain
  }

  /** CreateAccountRequest.Validate: empty address, syntax, domain, then the
      key, stopping at the first failure. */
  function ValidateCreate(r: CreateAccountRequest): (v: Verdict)
    ensures v == Accepted <==> IsHomeAddress(r.address) && r.publicKey.Some? && !Rsa.IsZero(r.publicKey.value)
    ensures v == Rejected(EmptyField("address")) <==> r.address == ""
    ensures v.Rejected? && v.error.InvalidField? && v.error.cause.BadAddress? <==>
              r.address != "" && Address.Validate(r.address).Some?
    ensures v == Rejected(InvalidField("address", ExternalAddress(r.address))) <==>
              Address.Validate(r.address).None? && Address.Domain(r.address) != HomeDomain
    ensures v.NilKeyFault? <==> IsHomeAddress(r.address) && r.publicKey.None?
    ensures v == Rejected(EmptyField("public_key")) <==>
              IsHomeAddress(r.address) && r.publicKey.Some? && Rsa.IsZero(r.publicKey.value)
  {
    if r.address == "" then Rejected(EmptyField("address"))
    else match Address.Validate(r.address)
      case Some(e) => Rejected(InvalidField("address", BadAddress(e)))
      case None =>
        if Address.Domain(r.address) != HomeDomain then Rejected(InvalidField("address", ExternalAddress(r.address)))
        else match r.publicKey
          case None => NilKeyFault
          case Some(k) => if Rsa.IsZero(k) then Rejected(EmptyField("public_key")) else Accepted
  }

  /** An accepted address is a local part followed by "@letter.me". */
  lemma AcceptedAddressIsLocal(r: CreateAccountRequest)
    requires ValidateCreate(r) == Accepted
    ensures exists k :: 0 < k < |r.address| && r.address == r.address[..k] + "@" + HomeDomain
  {
    Address.ValidAddressDecomposes(r.address);
  }

  /** The malformed address of the service's own test is refused by the
      syntax check, whatever key comes with it. */
  lemma MalformedAddressRejected(k: Option<Rsa.PublicKey>)
    ensures ValidateCreate(CreateAccountRequest("alysson\U{C2}\U{A8}@letter.me", k))
            == Rejected(InvalidField("address", BadAddress(Address.NotMatching("alysson\U{C2}\U{A8}@letter.me"))))
  {
    Address.RejectsNonAsciiLocalPart();
  }

  /** ResetPublicKeyRequest: an ownership key and a public-key pointer. */
  datatype ResetPublicKeyRequest = ResetPublicKeyRequest(ownershipKey: string, publicKey: Option<Rsa.PublicKey>)

  /** ResetPublicKeyRequest.Validate: empty ownership key, then the key. */
  function ValidateReset(r: ResetPublicKeyRequest): (v: Verdict)
    ensures v == Accepted <==> r.ownershipKey != "" && r.publicKey.Some? && !Rsa.IsZero(r.publicKey.value)
    ensures v == Rejected(EmptyField("ownership_key")) <==> r.ownershipKey == ""
    ensures v.NilKeyFault? <==> r.ownershipKey != "" && r.publicKey.None?
    ensures v == Rejected(EmptyField("public_key")) <==>
              r.ownershipKey != "" && r.publicKey.Some? && Rsa.IsZero(r.publicKey.value)
  {
    if r.ownershipKey == "" then Rejected(EmptyField("ownership_key"))
    else match r.publicKey
      case None => NilKeyFault
      case Some(k) => if Rsa.IsZero(k) then Rejected(EmptyField("public_key")) else Accepted
  }
}
