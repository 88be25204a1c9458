/** The request check of the older account manager
    (account_manager/models), whose key is held by value. */
module AccountManagerModels {
  import opened Outcomes
  import Address
  import Rsa
  import Ms = AccountMsModels

  datatype RequestError = EmptyField(field: string)

  datatype CreateAccountRequest = CreateAccountRequest(address: Address.Address, publicKey: Rsa.PublicKey)

  /** CreateAccountRequest.Validate: only emptiness is checked, the address
      first. */
  function ValidateCreate(r: CreateAccountRequest): (e: Option<RequestError>)
    ensures e == None <==> r.address != "" && !Rsa.IsZero(r.publicKey)
    ensures e == Some(EmptyField("address")) <==> r.address == ""
    ensures e == Some(EmptyField("public_key")) <==> r.address != "" && Rsa.IsZero(r.publicKey)
  {
    if r.address == "" then Some(EmptyField("address"))
    else if Rsa.IsZero(r.publicKey) then Some(EmptyField("public_key"))
    else None
  }

  /** Everything the account service accepts, the manager accepts too. */
  lemma ServiceAcceptanceImpliesManagerAcceptance(address: Address.Address, k: Rsa.PublicKey)
    requires Ms.ValidateCreate(Ms.CreateAccountRequest(address, Some(k))) == Ms.Accepted
    ensures ValidateCreate(CreateAccountRequest(address, k)) == None
  {
    assert Address.Validate(address).None?;
  }

  /** The converse fails: the manager takes an address the service refuses
      on syntax. */
  lemma ManagerSkipsSyntax()
    ensures ValidateCreate(CreateAccountRequest("ab", Rsa.PublicKey(1, 65537))) == None
    ensures Ms.ValidateCreate(Ms.CreateAccountRequest("ab", Some(Rsa.PublicKey(1, 65537)))).Rejected?
  {
  }
}
