/** The configuration check of the authentication service
    (domain/authentication.go).  Token signing and parsing are not part of
    this model. */
module AuthConfig {
  import opened Outcomes
  import Rsa

  /** AuthConfiguration: a pointer to the signing key and the token lifetime
      (a time.Duration, a count of nanoseconds). */
  datatype AuthConfiguration = AuthConfiguration(privateKey: Option<Rsa.PrivateKey>, expiryDuration: int)

  /** The empty-field errors collected into the invalid-configuration error. */
  datatype AuthError = EmptyPrivateKey | EmptyExpiryDuration

  /** Either the collected list, or the fault of reading E through a nil key
      pointer, which happens before anything is collected. */
  datatype Checked = Collected(errs: seq<AuthError>) | NilKeyFault

  /** AuthConfiguration.Validate: the key's exponent, then the lifetime; both
      errors are collected and the configuration passes only with neither. */
  function Validate(c: AuthConfiguration): (r: Checked)
    ensures r.NilKeyFault? <==> c.privateKey.None?
    ensures r == Collected([]) <==> c.privateKey.Some? && !Rsa.IsZero(c.privateKey.value.publicKey) && c.expiryDuration != 0
    ensures r.Collected? ==> (EmptyPrivateKey in r.errs <==> Rsa.IsZero(c.privateKey.value.publicKey))
    ensures r.Collected? ==> (EmptyExpiryDuration in r.errs <==> c.expiryDuration == 0)
    ensures r.Collected? && |r.errs| == 2 ==> r.errs == [EmptyPrivateKey, EmptyExpiryDuration]
  {
    match c.privateKey
    case None => NilKeyFault
    case Some(k) =>
      Collected((if k.publicKey.e == 0 then [EmptyPrivateKey] else [])
                + (if c.expiryDuration == 0 then [EmptyExpiryDuration] else []))
  }
}
