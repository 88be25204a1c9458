/** The argument parser of MAIL FROM and RCPT TO (email_ms/smtp/utils.go;
    session.go and client.go carry the same parseEmail). */
module SmtpUtils {
  import opened Outcomes
  import Address

  /** The error text of the length guard. */
  const SizeMessage: string := "address size must be between 4 and 253"

  /** Either the length guard fired (no address), or an address was cut out,
      together with the result of validating it. */
  datatype Parsed = SizeError | Parsed(address: Address.Address, err: Option<Address.AddressError>)

  /** parseEmailAddress: arguments of 4 to 253 bytes lose their first and
      last byte, whatever those are, and the rest is validated. */
  function ParseEmailAddress(buf: string): (r: Parsed)
    ensures r.SizeError? <==> |buf| < 4 || |buf| > 253
    ensures r.Parsed? ==> |buf| >= 2 && buf == [buf[0]] + r.address + [buf[|buf| - 1]]
    ensures r.Parsed? ==> r.err == Address.Validate(r.address)
  {
    if |buf| < 4 || |buf| > 253 then SizeError
    else
      var strip := buf[1..|buf| - 1];
      Parsed(strip, Address.Validate(strip))
  }

  /** Whether the caller sees an error, and its text. */
  function ErrorText(r: Parsed): (t: Option<string>)
    ensures t.None? <==> r.Parsed? && r.err.None?
    ensures r.SizeError? ==> t == Some(SizeMessage)
  {
    match r
    case SizeError => Some(SizeMessage)
    case Parsed(_, None) => None
    case Parsed(_, Some(e)) => Some(Address.Message(e))
  }

  /** The guard admits 4 and 5 byte arguments, whose 2 and 3 byte cores the
      address rule then refuses on length. */
  lemma ShortArgumentsFailValidation(buf: string)
    requires 4 <= |buf| <= 5
    ensures ParseEmailAddress(buf) == Parsed(buf[1..|buf| - 1], Some(Address.LengthOutOfRange(buf[1..|buf| - 1])))
  {
  }

  /** The stripped bytes need not be angle brackets. */
  lemma BracketsNotChecked()
    ensures ParseEmailAddress("xalysson@letter.mey").Parsed?
    ensures ParseEmailAddress("xalysson@letter.mey").address == "alysson@letter.me"
  {
    assert "xalysson@letter.mey"[1..18] == "alysson@letter.me";
  }
}
