/** The three envelope middlewares of the e-mail service's controller
    (email_ms/controller): recipient lookup, quota validation and
    encryption.  The account service's answers and the encryption routine
    are oracles the middlewares are given; each loop is a method proved
    equal to the middleware function the pipeline runs. */
module EmailController {
  import opened Outcomes
  import Address
  import Rsa
  import M = AttachmentModels
  import E = EmailModels
  import P = SmtpPipeline

  /** getRecipient's answer: whether the address has an account, and its
      public key (nil when the service sends none). */
  datatype Recipient = Recipient(found: bool, publicKey: Option<Rsa.PublicKey>)

  /** getAccountInfo's answer as ValidateEmailMiddleware reads it. */
  datatype AccountInfo = AccountInfo(currentInboxSize: int, maxInboxSize: int, info: P.AccountAddressInfo)

  type RecipientLookup = Address.Address -> Result<Recipient, string>
  type AccountLookup = Address.Address -> Result<AccountInfo, string>

  /** What a middleware does for one address: the entries it appends, or
      the error it returns. */
  type Step = Address.Address -> Result<seq<P.ProcessingEmail>, P.Error>

  /** What a loop over the recipients leaves: the entries it appended and
      the error that ended it early, if any. */
  datatype Scan = Scan(added: seq<P.ProcessingEmail>, error: Option<P.Error>)

  function Then(entries: seq<P.ProcessingEmail>, s: Scan): Scan
  {
    Scan(entries + s.added, s.error)
  }

  /** The loop over ToList, address by address, up to the first error. */
  function Scanned(step: Step, addrs: seq<Address.Address>): Scan
  {
    if addrs == [] then Scan([], None)
    else match step(addrs[0])
      case Err(e) => Scan([], Some(e))
      case Ok(entries) => Then(entries, Scanned(step, addrs[1..]))
  }

  /** What one address contributes when its step succeeds. */
  function Entries(step: Step, a: Address.Address): seq<P.ProcessingEmail>
  {
    if step(a).Ok? then step(a).value else []
  }

  /** The entries every address would contribute, ignoring errors. */
  function Flatten(step: Step, addrs: seq<Address.Address>): seq<P.ProcessingEmail>
  {
    if addrs == [] then [] else Entries(step, addrs[0]) + Flatten(step, addrs[1..])
  }

  /** Every address's step succeeds. */
  predicate AllOk(step: Step, addrs: seq<Address.Address>)
  {
    forall i :: 0 <= i < |addrs| ==> step(addrs[i]).Ok?
  }

  /** The position of the first address whose step fails (the number of
      addresses when none does). */
  function FirstError(step: Step, addrs: seq<Address.Address>): (i: nat)
    ensures i <= |addrs| && AllOk(step, addrs[..i])
    ensures i < |addrs| ==> step(addrs[i]).Err?
  {
    if addrs == [] then 0
    else if step(addrs[0]).Err? then
      assert addrs[..0] == [];
      0
    else
      var j := FirstError(step, addrs[1..]);
      1 + j
  }

  /** The loop stops at the first address whose step fails, returning that
      error and keeping what the addresses before it appended; without a
      failure it appends every address's entries, in ToList order. */
  lemma {:induction false} ScannedStopsAtFirstFailure(step: Step, addrs: seq<Address.Address>)
    ensures var i := FirstError(step, addrs);
            Scanned(step, addrs) == Scan(Flatten(step, addrs[..i]), if i < |addrs| then Some(step(addrs[i]).error) else None)
    ensures Scanned(step, addrs).error.None? <==> AllOk(step, addrs)
  {
    var i := FirstError(step, addrs);
    if addrs != [] {
      var rest := addrs[1..];
      ScannedStopsAtFirstFailure(step, rest);
      if step(addrs[0]).Err? {
        assert addrs[..i] == [];
      } else {
        var j := FirstError(step, rest);
        assert addrs[..i][0] == addrs[0] && addrs[..i][1..] == rest[..j];
        assert j < |rest| ==> rest[j] == addrs[i];
      }
    }
    if i == |addrs| {
      assert addrs[..i] == addrs;
    }
  }

  /** One turn of the loop: the scan from position i is address i's step
      followed by the scan from i + 1. */
  lemma ScanOne(step: Step, addrs: seq<Address.Address>, i: nat)
    requires i < |addrs|
    ensures Scanned(step, addrs[i..])
            == match step(addrs[i])
               case Err(e) => Scan([], Some(e))
               case Ok(entries) => Then(entries, Scanned(step, addrs[i + 1..]))
  {
    assert addrs[i..][0] == addrs[i] && addrs[i..][1..] == addrs[i + 1..];
  }

  /** A turn that appends: the entries join those appended so far. */
  lemma ScanAdvance(step: Step, addrs: seq<Address.Address>, i: nat, added: seq<P.ProcessingEmail>,
                    entries: seq<P.ProcessingEmail>)
    requires i < |addrs| && step(addrs[i]) == Ok(entries)
    requires Scanned(step, addrs) == Then(added, Scanned(step, addrs[i..]))
    ensures Scanned(step, addrs) == Then(added + entries, Scanned(step, addrs[i + 1..]))
  {
    ScanOne(step, addrs, i);
    var rest := Scanned(step, addrs[i + 1..]).added;
    assert added + (entries + rest) == (added + entries) + rest;
  }

  /** A turn that fails: the loop ends with what was appended before. */
  lemma ScanHalt(step: Step, addrs: seq<Address.Address>, i: nat, added: seq<P.ProcessingEmail>, e: P.Error)
    requires i < |addrs| && step(addrs[i]) == Err(e)
    requires Scanned(step, addrs) == Then(added, Scanned(step, addrs[i..]))
    ensures Scanned(step, addrs) == Scan(added, Some(e))
  {
    ScanOne(step, addrs, i);
    assert added + [] == added;
  }

  /** Past the last address the loop ends without error. */
  lemma ScanEnd(step: Step, addrs: seq<Address.Address>, added: seq<P.ProcessingEmail>)
    requires Scanned(step, addrs) == Then(added, Scanned(step, addrs[|addrs|..]))
    ensures Scanned(step, addrs) == Scan(added, None)
  {
    assert addrs[|addrs|..] == [];
    assert added + [] == added;
  }

  /** The addresses of a list of entries. */
  function Recipients(list: seq<P.ProcessingEmail>): (r: seq<Address.Address>)
    ensures |r| == |list| && forall k :: 0 <= k < |list| ==> r[k] == list[k].to
  {
    seq(|list|, k requires 0 <= k < |list| => list[k].to)
  }

  /** The pipeline after a loop: the entries appended to its list, and a
      stop exactly when the loop returned an error. */
  function StageOf(p: P.EmailPipeline, s: Scan): (st: P.Stage)
  {
    var q := p.(processing := p.processing + s.added);
    if s.error.Some? then P.Stop(s.error.value, q) else P.Continue(q)
  }

  /** When every address's step appends exactly one entry, the entries
      line up with the addresses, position by position. */
  lemma {:induction false} FlattenSingles(step: Step, addrs: seq<Address.Address>, entry: Address.Address -> P.ProcessingEmail)
    requires forall k :: 0 <= k < |addrs| ==> step(addrs[k]) == Ok([entry(addrs[k])])
    ensures |Flatten(step, addrs)| == |addrs|
    ensures forall k :: 0 <= k < |addrs| ==> Flatten(step, addrs)[k] == entry(addrs[k])
  {
    if addrs != [] {
      var rest := addrs[1..];
      assert forall k :: 0 <= k < |rest| ==> rest[k] == addrs[k + 1];
      FlattenSingles(step, rest, entry);
      assert step(addrs[0]) == Ok([entry(addrs[0])]);
      assert Flatten(step, addrs) == [entry(addrs[0])] + Flatten(step, rest);
    }
  }

  // ---------------------------------------------------------------------
  // CheckDestinataryMiddleware
  // ---------------------------------------------------------------------

  /** One address: a lookup error is returned; an existing recipient is
      appended with its public key; an unknown one is skipped. */
  function CheckStep(lookup: RecipientLookup): (step: Step)
    ensures forall a :: lookup(a).Err? ==> step(a) == Err(P.Failure(lookup(a).error))
    ensures forall a :: lookup(a).Ok? ==> step(a).Ok? && |step(a).value| <= 1
    ensures forall a :: lookup(a).Ok? ==> (step(a).value != [] <==> lookup(a).value.found)
    ensures forall a, e :: lookup(a).Ok? && e in step(a).value ==>
              e.to == a && e.publicKey == lookup(a).value.publicKey && e.accountInfo.None? && e.email.None?
  {
    a => match lookup(a)
         case Err(e) => Err(P.Failure(e))
         case Ok(r) => Ok(if r.found then [P.ProcessingEmail(a, r.publicKey, None, None)] else [])
  }

  function CheckDestinatary(lookup: RecipientLookup): P.Middleware
  {
    (p: P.EmailPipeline) => StageOf(p, Scanned(CheckStep(lookup), p.envelope.toList))
  }

  /** The middleware's loop: looks the recipients up in ToList order,
      appending the existing ones to the processing list in place. */
  method CheckDestinataryMiddleware(lookup: RecipientLookup, p: P.EmailPipeline) returns (st: P.Stage)
    ensures st == StageOf(p, Scanned(CheckStep(lookup), p.envelope.toList))
  {
    var addrs := p.envelope.toList;
    var q := p;
    ghost var step := CheckStep(lookup);
    ghost var added: seq<P.ProcessingEmail> := [];
    for i := 0 to |addrs|
      invariant q == p.(processing := p.processing + added)
      invariant Scanned(step, addrs) == Then(added, Scanned(step, addrs[i..]))
    {
      var r := lookup(addrs[i]);
      if r.Err? {
        assert step(addrs[i]) == Err(P.Failure(r.error));
        ScanHalt(step, addrs, i, added, P.Failure(r.error));
        return P.Stop(P.Failure(r.error), q);
      }
      if r.value.found {
        var entry := P.ProcessingEmail(addrs[i], r.value.publicKey, None, None);
        assert step(addrs[i]) == Ok([entry]);
        ScanAdvance(step, addrs, i, added, [entry]);
        assert p.processing + (added + [entry]) == (p.processing + added) + [entry];
        q := q.(processing := q.processing + [entry]);
        added := added + [entry];
      } else {
        assert step(addrs[i]) == Ok([]);
        ScanAdvance(step, addrs, i, added, []);
        assert added + [] == added;
      }
    }
    ScanEnd(step, addrs, added);
    return P.Continue(q);
  }

  /** Every entry the lookup loop appends is a recipient of the envelope
      that exists, carrying the key the lookup gave and nothing else. */
  lemma {:induction false} CheckedEntriesExist(lookup: RecipientLookup, addrs: seq<Address.Address>)
    ensures forall e :: e in Flatten(CheckStep(lookup), addrs) ==>
              e.to in addrs && lookup(e.to) == Ok(Recipient(true, e.publicKey)) && e.accountInfo.None? && e.email.None?
  {
    if addrs != [] {
      var step := CheckStep(lookup);
      CheckedEntriesExist(lookup, addrs[1..]);
      assert Flatten(step, addrs) == Entries(step, addrs[0]) + Flatten(step, addrs[1..]);
    }
  }

  /** Every recipient that exists gets an entry. */
  lemma {:induction false} CheckedEntriesCover(lookup: RecipientLookup, addrs: seq<Address.Address>)
    ensures forall a :: a in addrs && lookup(a).Ok? && lookup(a).value.found ==>
              a in Recipients(Flatten(CheckStep(lookup), addrs))
  {
    if addrs != [] {
      var step := CheckStep(lookup);
      CheckedEntriesCover(lookup, addrs[1..]);
      var here := Entries(step, addrs[0]);
      var tail := Flatten(step, addrs[1..]);
      assert Recipients(here + tail) == Recipients(here) + Recipients(tail);
      forall a | a in addrs && lookup(a).Ok? && lookup(a).value.found
        ensures a in Recipients(here + tail)
      {
        if a == addrs[0] {
          assert Recipients(here)[0] == a;
        } else {
          assert a in addrs[1..];
        }
      }
    }
  }

  /** With every recipient existing, the whole ToList is appended in order,
      each recipient with the key the lookup gave. */
  lemma CheckedAllInOrder(lookup: RecipientLookup, addrs: seq<Address.Address>)
    requires forall a :: a in addrs ==> lookup(a).Ok? && lookup(a).value.found
    ensures |Flatten(CheckStep(lookup), addrs)| == |addrs|
    ensures forall k :: 0 <= k < |addrs| ==>
              Flatten(CheckStep(lookup), addrs)[k] == P.ProcessingEmail(addrs[k], lookup(addrs[k]).value.publicKey, None, None)
  {
    var entry := (a: Address.Address) =>
      P.ProcessingEmail(a, if lookup(a).Ok? then lookup(a).value.publicKey else None, None, None);
    forall k | 0 <= k < |addrs|
      ensures CheckStep(lookup)(addrs[k]) == Ok([entry(addrs[k])])
    {
      assert addrs[k] in addrs;
    }
    FlattenSingles(CheckStep(lookup), addrs, entry);
  }

  // ---------------------------------------------------------------------
  // ValidateEmailMiddleware
  // ---------------------------------------------------------------------

  /** The envelope fits the account's inbox: reaching the maximum exactly
      is allowed. */
  predicate Fits(a: AccountInfo, size: int)
  {
    a.currentInboxSize + size <= a.maxInboxSize
  }

  /** One address: a lookup error is returned, an inbox the envelope would
      overflow fails with ErrInboxFull, otherwise the recipient is appended
      with its account record.  size is Envelope.Size(). */
  function ValidateStep(lookup: AccountLookup, size: int): (step: Step)
    ensures forall a :: step(a).Ok? <==> lookup(a).Ok? && Fits(lookup(a).value, size)
    ensures forall a :: lookup(a).Err? ==> step(a) == Err(P.Failure(lookup(a).error))
    ensures forall a :: lookup(a).Ok? && !Fits(lookup(a).value, size) ==> step(a) == Err(P.InboxFull)
    ensures forall a :: step(a).Ok? ==> step(a).value == [P.ProcessingEmail(a, None, Some(lookup(a).value.info), None)]
  {
    a => match lookup(a)
         case Err(e) => Err(P.Failure(e))
         case Ok(info) =>
           if info.currentInboxSize + size > info.maxInboxSize then Err(P.InboxFull)
           else Ok([P.ProcessingEmail(a, None, Some(info.info), None)])
  }

  function ValidateEmail(lookup: AccountLookup, size: int): P.Middleware
  {
    (p: P.EmailPipeline) => StageOf(p, Scanned(ValidateStep(lookup, size), p.envelope.toList))
  }

  /** The middleware's loop: checks the recipients in ToList order,
      appending each one that passes to the processing list in place. */
  method ValidateEmailMiddleware(lookup: AccountLookup, size: int, p: P.EmailPipeline) returns (st: P.Stage)
    ensures st == StageOf(p, Scanned(ValidateStep(lookup, size), p.envelope.toList))
  {
    var addrs := p.envelope.toList;
    var q := p;
    ghost var step := ValidateStep(lookup, size);
    ghost var added: seq<P.ProcessingEmail> := [];
    for i := 0 to |addrs|
      invariant q == p.(processing := p.processing + added)
      invariant Scanned(step, addrs) == Then(added, Scanned(step, addrs[i..]))
    {
      var info := lookup(addrs[i]);
      if info.Err? {
        assert step(addrs[i]) == Err(P.Failure(info.error));
        ScanHalt(step, addrs, i, added, P.Failure(info.error));
        return P.Stop(P.Failure(info.error), q);
      }
      if info.value.currentInboxSize + size > info.value.maxInboxSize {
        assert step(addrs[i]) == Err(P.InboxFull);
        ScanHalt(step, addrs, i, added, P.InboxFull);
        return P.Stop(P.InboxFull, q);
      }
      var entry := P.ProcessingEmail(addrs[i], None, Some(info.value.info), None);
      assert step(addrs[i]) == Ok([entry]);
      ScanAdvance(step, addrs, i, added, [entry]);
      assert p.processing + (added + [entry]) == (p.processing + added) + [entry];
      q := q.(processing := q.processing + [entry]);
      added := added + [entry];
    }
    ScanEnd(step, addrs, added);
    return P.Continue(q);
  }

  /** Validation passes exactly when every recipient's lookup succeeds and
      the envelope fits every inbox. */
  lemma ValidatedAllOk(lookup: AccountLookup, size: int, addrs: seq<Address.Address>)
    ensures AllOk(ValidateStep(lookup, size), addrs) <==> (forall a :: a in addrs ==> lookup(a).Ok? && Fits(lookup(a).value, size))
  {
    if AllOk(ValidateStep(lookup, size), addrs) {
      forall a | a in addrs
        ensures lookup(a).Ok? && Fits(lookup(a).value, size)
      {
        var i :| 0 <= i < |addrs| && addrs[i] == a;
        assert ValidateStep(lookup, size)(addrs[i]).Ok?;
      }
    }
  }

  /** Then every recipient is appended, in ToList order, with its account
      record. */
  lemma ValidatedInOrder(lookup: AccountLookup, size: int, addrs: seq<Address.Address>)
    requires forall a :: a in addrs ==> lookup(a).Ok? && Fits(lookup(a).value, size)
    ensures |Flatten(ValidateStep(lookup, size), addrs)| == |addrs|
    ensures forall k :: 0 <= k < |addrs| ==>
              Flatten(ValidateStep(lookup, size), addrs)[k] == P.ProcessingEmail(addrs[k], None, Some(lookup(addrs[k]).value.info), None)
  {
    var entry := (a: Address.Address) =>
      P.ProcessingEmail(a, None, if lookup(a).Ok? then Some(lookup(a).value.info) else None, None);
    forall k | 0 <= k < |addrs|
      ensures ValidateStep(lookup, size)(addrs[k]) == Ok([entry(addrs[k])])
    {
      assert addrs[k] in addrs;
    }
    FlattenSingles(ValidateStep(lookup, size), addrs, entry);
  }

  /** An envelope that fills an inbox to exactly its maximum is accepted
      for that recipient. */
  lemma ReachingTheMaximumIsAllowed(lookup: AccountLookup, size: int, a: Address.Address)
    requires lookup(a).Ok? && lookup(a).value.currentInboxSize + size == lookup(a).value.maxInboxSize
    ensures Scanned(ValidateStep(lookup, size), [a]) == Scan([P.ProcessingEmail(a, None, Some(lookup(a).value.info), None)], None)
  {
    assert [a][1..] == [];
  }

  /** One byte more and the whole envelope fails with ErrInboxFull, with
      nothing appended for that recipient. */
  lemma OneByteOverFails(lookup: AccountLookup, size: int, a: Address.Address)
    requires lookup(a).Ok? && lookup(a).value.currentInboxSize + size == lookup(a).value.maxInboxSize + 1
    ensures Scanned(ValidateStep(lookup, size), [a]) == Scan([], Some(P.InboxFull))
  {
  }

  // ---------------------------------------------------------------------
  // EncryptEmailMiddleware and encryptEnvelope
  // ---------------------------------------------------------------------

  /** What encryptEnvelope hands to the encrypt routine. */
  datatype Plain = Sender(address: Address.Address) | RecipientList(addresses: seq<Address.Address>) | Bytes(content: string)

  type Encrypter = (Option<Rsa.PublicKey>, Plain) -> Result<Rsa.EncryptedBuffer, string>

  /** The four fields encryptEnvelope encrypts, in its order; the body is
      the text when there is any, the HTML otherwise. */
  function Fields(env: E.UnencryptedEmail): (fs: seq<Plain>)
    ensures |fs| == 4
  {
    [Sender(env.from), RecipientList(env.toList), Bytes(env.title), Bytes(if |env.text| > 0 then env.text else env.html)]
  }

  /** The Email encryptEnvelope returns: the four buffers, every other
      field at its zero value. */
  function Sealed(from: Rsa.EncryptedBuffer, toList: Rsa.EncryptedBuffer, title: Rsa.EncryptedBuffer, body: Rsa.EncryptedBuffer): E.Email
  {
    E.Email("", M.Time(0), M.Time(0), 0, Some(from), Some(toList), "", Some(title), Some(body), 0, [], false, false)
  }

  /** encryptEnvelope: From, ToList, Title, then the body, stopping at the
      first field that fails. */
  function EncryptEnvelope(encrypt: Encrypter, env: E.UnencryptedEmail, pk: Option<Rsa.PublicKey>): (r: Result<E.Email, string>)
    ensures r.Ok? ==> r.value.from.Some? && r.value.toList.Some? && r.value.title.Some? && r.value.body.Some?
    ensures r.Ok? ==> r.value.id == "" && r.value.createdAt == M.Time(0) && r.value.validUntil == M.Time(0)
                      && r.value.readCount == 0 && r.value.to == "" && r.value.bodyLength == 0
                      && r.value.attachments == [] && !r.value.insecure && !r.value.originConfirmed
    ensures r.Ok? ==> encrypt(pk, Sender(env.from)) == Ok(r.value.from.value)
                      && encrypt(pk, RecipientList(env.toList)) == Ok(r.value.toList.value)
                      && encrypt(pk, Bytes(env.title)) == Ok(r.value.title.value)
                      && encrypt(pk, Bytes(if |env.text| > 0 then env.text else env.html)) == Ok(r.value.body.value)
  {
    match encrypt(pk, Sender(env.from))
    case Err(e) => Err(e)
    case Ok(from) =>
      match encrypt(pk, RecipientList(env.toList))
      case Err(e) => Err(e)
      case Ok(toList) =>
        match encrypt(pk, Bytes(env.title))
        case Err(e) => Err(e)
        case Ok(title) =>
          if |env.text| > 0 then
            (match encrypt(pk, Bytes(env.text))
             case Err(e) => Err(e)
             case Ok(body) => Ok(Sealed(from, toList, title, body)))
          else
            (match encrypt(pk, Bytes(env.html))
             case Err(e) => Err(e)
             case Ok(body) => Ok(Sealed(from, toList, title, body)))
  }

  /** encryptEnvelope succeeds exactly when every field encrypts; it then
      holds the four encryptions, the body being the text's or else the
      HTML's, and nothing else; on failure it returns the first field's
      error. */
  lemma EncryptEnvelopeFields(encrypt: Encrypter, env: E.UnencryptedEmail, pk: Option<Rsa.PublicKey>)
    ensures EncryptEnvelope(encrypt, env, pk).Ok? <==> forall i :: 0 <= i < 4 ==> encrypt(pk, Fields(env)[i]).Ok?
    ensures EncryptEnvelope(encrypt, env, pk).Ok? ==>
              EncryptEnvelope(encrypt, env, pk).value
              == Sealed(encrypt(pk, Fields(env)[0]).value, encrypt(pk, Fields(env)[1]).value,
                        encrypt(pk, Fields(env)[2]).value, encrypt(pk, Fields(env)[3]).value)
    ensures EncryptEnvelope(encrypt, env, pk).Err? ==>
              exists i :: 0 <= i < 4 && encrypt(pk, Fields(env)[i]) == Err(EncryptEnvelope(encrypt, env, pk).error)
                          && forall j :: 0 <= j < i ==> encrypt(pk, Fields(env)[j]).Ok?
  {
    var fs := Fields(env);
    if encrypt(pk, fs[0]).Err? {
      assert encrypt(pk, fs[0]) == Err(EncryptEnvelope(encrypt, env, pk).error);
    } else if encrypt(pk, fs[1]).Err? {
      assert encrypt(pk, fs[1]) == Err(EncryptEnvelope(encrypt, env, pk).error);
    } else if encrypt(pk, fs[2]).Err? {
      assert encrypt(pk, fs[2]) == Err(EncryptEnvelope(encrypt, env, pk).error);
    } else if encrypt(pk, fs[3]).Err? {
      assert encrypt(pk, fs[3]) == Err(EncryptEnvelope(encrypt, env, pk).error);
    }
  }

  /** The list after the encryption loop, and the error that ended it. */
  datatype Encryption = Encryption(list: seq<P.ProcessingEmail>, error: Option<P.Error>)

  /** Each entry in turn gets the envelope encrypted with its own key,
      addressed to its own recipient; the first failure leaves that entry
      and the later ones as they were. */
  function Encrypted(encrypt: Encrypter, env: E.UnencryptedEmail, list: seq<P.ProcessingEmail>): Encryption
  {
    if list == [] then Encryption([], None)
    else match EncryptEnvelope(encrypt, env, list[0].publicKey)
      case Err(e) => Encryption(list, Some(P.Failure(e)))
      case Ok(m) =>
        var rest := Encrypted(encrypt, env, list[1..]);
        Encryption([list[0].(email := Some(m.(to := list[0].to)))] + rest.list, rest.error)
  }

  /** The pipeline after the encryption loop: its list replaced by the
      updated one, and a stop exactly when an encryption failed. */
  function Sealing(p: P.EmailPipeline, r: Encryption): P.Stage
  {
    var q := p.(processing := r.list);
    if r.error.Some? then P.Stop(r.error.value, q) else P.Continue(q)
  }

  function EncryptEmail(encrypt: Encrypter): P.Middleware
  {
    (p: P.EmailPipeline) => Sealing(p, Encrypted(encrypt, p.envelope, p.processing))
  }

  /** The middleware's loop: encrypts the entries in list order, updating
      each in place. */
  method EncryptEmailMiddleware(encrypt: Encrypter, p: P.EmailPipeline) returns (st: P.Stage)
    ensures st == Sealing(p, Encrypted(encrypt, p.envelope, p.processing))
  {
    var q := p;
    var n := |p.processing|;
    for i := 0 to n
      invariant q.envelope == p.envelope && |q.processing| == n
      invariant q.processing[i..] == p.processing[i..]
      invariant Encrypted(encrypt, p.envelope, p.processing)
                == Resume(q.processing[..i], Encrypted(encrypt, p.envelope, p.processing[i..]))
    {
      var pending := q.processing[i];
      var encrypted := EncryptEnvelope(encrypt, q.envelope, pending.publicKey);
      if encrypted.Err? {
        EncryptHalt(encrypt, p.envelope, p.processing, q.processing, i, encrypted.error);
        return P.Stop(P.Failure(encrypted.error), q);
      }
      var m := encrypted.value.(to := pending.to);
      EncryptAdvance(encrypt, p.envelope, p.processing, q.processing, i, encrypted.value);
      q := q.(processing := q.processing[i := pending.(email := Some(m))]);
    }
    EncryptEnd(encrypt, p.envelope, p.processing, q.processing);
    return P.Continue(q);
  }

  /** The list an interrupted loop leaves: the entries it has handled
      followed by what the rest of the loop makes of the others. */
  function Resume(done: seq<P.ProcessingEmail>, r: Encryption): Encryption
  {
    Encryption(done + r.list, r.error)
  }

  /** One turn of the encryption loop, at position i. */
  lemma EncryptOne(encrypt: Encrypter, env: E.UnencryptedEmail, list: seq<P.ProcessingEmail>, i: nat)
    requires i < |list|
    ensures Encrypted(encrypt, env, list[i..])
            == match EncryptEnvelope(encrypt, env, list[i].publicKey)
               case Err(e) => Encryption(list[i..], Some(P.Failure(e)))
               case Ok(m) => Resume([list[i].(email := Some(m.(to := list[i].to)))], Encrypted(encrypt, env, list[i + 1..]))
  {
    assert list[i..][0] == list[i] && list[i..][1..] == list[i + 1..];
  }

  /** A turn that succeeds: entry i, as yet untouched, gets its envelope. */
  lemma EncryptAdvance(encrypt: Encrypter, env: E.UnencryptedEmail, list: seq<P.ProcessingEmail>,
                       current: seq<P.ProcessingEmail>, i: nat, m: E.Email)
    requires i < |list| == |current| && current[i..] == list[i..]
    requires EncryptEnvelope(encrypt, env, current[i].publicKey) == Ok(m)
    requires Encrypted(encrypt, env, list) == Resume(current[..i], Encrypted(encrypt, env, list[i..]))
    ensures var next := current[i := current[i].(email := Some(m.(to := current[i].to)))];
            && next[i + 1..] == list[i + 1..]
            && Encrypted(encrypt, env, list) == Resume(next[..i + 1], Encrypted(encrypt, env, list[i + 1..]))
  {
    assert current[i] == current[i..][0] == list[i];
    EncryptOne(encrypt, env, list, i);
    var entry := current[i].(email := Some(m.(to := current[i].to)));
    var next := current[i := entry];
    assert next[..i + 1] == current[..i] + [entry];
    var rest := Encrypted(encrypt, env, list[i + 1..]).list;
    assert current[..i] + ([entry] + rest) == (current[..i] + [entry]) + rest;
    assert next[i + 1..] == current[i + 1..] == list[i + 1..];
  }

  /** A turn that fails: the loop ends with the list as it stands. */
  lemma EncryptHalt(encrypt: Encrypter, env: E.UnencryptedEmail, list: seq<P.ProcessingEmail>,
                    current: seq<P.ProcessingEmail>, i: nat, e: string)
    requires i < |list| == |current| && current[i..] == list[i..]
    requires EncryptEnvelope(encrypt, env, current[i].publicKey) == Err(e)
    requires Encrypted(encrypt, env, list) == Resume(current[..i], Encrypted(encrypt, env, list[i..]))
    ensures Encrypted(encrypt, env, list) == Encryption(current, Some(P.Failure(e)))
  {
    assert current[i] == current[i..][0] == list[i];
    EncryptOne(encrypt, env, list, i);
    assert current[..i] + list[i..] == current;
  }

  /** Past the last entry the loop ends without error. */
  lemma EncryptEnd(encrypt: Encrypter, env: E.UnencryptedEmail, list: seq<P.ProcessingEmail>,
                   current: seq<P.ProcessingEmail>)
    requires |list| == |current|
    requires Encrypted(encrypt, env, list) == Resume(current[..|list|], Encrypted(encrypt, env, list[|list|..]))
    ensures Encrypted(encrypt, env, list) == Encryption(current, None)
  {
    assert list[|list|..] == [];
    assert current[..|list|] + [] == current;
  }

  /** Encryption keeps the list's length and every entry's recipient, key
      and account record; it fills the entries in order up to the first
      failure, each with its own recipient and its own key's encryption,
      and leaves the failing entry and the later ones untouched. */
  lemma EncryptedInPlace(encrypt: Encrypter, env: E.UnencryptedEmail, list: seq<P.ProcessingEmail>)
    ensures var r := Encrypted(encrypt, env, list);
            && |r.list| == |list|
            && (forall k :: 0 <= k < |list| ==> r.list[k] == list[k].(email := r.list[k].email))
            && (r.error.None? <==> forall k :: 0 <= k < |list| ==> EncryptEnvelope(encrypt, env, list[k].publicKey).Ok?)
            && (forall k :: 0 <= k < |list| && (r.error.None? || k < FirstFailure(encrypt, env, list)) ==>
                  r.list[k].email == Some(EncryptEnvelope(encrypt, env, list[k].publicKey).value.(to := list[k].to)))
            && (r.error.Some? ==> forall k :: FirstFailure(encrypt, env, list) <= k < |list| ==> r.list[k] == list[k])
  {
    EncryptedKeepsEntries(encrypt, env, list);
    EncryptedFailsAtFirstFailure(encrypt, env, list);
    EncryptedFillsPrefix(encrypt, env, list);
  }

  /** The list keeps its length and each entry all but its email. */
  lemma {:induction false} EncryptedKeepsEntries(encrypt: Encrypter, env: E.UnencryptedEmail, list: seq<P.ProcessingEmail>)
    ensures var r := Encrypted(encrypt, env, list);
            && |r.list| == |list|
            && forall k :: 0 <= k < |list| ==> r.list[k] == list[k].(email := r.list[k].email)
  {
    if list != [] {
      EncryptedKeepsEntries(encrypt, env, list[1..]);
      var r := Encrypted(encrypt, env, list);
      var t := Encrypted(encrypt, env, list[1..]);
      if EncryptEnvelope(encrypt, env, list[0].publicKey).Ok? {
        forall k | 0 < k < |list| ensures r.list[k] == list[k].(email := r.list[k].email) {
          assert r.list[k] == t.list[k - 1] && list[k] == list[1..][k - 1];
        }
      }
    }
  }

  /** The error is the first failure's, and none means every entry
      encrypts; a failure leaves the entries from it on as they were. */
  lemma {:induction false} EncryptedFailsAtFirstFailure(encrypt: Encrypter, env: E.UnencryptedEmail, list: seq<P.ProcessingEmail>)
    ensures var r := Encrypted(encrypt, env, list);
            && (r.error.None? <==> FirstFailure(encrypt, env, list) == |list|)
            && (r.error.Some? ==> forall k :: FirstFailure(encrypt, env, list) <= k < |list| ==> k < |r.list| && r.list[k] == list[k])
  {
    if list != [] {
      EncryptedFailsAtFirstFailure(encrypt, env, list[1..]);
      EncryptedKeepsEntries(encrypt, env, list);
      var r := Encrypted(encrypt, env, list);
      var t := Encrypted(encrypt, env, list[1..]);
      if EncryptEnvelope(encrypt, env, list[0].publicKey).Ok? && r.error.Some? {
        forall k | FirstFailure(encrypt, env, list) <= k < |list| ensures k < |r.list| && r.list[k] == list[k] {
          assert r.list[k] == t.list[k - 1] && list[k] == list[1..][k - 1];
        }
      }
    }
  }

  /** The entries before the first failure hold their encryption. */
  lemma {:induction false} EncryptedFillsPrefix(encrypt: Encrypter, env: E.UnencryptedEmail, list: seq<P.ProcessingEmail>)
    ensures |Encrypted(encrypt, env, list).list| == |list|
    ensures forall k :: 0 <= k < FirstFailure(encrypt, env, list) ==>
              Encrypted(encrypt, env, list).list[k].email
              == Some(EncryptEnvelope(encrypt, env, list[k].publicKey).value.(to := list[k].to))
  {
    EncryptedKeepsEntries(encrypt, env, list);
    if list != [] && EncryptEnvelope(encrypt, env, list[0].publicKey).Ok? {
      EncryptedFillsPrefix(encrypt, env, list[1..]);
      var r := Encrypted(encrypt, env, list);
      var t := Encrypted(encrypt, env, list[1..]);
      forall k | 0 <= k < FirstFailure(encrypt, env, list)
        ensures r.list[k].email == Some(EncryptEnvelope(encrypt, env, list[k].publicKey).value.(to := list[k].to))
      {
        if k > 0 {
          assert k - 1 < FirstFailure(encrypt, env, list[1..]);
          assert list[k] == list[1..][k - 1];
          assert r.list[k] == t.list[k - 1];
        }
      }
    } else {
      assert FirstFailure(encrypt, env, list) == 0;
    }
  }

  /** The position of the first entry whose encryption fails (the list's
      length when none does). */
  function FirstFailure(encrypt: Encrypter, env: E.UnencryptedEmail, list: seq<P.ProcessingEmail>): (i: nat)
    ensures i <= |list|
    ensures forall k :: 0 <= k < i ==> EncryptEnvelope(encrypt, env, list[k].publicKey).Ok?
    ensures i < |list| ==> EncryptEnvelope(encrypt, env, list[i].publicKey).Err?
  {
    if list == [] || EncryptEnvelope(encrypt, env, list[0].publicKey).Err? then 0
    else 1 + FirstFailure(encrypt, env, list[1..])
  }

  /** The recipient lookup followed by the encryption, as a two-stage
      pipeline run from Start's fresh state: when every recipient exists
      and every encryption succeeds, the run completes with one entry per
      recipient, in ToList order, each holding the envelope encrypted with
      that recipient's key and addressed to it. */
  lemma CheckThenEncrypt(lookup: RecipientLookup, encrypt: Encrypter, env: E.UnencryptedEmail)
    requires forall a :: a in env.toList ==> lookup(a).Ok? && lookup(a).value.found
    requires forall a :: a in env.toList ==> EncryptEnvelope(encrypt, env, lookup(a).value.publicKey).Ok?
    ensures var o := P.Run(P.Chain(0, 2), [CheckDestinatary(lookup), EncryptEmail(encrypt)], P.EmailPipeline(env, []));
            && o.Done?
            && o.pipeline.envelope == env
            && Recipients(o.pipeline.processing) == env.toList
            && forall k :: 0 <= k < |env.toList| ==>
                 o.pipeline.processing[k].email
                 == Some(EncryptEnvelope(encrypt, env, lookup(env.toList[k]).value.publicKey).value.(to := env.toList[k]))
  {
    var ms := [CheckDestinatary(lookup), EncryptEmail(encrypt)];
    var p0 := P.EmailPipeline(env, []);
    var list := Flatten(CheckStep(lookup), env.toList);
    AllFoundChecked(lookup, env);
    var r := Encrypted(encrypt, env, list);
    AllEncrypted(lookup, encrypt, env, list);
    var p1 := P.EmailPipeline(env, list);
    var p2 := P.EmailPipeline(env, r.list);
    assert ms[0](p0) == P.Continue(p1);
    assert ms[1](p1) == P.Continue(p2);
    BothContinue(ms, p0, p1, p2);
    P.ChainedRunsAll(ms, p0);
  }

  /** Two stages that both continue run to completion. */
  lemma BothContinue(ms: seq<P.Middleware>, p0: P.EmailPipeline, p1: P.EmailPipeline, p2: P.EmailPipeline)
    requires |ms| == 2 && ms[0](p0) == P.Continue(p1) && ms[1](p1) == P.Continue(p2)
    ensures P.Sequence(ms, p0) == P.Done(p2)
  {
    assert ms[1..][0] == ms[1] && ms[1..][1..] == [];
    assert P.Sequence(ms[1..], p1) == P.Sequence([], p2);
  }

  /** With every recipient existing, the lookup stage continues with one
      entry per recipient, in order, each with the key it was given. */
  lemma AllFoundChecked(lookup: RecipientLookup, env: E.UnencryptedEmail)
    requires forall a :: a in env.toList ==> lookup(a).Ok? && lookup(a).value.found
    ensures var list := Flatten(CheckStep(lookup), env.toList);
            && CheckDestinatary(lookup)(P.EmailPipeline(env, [])) == P.Continue(P.EmailPipeline(env, list))
            && Recipients(list) == env.toList
            && forall k :: 0 <= k < |list| ==> list[k].publicKey == lookup(env.toList[k]).value.publicKey
  {
    var addrs := env.toList;
    var step := CheckStep(lookup);
    var list := Flatten(step, addrs);
    ScannedStopsAtFirstFailure(step, addrs);
    CheckedAllInOrder(lookup, addrs);
    forall i | 0 <= i < |addrs|
      ensures step(addrs[i]).Ok?
    {
      assert addrs[i] in addrs;
    }
    assert FirstError(step, addrs) == |addrs|;
    assert addrs[..|addrs|] == addrs;
    assert Scanned(step, addrs) == Scan(list, None);
    assert [] + list == list;
    assert Recipients(list) == addrs;
    assert [] + list == list;
  }

  /** With every recipient's encryption succeeding, the encryption stage
      continues with every entry filled, each keeping its recipient. */
  lemma AllEncrypted(lookup: RecipientLookup, encrypt: Encrypter, env: E.UnencryptedEmail, list: seq<P.ProcessingEmail>)
    requires forall a :: a in env.toList ==> lookup(a).Ok? && lookup(a).value.found
    requires forall a :: a in env.toList ==> EncryptEnvelope(encrypt, env, lookup(a).value.publicKey).Ok?
    requires Recipients(list) == env.toList
    requires forall k :: 0 <= k < |list| ==> list[k].publicKey == lookup(env.toList[k]).value.publicKey
    ensures var r := Encrypted(encrypt, env, list);
            && EncryptEmail(encrypt)(P.EmailPipeline(env, list)) == P.Continue(P.EmailPipeline(env, r.list))
            && Recipients(r.list) == env.toList
            && forall k :: 0 <= k < |env.toList| ==>
                 r.list[k].email
                 == Some(EncryptEnvelope(encrypt, env, lookup(env.toList[k]).value.publicKey).value.(to := env.toList[k]))
  {
    var r := Encrypted(encrypt, env, list);
    forall k | 0 <= k < |list|
      ensures EncryptEnvelope(encrypt, env, list[k].publicKey).Ok?
    {
      assert env.toList[k] in env.toList;
    }
    EncryptedInPlace(encrypt, env, list);
    assert forall k :: 0 <= k < |r.list| ==> r.list[k].to == list[k].to;
  }
}
